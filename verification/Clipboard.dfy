/** The clipboard guard: a copied secret is cleared after a delay, if it is still there. */
module Clipboard {
  import opened Basics
  import AutoLock
  import Utf8

  const CLEAR_AFTER := 20 * AutoLock.NANOS_PER_SECOND

  // ---- The system clipboard, shared with every other program ----

  datatype Call =
    | GetText(result: Option<string>)
    | SetText(text: string, ok: bool)
    | Clear(ok: bool)

  /** The readable text, if any, and the calls that the guard has made. */
  datatype Board = Board(content: Option<string>, calls: seq<Call>)

  class SystemClipboard {
    var content: Option<string>
    ghost var calls: seq<Call>

    ghost function State(): Board
      reads this
    {
      Board(content, calls)
    }

    method Get(fails: bool) returns (text: Option<string>)
      modifies this
      ensures text == if fails then None else old(content)
      ensures State() == Board(old(content), old(calls) + [GetText(text)])
    {
      text := if fails then None else content;
      calls := calls + [GetText(text)];
    }

    method Set(text: string, fails: bool) returns (ok: bool)
      modifies this
      ensures ok == !fails
      ensures State() == Board(if fails then old(content) else Some(text), old(calls) + [SetText(text, ok)])
    {
      ok := !fails;
      if ok {
        content := Some(text);
      }
      calls := calls + [SetText(text, ok)];
    }

    method ClearAll(fails: bool)
      modifies this
      ensures State() == Board(if fails then old(content) else None, old(calls) + [Clear(!fails)])
    {
      if !fails {
        content := None;
      }
      calls := calls + [Clear(!fails)];
    }
  }

  // ---- The guard ----

  datatype Guard = Guard(secret: Bytes, deadline: Option<nat>, clearAfter: nat)

  function NewGuard(): Guard {
    Guard([], None, CLEAR_AFTER)
  }

  /** Wiping either zeroes the bytes in place or also drops them; `keep` says which. */
  function Wiped(secret: Bytes, keep: bool): (r: Bytes)
    ensures forall i :: 0 <= i < |r| ==> r[i] == 0
  {
    if keep then seq(|secret|, i => 0) else []
  }

  /** How the clipboard answers during one clearing attempt. */
  datatype ClearIo = ClearIo(getFails: bool, clearFails: bool, keep: bool)

  function Copied(g: Guard, b: Board, value: string, setFails: bool, now: nat, keep: bool): (Guard, Board, Result<Unit>) {
    var calls := b.calls + [SetText(value, !setFails)];
    if setFails then (g.(secret := Wiped(g.secret, keep)), Board(b.content, calls), Err(Error.Clipboard))
    else (g.(secret := Utf8.Encode(value), deadline := Some(now + g.clearAfter)), Board(Some(value), calls), Ok(Unit))
  }

  function ClearTried(g: Guard, b: Board, io: ClearIo): (Guard, Board) {
    var text := if io.getFails then None else b.content;
    var b1 := Board(b.content, b.calls + [GetText(text)]);
    var b2 := if text.Some? && Utf8.Encode(text.value) == g.secret
              then Board(if io.clearFails then b.content else None, b1.calls + [Clear(!io.clearFails)])
              else b1;
    (g.(secret := Wiped(g.secret, io.keep)), b2)
  }

  function Polled(g: Guard, b: Board, now: nat, io: ClearIo): (Guard, Board) {
    if g.deadline.Some? && now >= g.deadline.value then
      var (g', b') := ClearTried(g, b, io);
      (g'.(deadline := None), b')
    else (g, b)
  }

  function Cancelled(g: Guard, keep: bool): Guard {
    g.(secret := Wiped(g.secret, keep), deadline := None)
  }

  function Dropped(g: Guard, b: Board, io: ClearIo): Board {
    if g.deadline.Some? then ClearTried(g, b, io).1 else b
  }

  class ClipboardGuard {
    const backend: SystemClipboard
    var secret: Bytes
    var deadline: Option<nat>
    var clearAfter: nat

    constructor (backend: SystemClipboard)
      ensures State() == NewGuard() && this.backend == backend
    {
      this.backend := backend;
      secret, deadline, clearAfter := [], None, CLEAR_AFTER;
    }

    function State(): Guard
      reads this
    {
      Guard(secret, deadline, clearAfter)
    }

    method Copy(value: string, setFails: bool, now: nat, keep: bool) returns (r: Result<Unit>)
      modifies this, backend
      ensures (State(), backend.State(), r) == Copied(old(State()), old(backend.State()), value, setFails, now, keep)
    {
      secret := Wiped(secret, keep);
      var ok := backend.Set(value, setFails);
      if !ok {
        return Err(Error.Clipboard);
      }
      secret := Utf8.Encode(value);
      deadline := Some(now + clearAfter);
      return Ok(Unit);
    }

    method TryClear(io: ClearIo)
      modifies this, backend
      ensures (State(), backend.State()) == ClearTried(old(State()), old(backend.State()), io)
    {
      var current := backend.Get(io.getFails);
      if current.None? {
        secret := Wiped(secret, io.keep);
        return;
      }
      var stillOurs := Utf8.Encode(current.value) == secret;
      if stillOurs {
        backend.ClearAll(io.clearFails);
      }
      secret := Wiped(secret, io.keep);
    }

    method Poll(now: nat, io: ClearIo)
      modifies this, backend
      ensures (State(), backend.State()) == Polled(old(State()), old(backend.State()), now, io)
    {
      if deadline.Some? && now >= deadline.value {
        TryClear(io);
        deadline := None;
      }
    }

    method Cancel(keep: bool)
      modifies this
      ensures State() == Cancelled(old(State()), keep)
    {
      secret := Wiped(secret, keep);
      deadline := None;
    }

    /** What dropping the guard does. */
    method Drop(io: ClearIo)
      modifies this, backend
      ensures backend.State() == Dropped(old(State()), old(backend.State()), io)
    {
      if deadline.Some? {
        TryClear(io);
      }
    }
  }

  // ---- Runs with arbitrary other programs ----

  datatype ClipOp =
    | CopyOp(value: string, setFails: bool, now: nat, keep: bool)
    | PollOp(now: nat, io: ClearIo)
    | CancelOp(keep: bool)
    | DropOp(io: ClearIo)  // a new guard takes its place
    | ForeignOp(content: Option<string>)

  /** The guard, the clipboard, and the latest copy with its success. */
  datatype ClipState = ClipState(guard: Guard, board: Board, latest: Option<(string, bool)>)

  function ClipStep(s: ClipState, op: ClipOp): ClipState {
    match op
    case CopyOp(value, setFails, now, keep) =>
      var (g, b, r) := Copied(s.guard, s.board, value, setFails, now, keep);
      ClipState(g, b, Some((value, r.Ok?)))
    case PollOp(now, io) =>
      var (g, b) := Polled(s.guard, s.board, now, io);
      ClipState(g, b, s.latest)
    case CancelOp(keep) => s.(guard := Cancelled(s.guard, keep))
    case DropOp(io) => ClipState(NewGuard(), Dropped(s.guard, s.board, io), None)
    case ForeignOp(content) => s.(board := s.board.(content := content))
  }

  function ClipRun(s: ClipState, ops: seq<ClipOp>): ClipState
    decreases |ops|
  {
    if ops == [] then s else ClipRun(ClipStep(s, ops[0]), ops[1..])
  }

  function ClipStart(content: Option<string>): ClipState {
    ClipState(NewGuard(), Board(content, []), None)
  }

  ghost predicate AllZero(b: Bytes) {
    forall i :: 0 <= i < |b| ==> b[i] == 0
  }

  /** A pending secret is the value last copied; without a pending clear, or after a failed copy, every retained byte is zero. */
  ghost predicate SecretOk(s: ClipState) {
    && s.guard.clearAfter == 20_000_000_000
    && (s.guard.deadline.None? ==> AllZero(s.guard.secret))
    && (s.guard.deadline.Some? ==>
          && s.latest.Some?
          && if s.latest.value.1 then s.guard.secret == Utf8.Encode(s.latest.value.0) else AllZero(s.guard.secret))
  }

  lemma {:induction false} SecretIsKnown(s: ClipState, ops: seq<ClipOp>)
    requires SecretOk(s)
    ensures SecretOk(ClipRun(s, ops))
    decreases |ops|
  {
    if ops != [] {
      SecretIsKnown(ClipStep(s, ops[0]), ops[1..]);
    }
  }

  /** The calls that a step makes. */
  function NewCalls(s: ClipState, op: ClipOp): seq<Call> {
    var calls := ClipStep(s, op).board.calls;
    if |s.board.calls| <= |calls| then calls[|s.board.calls|..] else []
  }

  /** One clearing attempt: the text is read, and cleared exactly if it is what is retained. */
  ghost predicate Attempt(s: ClipState, io: ClearIo, calls: seq<Call>, content: Option<string>) {
    if !io.getFails && s.board.content.Some? && Utf8.Encode(s.board.content.value) == s.guard.secret then
      && Ours(s, s.board.content.value)
      && calls == [GetText(s.board.content), Clear(!io.clearFails)]
      && content == if io.clearFails then s.board.content else None
    else
      calls == [GetText(if io.getFails then None else s.board.content)] && content == s.board.content
  }

  /** What one step does to the clipboard, and when the next attempt is due after it. */
  ghost predicate ExactStep(s: ClipState, op: ClipOp) {
    var calls, s' := NewCalls(s, op), ClipStep(s, op);
    s.board.calls <= s'.board.calls &&
    match op
    case CopyOp(value, setFails, now, _) =>
      && calls == [SetText(value, !setFails)]
      && s'.board.content == (if setFails then s.board.content else Some(value))
      && s'.guard.deadline == if setFails then s.guard.deadline else Some(now + 20_000_000_000)
    case PollOp(now, io) =>
      if s.guard.deadline.Some? && s.guard.deadline.value <= now
      then Attempt(s, io, calls, s'.board.content) && s'.guard.deadline == None
      else calls == [] && s'.board.content == s.board.content && s'.guard == s.guard
    case CancelOp(_) => calls == [] && s'.board.content == s.board.content && s'.guard.deadline == None
    case DropOp(io) =>
      && (if s.guard.deadline.Some? then Attempt(s, io, calls, s'.board.content)
          else calls == [] && s'.board.content == s.board.content)
      && s'.guard.deadline == None
    case ForeignOp(content) => calls == [] && s'.board.content == content && s'.guard == s.guard
  }

  /** The text is what the guard retains, and the value it copied last if that copy succeeded. */
  ghost predicate Ours(s: ClipState, text: string) {
    && s.guard.deadline.Some?
    && Utf8.Encode(text) == s.guard.secret
    && s.latest.Some?
    && (s.latest.value.1 ==> text == s.latest.value.0)
  }

  lemma EncodeInjective(s: string, t: string)
    requires Utf8.Encode(s) == Utf8.Encode(t)
    ensures s == t
  {
    Utf8.DecodeOfEncode(s);
    Utf8.DecodeOfEncode(t);
  }

  lemma AttemptIs(s: ClipState, io: ClearIo)
    requires SecretOk(s) && s.guard.deadline.Some?
    ensures var b := ClearTried(s.guard, s.board, io).1;
            |b.calls| >= |s.board.calls| && Attempt(s, io, b.calls[|s.board.calls|..], b.content)
  {
    if s.board.content.Some? && Utf8.Encode(s.board.content.value) == s.guard.secret && s.latest.value.1 {
      EncodeInjective(s.board.content.value, s.latest.value.0);
    }
  }

  lemma StepIsExact(s: ClipState, op: ClipOp)
    requires SecretOk(s)
    ensures ExactStep(s, op)
  {
    if (op.PollOp? || op.DropOp?) && s.guard.deadline.Some? {
      AttemptIs(s, op.io);
    }
  }

  /**
    * In every run with other programs writing at will, the clipboard is read exactly when a
    * pending clear comes due or the guard is dropped, and cleared exactly if the text read equals
    * the retained secret; only a copy sets text, and cancelling touches nothing.
    */
  lemma EveryClearIsOurs(content: Option<string>, before: seq<ClipOp>, op: ClipOp)
    ensures SecretOk(ClipRun(ClipStart(content), before))
    ensures ExactStep(ClipRun(ClipStart(content), before), op)
  {
    SecretIsKnown(ClipStart(content), before);
    StepIsExact(ClipRun(ClipStart(content), before), op);
  }
}
