/** The two timers over runs of the application: clearing the clipboard and locking the idle vault. */
module TimedRuns {
  import opened Basics
  import opened Crypto
  import opened Vault
  import opened Storage
  import opened Clipboard
  import opened AutoLock
  import opened AppModel
  import opened Runs
  import opened RunTheorems
  import opened Calls
  import Utf8

  // ---- Clearing the clipboard ----

  /** The copy reaches the clipboard and is refused there. */
  predicate Refused(p: Primitives, path: Name, s: Sys, op: Op) {
    op.CopyField? && Do(p, path, s, op).1 == Done(Err(Error.Clipboard))
  }

  /** No copy succeeds, the program keeps running, and ticks come before `deadline`. */
  predicate Waiting(p: Primitives, path: Name, w: World, ops: seq<Op>, deadline: Option<nat>)
    decreases |ops|
  {
    ops != [] ==>
      && !ops[0].Restart?
      && (ops[0].CopyField? ==> Do(p, path, w.sys, ops[0]).1.Failed())
      && (ops[0].Tick? && deadline.Some? ==> ops[0].clock.poll < deadline.value)
      && Waiting(p, path, Step(p, path, w, ops[0]), ops[1..], deadline)
  }

  /** The clipboard calls of refused copies. */
  function RefusedCalls(p: Primitives, path: Name, w: World, ops: seq<Op>): (calls: seq<Call>)
    ensures forall i :: 0 <= i < |calls| ==> calls[i].SetText? && !calls[i].ok
    decreases |ops|
  {
    if ops == [] then []
    else RefusedCall(p, path, w.sys, ops[0]) + RefusedCalls(p, path, Step(p, path, w, ops[0]), ops[1..])
  }

  function RefusedCall(p: Primitives, path: Name, s: Sys, op: Op): seq<Call> {
    if Refused(p, path, s, op) && s.mode.Unlocked? && op.id in Ids(s.mode.vault.entries) then
      [SetText(CopiedValue(s, op), false)]
    else []
  }

  /** The field of the first entry with the id. */
  function CopiedValue(s: Sys, op: Op): string
    requires op.CopyField? && s.mode.Unlocked? && op.id in Ids(s.mode.vault.entries)
  {
    var es := s.mode.vault.entries;
    FieldOf(es[IndexOf(Ids(es), op.id)], op.field)
  }

  /** What refused copies leave of a retained secret. */
  function SecretAfter(p: Primitives, path: Name, w: World, ops: seq<Op>, secret: Bytes): Bytes
    decreases |ops|
  {
    if ops == [] then secret
    else
      SecretAfter(p, path, Step(p, path, w, ops[0]), ops[1..],
               if Refused(p, path, w.sys, ops[0]) then Wiped(secret, ops[0].keep) else secret)
  }

  lemma CreationLeavesTheClipboard(p: Primitives, path: Name, w: World, op: Op)
    requires op.CreateVault?
    ensures var w' := Step(p, path, w, op);
            w'.sys.guard == w.sys.guard && w'.sys.board == w.sys.board
  {
  }

  lemma SaveLeavesTheClipboard(p: Primitives, path: Name, s: Sys, io: SaveIo)
    ensures var s' := SaveDone(p, path, s, io).0; s'.guard == s.guard && s'.board == s.board
  {
  }

  lemma WritesLeaveTheClipboard(p: Primitives, path: Name, w: World, op: Op)
    requires op.MayWrite()
    ensures var w' := Step(p, path, w, op);
            w'.sys.guard == w.sys.guard && w'.sys.board == w.sys.board
  {
    if op.CreateVault? {
      CreationLeavesTheClipboard(p, path, w, op);
    } else if op.SaveVault? {
      SaveLeavesTheClipboard(p, path, w.sys, op.io);
    } else {
      EntryOpLeavesTheClipboard(p, path, w.sys, op);
    }
  }

  lemma EntryOpLeavesTheClipboard(p: Primitives, path: Name, s: Sys, op: Op)
    requires op.IsEntryOp()
    ensures var s' := Do(p, path, s, op).0; s'.guard == s.guard && s'.board == s.board
  {
    EntryOpIs(p, path, s, op);
    if s.mode.Unlocked? {
      SaveLeavesTheClipboard(p, path, WithEntries(s, ListAfter(s.mode.vault.entries, op)), op.io);
    }
  }

  lemma CopyLeaves(p: Primitives, path: Name, w: World, op: Op)
    requires op.CopyField? && Do(p, path, w.sys, op).1.Failed()
    ensures var w' := Step(p, path, w, op);
            && w'.sys.guard == (if Refused(p, path, w.sys, op) then w.sys.guard.(secret := Wiped(w.sys.guard.secret, op.keep)) else w.sys.guard)
            && w'.sys.board == Board(w.sys.board.content, w.sys.board.calls + RefusedCall(p, path, w.sys, op))
  {
    assert w.sys.board.calls + [] == w.sys.board.calls;
  }

  lemma OthersLeave(p: Primitives, path: Name, w: World, op: Op)
    requires !op.Restart? && !op.CopyField? && !op.MayWrite()
    requires op.Tick? && w.sys.guard.deadline.Some? ==> op.clock.poll < w.sys.guard.deadline.value
    ensures var w' := Step(p, path, w, op);
            w'.sys.guard == w.sys.guard && w'.sys.board.calls == w.sys.board.calls
  {
  }

  lemma WaitingStep(p: Primitives, path: Name, w: World, op: Op)
    requires !op.Restart?
    requires op.CopyField? ==> Do(p, path, w.sys, op).1.Failed()
    requires op.Tick? && w.sys.guard.deadline.Some? ==> op.clock.poll < w.sys.guard.deadline.value
    ensures var w' := Step(p, path, w, op);
            && w'.sys.guard == (if Refused(p, path, w.sys, op) then w.sys.guard.(secret := Wiped(w.sys.guard.secret, op.keep)) else w.sys.guard)
            && w'.sys.board.calls == w.sys.board.calls + RefusedCall(p, path, w.sys, op)
  {
    if op.MayWrite() {
      WritesLeaveTheClipboard(p, path, w, op);
    } else if op.CopyField? {
      CopyLeaves(p, path, w, op);
    } else {
      OthersLeave(p, path, w, op);
    }
    assert w.sys.board.calls + [] == w.sys.board.calls;
  }

  /**
    * Until the deadline, and without one, nothing that happens in the application touches the
    * clipboard but copies that are refused; they wipe the retained secret and keep the deadline.
    */
  lemma {:induction false} WaitingTouchesNothing(p: Primitives, path: Name, w: World, ops: seq<Op>)
    requires Waiting(p, path, w, ops, w.sys.guard.deadline)
    ensures var w' := Run(p, path, w, ops);
            && w'.sys.guard == w.sys.guard.(secret := SecretAfter(p, path, w, ops, w.sys.guard.secret))
            && w'.sys.board.calls == w.sys.board.calls + RefusedCalls(p, path, w, ops)
    decreases |ops|
  {
    if ops != [] {
      WaitingStep(p, path, w, ops[0]);
      WaitingTouchesNothing(p, path, Step(p, path, w, ops[0]), ops[1..]);
      Regroup(w.sys.board.calls, RefusedCall(p, path, w.sys, ops[0]), RefusedCalls(p, path, Step(p, path, w, ops[0]), ops[1..]));
    }
  }

  lemma Regroup(a: seq<Call>, b: seq<Call>, c: seq<Call>)
    ensures a + (b + c) == a + b + c
  {}

  /** No copy is refused. */
  predicate NoneRefused(p: Primitives, path: Name, w: World, ops: seq<Op>)
    decreases |ops|
  {
    ops != [] ==> !Refused(p, path, w.sys, ops[0]) && NoneRefused(p, path, Step(p, path, w, ops[0]), ops[1..])
  }

  /** Every wiping by a refused copy only zeroes the bytes. */
  predicate WipesKeep(p: Primitives, path: Name, w: World, ops: seq<Op>)
    decreases |ops|
  {
    ops != [] ==> (Refused(p, path, w.sys, ops[0]) ==> ops[0].keep) && WipesKeep(p, path, Step(p, path, w, ops[0]), ops[1..])
  }

  lemma WipedIs(secret: Bytes, keep: bool)
    ensures Wiped(secret, keep) == secret <==> secret == [] || (AllZero(secret) && keep)
    ensures AllZero(Wiped(secret, keep)) && |Wiped(secret, keep)| == if keep then |secret| else 0
  {
    if AllZero(secret) && keep {
      assert Wiped(secret, keep) == secret;
    }
  }

  lemma {:induction false} SecretAfterLength(p: Primitives, path: Name, w: World, ops: seq<Op>, secret: Bytes)
    ensures |SecretAfter(p, path, w, ops, secret)| == (if WipesKeep(p, path, w, ops) then |secret| else 0)
    ensures AllZero(secret) || !NoneRefused(p, path, w, ops) ==> AllZero(SecretAfter(p, path, w, ops, secret))
    ensures NoneRefused(p, path, w, ops) ==> SecretAfter(p, path, w, ops, secret) == secret && WipesKeep(p, path, w, ops)
    decreases |ops|
  {
    if ops != [] {
      var next := if Refused(p, path, w.sys, ops[0]) then Wiped(secret, ops[0].keep) else secret;
      if Refused(p, path, w.sys, ops[0]) {
        WipedIs(secret, ops[0].keep);
      }
      SecretAfterLength(p, path, Step(p, path, w, ops[0]), ops[1..], next);
    }
  }

  lemma SameZeros(a: Bytes, b: Bytes)
    requires AllZero(a) && AllZero(b) && |a| == |b|
    ensures a == b
  {
  }

  /** The secret is retained exactly if no copy is refused, or if wiping leaves it as it is. */
  lemma SecretIsKeptExactlyWhen(p: Primitives, path: Name, w: World, ops: seq<Op>, secret: Bytes)
    ensures SecretAfter(p, path, w, ops, secret) == secret <==>
              NoneRefused(p, path, w, ops) || secret == [] || (AllZero(secret) && WipesKeep(p, path, w, ops))
  {
    SecretAfterLength(p, path, w, ops, secret);
    if AllZero(secret) && WipesKeep(p, path, w, ops) {
      SameZeros(SecretAfter(p, path, w, ops, secret), secret);
    }
  }

  /** The calls of a clearing attempt for a retained secret. */
  function ClearingCalls(content: Option<string>, secret: Bytes, io: ClearIo): seq<Call> {
    var text := if io.getFails then None else content;
    if text.Some? && Utf8.Encode(text.value) == secret then [GetText(text), Clear(!io.clearFails)] else [GetText(text)]
  }

  /** The clipboard after a clearing attempt. */
  function AfterClearing(b: Board, secret: Bytes, io: ClearIo): Board {
    var calls := ClearingCalls(b.content, secret, io);
    Board(if calls[|calls| - 1] == Clear(true) then None else b.content, b.calls + calls)
  }

  lemma DueTick(p: Primitives, path: Name, w: World, due: Op)
    requires due.Tick? && w.sys.guard.deadline.Some? && due.clock.poll >= w.sys.guard.deadline.value
    ensures var w' := Step(p, path, w, due);
            && w'.sys.board == AfterClearing(w.sys.board, w.sys.guard.secret, due.clearIo)
            && w'.sys.guard.deadline == None
            && AllZero(w'.sys.guard.secret)
  {
    DuePoll(w.sys.guard, w.sys.board, due.clock.poll, due.clearIo);
    TickPolls(w.sys, due.events, due.clock, due.clearIo);
  }

  lemma DuePoll(g: Guard, b: Board, now: nat, io: ClearIo)
    requires g.deadline.Some? && now >= g.deadline.value
    ensures var (g', b') := Polled(g, b, now, io);
            b' == AfterClearing(b, g.secret, io) && g'.deadline == None && AllZero(g'.secret)
  {
  }

  lemma TickPolls(s: Sys, events: seq<Event>, clock: Clock, io: ClearIo)
    ensures var s' := TickDone(s, events, clock, io); (s'.guard, s'.board) == Polled(s.guard, s.board, clock.poll, io)
  {
  }

  lemma CopyStarts(p: Primitives, path: Name, w: World, op: Op)
    requires op.CopyField? && Do(p, path, w.sys, op).1 == Done(Ok(Unit))
    ensures w.sys.mode.Unlocked? && op.id in Ids(w.sys.mode.vault.entries)
    ensures var value, w' := CopiedValue(w.sys, op), Step(p, path, w, op);
            && w'.sys.guard.secret == Utf8.Encode(value)
            && w'.sys.guard.deadline == Some(op.now + w.sys.guard.clearAfter)
            && w'.sys.board == Board(Some(value), w.sys.board.calls + [SetText(value, true)])
  {
  }

  /** A successful copy, calls before its deadline, a tick at or after the deadline, and calls after that, with no further successful copy. */
  predicate CopyCycle(p: Primitives, path: Name, w: World, copy: Op, meanwhile: seq<Op>, due: Op, later: seq<Op>) {
    && copy.CopyField? && Do(p, path, w.sys, copy).1 == Done(Ok(Unit))
    && var w1 := Step(p, path, w, copy);
       var w2 := Run(p, path, w1, meanwhile);
       var deadline := copy.now + w.sys.guard.clearAfter;
       && Waiting(p, path, w1, meanwhile, Some(deadline))
       && due.Tick? && due.clock.poll >= deadline
       && Waiting(p, path, Step(p, path, w2, due), later, None)
  }

  /**
    * After a successful copy, whatever is locked, unlocked, saved or refused meanwhile and
    * whatever other programs put on the clipboard: until the deadline the clipboard is only
    * touched by refused copies; the first tick at or after the deadline reads it and clears it
    * exactly when the text there is what is retained; nothing is cleared later.
    */
  lemma ClipboardSchedule(p: Primitives, path: Name, w: World, copy: Op, meanwhile: seq<Op>, due: Op, later: seq<Op>)
    requires CopyCycle(p, path, w, copy, meanwhile, due, later)
    ensures w.sys.mode.Unlocked? && copy.id in Ids(w.sys.mode.vault.entries)
    ensures var value, w1 := CopiedValue(w.sys, copy), Step(p, path, w, copy);
            var w2 := Run(p, path, w1, meanwhile);
            var w3 := Step(p, path, w2, due);
            && w1.sys.board == Board(Some(value), w.sys.board.calls + [SetText(value, true)])
            && w2.sys.board.calls == w1.sys.board.calls + RefusedCalls(p, path, w1, meanwhile)
            && w3.sys.board.calls == w2.sys.board.calls
                 + ClearingCalls(w2.sys.board.content, SecretAfter(p, path, w1, meanwhile, Utf8.Encode(value)), due.clearIo)
            && w3.sys.guard.deadline == None && AllZero(w3.sys.guard.secret)
            && Run(p, path, w3, later).sys.board.calls == w3.sys.board.calls + RefusedCalls(p, path, w3, later)
  {
    var w1 := Step(p, path, w, copy);
    CopyStarts(p, path, w, copy);
    WaitingTouchesNothing(p, path, w1, meanwhile);
    var w2 := Run(p, path, w1, meanwhile);
    DueTick(p, path, w2, due);
    WaitingTouchesNothing(p, path, Step(p, path, w2, due), later);
  }

  /** The value survives the wiping of its own retained form. */
  ghost predicate Unwipeable(p: Primitives, path: Name, w: World, ops: seq<Op>, value: string) {
    value == "" || (AllZero(Utf8.Encode(value)) && WipesKeep(p, path, w, ops))
  }

  lemma EncodeIsEmpty(value: string)
    ensures Utf8.Encode(value) == [] <==> value == ""
  {
    Utf8.DecodeOfEncode(value);
  }

  /**
    * A copied value that is still there and readable at the first due tick is cleared exactly if
    * no copy was refused in between, or wiping the value leaves it as it is. Otherwise it stays,
    * and nothing clears it later.
    */
  lemma CopiedValueIsClearedExactlyWhen(p: Primitives, path: Name, w: World, copy: Op, meanwhile: seq<Op>, due: Op, later: seq<Op>)
    requires CopyCycle(p, path, w, copy, meanwhile, due, later) && !due.clearIo.getFails
    requires w.sys.mode.Unlocked? && copy.id in Ids(w.sys.mode.vault.entries)
    requires Run(p, path, Step(p, path, w, copy), meanwhile).sys.board.content == Some(CopiedValue(w.sys, copy))
    ensures var value, w1 := CopiedValue(w.sys, copy), Step(p, path, w, copy);
            var w2 := Run(p, path, w1, meanwhile);
            var w3 := Step(p, path, w2, due);
            if NoneRefused(p, path, w1, meanwhile) || Unwipeable(p, path, w1, meanwhile, value)
            then w3.sys.board.calls == w2.sys.board.calls + [GetText(Some(value)), Clear(!due.clearIo.clearFails)]
            else w3.sys.board.calls == w2.sys.board.calls + [GetText(Some(value))]
                 && w3.sys.board.content == Some(value) && w3.sys.guard.deadline == None
                 && Run(p, path, w3, later).sys.board.calls == w3.sys.board.calls + RefusedCalls(p, path, w3, later)
  {
    var value, w1 := CopiedValue(w.sys, copy), Step(p, path, w, copy);
    ClipboardSchedule(p, path, w, copy, meanwhile, due, later);
    SecretIsKeptExactlyWhen(p, path, w1, meanwhile, Utf8.Encode(value));
    EncodeIsEmpty(value);
    CopyStarts(p, path, w, copy);
    WaitingTouchesNothing(p, path, w1, meanwhile);
    DueTick(p, path, Run(p, path, w1, meanwhile), due);
  }

  /** The value of a copy is the chosen field of the first entry with the id. */
  lemma CopiedValueIs(s: Sys, op: Op, i: nat)
    requires op.CopyField? && s.mode.Unlocked? && i < |s.mode.vault.entries| && s.mode.vault.entries[i].id == op.id
    requires forall j :: 0 <= j < i ==> s.mode.vault.entries[j].id != op.id
    ensures op.id in Ids(s.mode.vault.entries)
    ensures CopiedValue(s, op) == match op.field
                                  case PasswordField => s.mode.vault.entries[i].password
                                  case UsernameField => s.mode.vault.entries[i].username
  {
    assert Ids(s.mode.vault.entries)[i] == op.id && IndexOf(Ids(s.mode.vault.entries), op.id) == i;
  }

  lemma RestartIs(p: Primitives, path: Name, w: World, exit: Op)
    requires exit.Restart? && w.sys.guard.deadline.Some?
    ensures ClearAttempt(w.sys.guard, w.sys.board, exit.clearIo, Step(p, path, w, exit).sys.board)
  {
    RestartDoes(path, w.sys, exit.clearIo, exit.lookFails, exit.now);
  }

  /**
    * A program that ends before the deadline of a copy clears the copied value, if it is still
    * there and can be read, exactly if no copy was refused in between, or wiping the value leaves
    * it as it is. Otherwise it stays.
    */
  lemma ExitClearsExactlyWhen(p: Primitives, path: Name, w: World, copy: Op, meanwhile: seq<Op>, exit: Op)
    requires copy.CopyField? && Do(p, path, w.sys, copy).1 == Done(Ok(Unit))
    requires Waiting(p, path, Step(p, path, w, copy), meanwhile, Some(copy.now + w.sys.guard.clearAfter))
    requires exit.Restart? && !exit.clearIo.getFails
    requires w.sys.mode.Unlocked? && copy.id in Ids(w.sys.mode.vault.entries)
    requires Run(p, path, Step(p, path, w, copy), meanwhile).sys.board.content == Some(CopiedValue(w.sys, copy))
    ensures var value, w1 := CopiedValue(w.sys, copy), Step(p, path, w, copy);
            var w2 := Run(p, path, w1, meanwhile);
            var b := Step(p, path, w2, exit).sys.board;
            if NoneRefused(p, path, w1, meanwhile) || Unwipeable(p, path, w1, meanwhile, value)
            then b.calls == w2.sys.board.calls + [GetText(Some(value)), Clear(!exit.clearIo.clearFails)]
                 && b.content == if exit.clearIo.clearFails then Some(value) else None
            else b.calls == w2.sys.board.calls + [GetText(Some(value))] && b.content == Some(value)
  {
    var value, w1 := CopiedValue(w.sys, copy), Step(p, path, w, copy);
    CopyStarts(p, path, w, copy);
    WaitingTouchesNothing(p, path, w1, meanwhile);
    SecretIsKeptExactlyWhen(p, path, w1, meanwhile, Utf8.Encode(value));
    EncodeIsEmpty(value);
    RestartIs(p, path, Run(p, path, w1, meanwhile), exit);
  }

  // ---- Locking the idle vault ----

  /** The user did something in this frame. */
  predicate Touched(events: seq<Event>) {
    || Key(true) in events || Text in events || Paste in events || Copy in events || Cut in events
    || PointerMoved in events || PointerButton(true) in events || MouseWheel in events
  }

  lemma TouchedIsActivity(events: seq<Event>)
    ensures Touched(events) <==> UserActivityIn(events)
  {
    if e :| e in events && IsUserActivity(e) {
      assert e in [Key(true), Text, Paste, Copy, Cut, PointerMoved, PointerButton(true), MouseWheel];
    }
  }

  /** The vault comes open. */
  predicate Opens(s: Sys, op: Op, a: Answer) {
    (op.CreateVault? || (op.OpenVault? && s.mode.Locked?)) && a == Done(Ok(Unit))
  }

  /** The time of the latest creation, unlocking or user activity, `last` if the call was none of these. */
  function LastActive(p: Primitives, path: Name, s: Sys, op: Op, last: nat): nat {
    if Opens(s, op, Do(p, path, s, op).1) then op.now
    else if op.Tick? && s.mode.Unlocked? && Touched(op.events) then op.clock.activity
    else last
  }

  function LastActiveIn(p: Primitives, path: Name, w: World, ops: seq<Op>, last: nat): nat
    decreases |ops|
  {
    if ops == [] then last
    else LastActiveIn(p, path, Step(p, path, w, ops[0]), ops[1..], LastActive(p, path, w.sys, ops[0], last))
  }

  /** The clock does not run backwards: `t` is its latest reading so far. */
  predicate NotBefore(op: Op, t: nat) {
    match op
    case Tick(_, clock, _) => t <= clock.poll && clock.Ordered()
    case CreateVault(_, _, _, _, _, now) => t <= now
    case OpenVault(_, _, now) => t <= now
    case CloseVault(now) => t <= now
    case CopyField(_, _, _, now, _) => t <= now
    case Restart(_, _, now) => t <= now
    case _ => true
  }

  function Reading(op: Op, t: nat): nat {
    match op
    case Tick(_, clock, _) => clock.lock
    case CreateVault(_, _, _, _, _, now) => now
    case OpenVault(_, _, now) => now
    case CloseVault(now) => now
    case CopyField(_, _, _, now, _) => now
    case Restart(_, _, now) => now
    case _ => t
  }

  predicate InOrder(ops: seq<Op>, t: nat)
    decreases |ops|
  {
    ops != [] ==> NotBefore(ops[0], t) && InOrder(ops[1..], Reading(ops[0], t))
  }

  function ReadingAfter(ops: seq<Op>, t: nat): nat
    decreases |ops|
  {
    if ops == [] then t else ReadingAfter(ops[1..], Reading(ops[0], t))
  }

  /** While the vault is open its timer shows the last activity. */
  predicate TimerOk(s: Sys, last: nat, t: nat) {
    && s.timer.timeout == DEFAULT_TIMEOUT
    && last <= t
    && (s.mode.Unlocked? ==> s.timer.lastActivity == last)
  }

  lemma TimerStep(p: Primitives, path: Name, w: World, op: Op, last: nat, t: nat)
    requires TimerOk(w.sys, last, t) && NotBefore(op, t)
    ensures TimerOk(Step(p, path, w, op).sys, LastActive(p, path, w.sys, op, last), Reading(op, t))
  {
    if op.Tick? {
      TouchedIsActivity(op.events);
    }
  }

  lemma {:induction false} TimerRun(p: Primitives, path: Name, w: World, ops: seq<Op>, last: nat, t: nat)
    requires TimerOk(w.sys, last, t) && InOrder(ops, t)
    ensures TimerOk(Run(p, path, w, ops).sys, LastActiveIn(p, path, w, ops, last), ReadingAfter(ops, t))
    decreases |ops|
  {
    if ops != [] {
      TimerStep(p, path, w, ops[0], last, t);
      TimerRun(p, path, Step(p, path, w, ops[0]), ops[1..], LastActive(p, path, w.sys, ops[0], last), Reading(ops[0], t));
    }
  }

  lemma TickLocks(p: Primitives, path: Name, w: World, tick: Op, last: nat, t: nat)
    requires TimerOk(w.sys, last, t) && tick.Tick? && NotBefore(tick, t)
    ensures var active := LastActive(p, path, w.sys, tick, last);
            var mode := Step(p, path, w, tick).sys.mode;
            if w.sys.mode.Unlocked?
            then active <= tick.clock.check
                 && mode == if tick.clock.check - active < DEFAULT_TIMEOUT then w.sys.mode else Locked
            else mode == w.sys.mode
  {
    TouchedIsActivity(tick.events);
  }

  lemma {:induction false} InOrderConcat(before: seq<Op>, after: seq<Op>, t: nat)
    ensures InOrder(before + after, t) <==> InOrder(before, t) && InOrder(after, ReadingAfter(before, t))
    decreases |before|
  {
    if before == [] {
      assert before + after == after;
    } else {
      assert (before + after)[1..] == before[1..] + after;
      InOrderConcat(before[1..], after, Reading(before[0], t));
    }
  }

  /**
    * In every run on a clock that does not go back: a tick leaves the vault open exactly when
    * the last creation, unlocking or user activity is less than the timeout before the tick's
    * last reading of the clock.
    */
  lemma TicksLockExactlyIdleVaults(p: Primitives, path: Name, w: World, ops: seq<Op>, tick: Op, t: nat)
    requires !w.sys.mode.Unlocked? && w.sys.timer.timeout == DEFAULT_TIMEOUT
    requires tick.Tick? && InOrder(ops + [tick], t)
    ensures var w1 := Run(p, path, w, ops);
            var active := LastActive(p, path, w1.sys, tick, LastActiveIn(p, path, w, ops, 0));
            var mode := Step(p, path, w1, tick).sys.mode;
            if w1.sys.mode.Unlocked?
            then active <= tick.clock.check
                 && mode == if tick.clock.check - active < DEFAULT_TIMEOUT then w1.sys.mode else Locked
            else mode == w1.sys.mode
  {
    InOrderConcat(ops, [tick], t);
    TimerRun(p, path, w, ops, 0, t);
    TickLocks(p, path, Run(p, path, w, ops), tick, LastActiveIn(p, path, w, ops, 0), ReadingAfter(ops, t));
  }

  // ---- Idle stretches ----

  /** Nobody opens the vault and no tick sees user activity. */
  predicate Idle(p: Primitives, path: Name, w: World, ops: seq<Op>)
    decreases |ops|
  {
    ops != [] ==>
      && !Opens(w.sys, ops[0], Do(p, path, w.sys, ops[0]).1)
      && (ops[0].Tick? ==> !Touched(ops[0].events))
      && Idle(p, path, Step(p, path, w, ops[0]), ops[1..])
  }

  lemma ClosedStep(p: Primitives, path: Name, w: World, op: Op)
    requires !w.sys.mode.Unlocked? && !Opens(w.sys, op, Do(p, path, w.sys, op).1)
    ensures !Step(p, path, w, op).sys.mode.Unlocked?
  {
  }

  lemma {:induction false} ClosedStaysClosed(p: Primitives, path: Name, w: World, ops: seq<Op>)
    requires !w.sys.mode.Unlocked? && Idle(p, path, w, ops)
    ensures !Run(p, path, w, ops).sys.mode.Unlocked?
    decreases |ops|
  {
    if ops != [] {
      ClosedStep(p, path, w, ops[0]);
      ClosedStaysClosed(p, path, Step(p, path, w, ops[0]), ops[1..]);
    }
  }

  /** An idle stretch with a tick at least the timeout after the last activity ends with a closed vault. */
  lemma {:induction false} IdleVaultIsClosed(p: Primitives, path: Name, w: World, ops: seq<Op>, i: nat, last: nat, t: nat)
    requires TimerOk(w.sys, last, t) && InOrder(ops, t) && Idle(p, path, w, ops)
    requires i < |ops| && ops[i].Tick? && ops[i].clock.check >= last + DEFAULT_TIMEOUT
    ensures !Run(p, path, w, ops).sys.mode.Unlocked?
    decreases |ops|
  {
    var w1 := Step(p, path, w, ops[0]);
    if i == 0 {
      TickLocks(p, path, w, ops[0], last, t);
      ClosedStaysClosed(p, path, w1, ops[1..]);
    } else {
      TimerStep(p, path, w, ops[0], last, t);
      IdleVaultIsClosed(p, path, w1, ops[1..], i - 1, last, Reading(ops[0], t));
    }
  }
}
