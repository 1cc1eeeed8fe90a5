/** The inactivity timer. Instants and durations are counted in nanoseconds of one monotonic clock. */
module AutoLock {
  const NANOS_PER_SECOND := 1_000_000_000
  const DEFAULT_TIMEOUT := 3 * 60 * NANOS_PER_SECOND

  function SaturatingSub(a: nat, b: nat): nat {
    if a < b then 0 else a - b
  }

  datatype Timer = Timer(timeout: nat, lastActivity: nat) {
    predicate ShouldLockAt(now: nat) {
      SaturatingSub(now, lastActivity) >= timeout
    }

    function RemainingAt(now: nat): nat {
      SaturatingSub(timeout, SaturatingSub(now, lastActivity))
    }
  }

  /** No time remains exactly when the vault should lock, and what remains is when it will. */
  lemma RemainingIsTimeToLock(t: Timer, now: nat)
    ensures t.RemainingAt(now) == 0 <==> t.ShouldLockAt(now)
    ensures now >= t.lastActivity ==>
              forall later :: later >= now ==> (t.ShouldLockAt(later) <==> later >= now + t.RemainingAt(now))
  {
  }

  datatype Event =
    | Key(pressed: bool)
    | Text
    | Paste
    | Copy
    | Cut
    | PointerMoved
    | PointerButton(pressed: bool)
    | MouseWheel
    | OtherEvent

  predicate IsUserActivity(e: Event) {
    match e
    case Key(pressed) => pressed
    case PointerButton(pressed) => pressed
    case OtherEvent => false
    case _ => true
  }

  predicate UserActivityIn(events: seq<Event>) {
    exists e :: e in events && IsUserActivity(e)
  }

  class AutoLock {
    var timeout: nat
    var lastActivity: nat

    constructor (timeout: nat, now: nat)
      ensures State() == Timer(timeout, now)
    {
      this.timeout, this.lastActivity := timeout, now;
    }

    function State(): Timer
      reads this
    {
      Timer(timeout, lastActivity)
    }

    method NoteActivityAt(now: nat)
      modifies this
      ensures State() == old(State()).(lastActivity := now)
    {
      lastActivity := now;
    }
  }
}
