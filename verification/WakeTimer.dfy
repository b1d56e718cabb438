/**
 * The serving process's wake timer. Its atomic steps are the code between two awaits; what comes between them (a write's
 * delay, the clock, the job runner's answer, when the timer fires) is the environment's.
 */
module WakeTimer {
  import opened Wrappers

  const WAKE_RETRY_MS := 1000

  /** The request budget of 10 s and five more. */
  const WAKE_SETTLE_MS := 15000

  datatype UnseenWake = UnseenWake(at: int, until: int, retry: int)

  /**
   * The refresh under way: awaiting `jobs.wake` with the unseen wake it took, or returned with its `finally` still to run.
   */
  datatype Phase = Idle | Waking(taken: Option<UnseenWake>) | Settling

  /** The fields of the timer; `at` is `None` for `Infinity`, and `armed` says whether a timeout is pending. */
  datatype Timer = Timer(
    attached: bool,
    armed: bool,
    at: Option<int>,
    stopped: bool,
    phase: Phase,
    again: bool,
    unseen: Option<UnseenWake>)

  /** What the environment does next; each `now` is one reading of the clock. */
  datatype Event =
    | Attach
    | Project(delay: Option<int>, now: int, lowerNow: int)
    | Refresh
    | Fire
    | Kick
    | Woken(answer: Option<int>, now: int, keepNow: int, lowerNow: int)
    | Settle(now: int, lowerNow: int)
    | Stop
    | StopResolved

  const INITIAL := Timer(false, false, None, false, Idle, false, None)

  function MinOf(x: int, y: Option<int>): int {
    if y.Some? && y.value < x then y.value else x
  }

  // ----- the steps, by value

  /** When the timer goes off for a wake due at `next`: then, or one retry from now when that has passed. */
  function Due(next: int, now: int): int {
    if next <= now then now + WAKE_RETRY_MS else next
  }

  /** `#lower(next)`. */
  function Lower(t: Timer, next: int, now: int): Timer {
    var at := Due(next, now);
    if t.stopped || (t.at.Some? && at >= t.at.value) then t else t.(at := Some(at), armed := true)
  }

  /** `refresh()`: a refresh asked for meanwhile only looks again later. */
  function RefreshStep(t: Timer): Timer {
    if t.stopped then t
    else if t.phase != Idle then t.(again := true)
    else if !t.attached then t.(phase := Settling)
    else t.(phase := Waking(t.unseen), unseen := None, armed := false, at := None)
  }

  /** The refresh ends without the wake it took, and there is still time to look for it. */
  predicate StillUnseen(taken: Option<UnseenWake>, delay: Option<int>, now: int) {
    && taken.Some? && now < taken.value.until
    && (delay == None || now + delay.value > taken.value.at + WAKE_RETRY_MS)
  }

  function KeepUnseen(t: Timer, taken: UnseenWake): Timer {
    t.(unseen := Some(UnseenWake(
      MinOf(taken.at, if t.unseen.Some? then Some(t.unseen.value.at) else None),
      if t.unseen.Some? && t.unseen.value.until > taken.until then t.unseen.value.until else taken.until,
      taken.retry * 2)))
  }

  function Step(t: Timer, e: Event): Timer {
    match e
    case Attach => t.(attached := true)
    case Project(delay, now, lowerNow) =>
      if !t.attached || delay == None || t.stopped then t
      else
        var due := now + delay.value;
        Lower(t.(unseen := Some(UnseenWake(MinOf(due, if t.unseen.Some? then Some(t.unseen.value.at) else None), now + WAKE_SETTLE_MS, WAKE_RETRY_MS))),
              due, lowerNow)
    case Refresh => RefreshStep(t)
    case Fire => RefreshStep(t.(armed := false))
    case Kick => t
    case Woken(answer, now, keepNow, lowerNow) =>
      if !t.phase.Waking? then t
      else
        var kept := if StillUnseen(t.phase.taken, answer, now)
                    then Lower(KeepUnseen(t, t.phase.taken.value), now + t.phase.taken.value.retry, keepNow) else t;
        (if answer.Some? then Lower(kept, now + answer.value, lowerNow) else kept).(phase := Settling)
    case Settle(now, lowerNow) =>
      if t.phase != Settling then t
      else if t.again then Lower(t.(phase := Idle, again := false), now, lowerNow)
      else t.(phase := Idle)
    case Stop => t.(stopped := true, armed := false)
    case StopResolved => t
  }

  /** What can happen in a state: the timer fires while armed, a refresh moves on, `stop()` resolves once none is under way. */
  predicate Enabled(t: Timer, e: Event) {
    match e
    case Fire => t.armed
    case Kick => t.phase.Waking?
    case Woken(_, _, _, _) => t.phase.Waking?
    case Settle(_, _) => t.phase == Settling
    case StopResolved => t.stopped && t.phase == Idle
    case _ => true
  }

  /** The step starts a refresh. */
  predicate Starts(t: Timer, e: Event) {
    (e.Refresh? || e.Fire?) && !t.stopped && t.phase == Idle
  }

  // ----- the class

  class WakeTimer {
    var attached: bool
    var armed: bool
    var at: Option<int>
    var stopped: bool
    var phase: Phase
    var again: bool
    var unseen: Option<UnseenWake>

    constructor ()
      ensures State() == INITIAL
    {
      attached, armed, at, stopped, phase, again, unseen := false, false, None, false, Idle, false, None;
    }

    function State(): Timer
      reads this
    {
      Timer(attached, armed, at, stopped, phase, again, unseen)
    }

    method AttachJobs()
      modifies this
      ensures State() == Step(old(State()), Attach)
    {
      attached := true;
    }

    /** `#lower`. */
    method LowerTo(next: int, now: int)
      modifies this
      ensures State() == Lower(old(State()), next, now)
    {
      var due := if next <= now then now + WAKE_RETRY_MS else next;
      if stopped || (at.Some? && due >= at.value) {
        return;
      }
      at := Some(due);
      armed := true;
    }

    /** The rest of `project`, once the scheduler answered. */
    method ProjectWake(delay: Option<int>, now: int, lowerNow: int)
      modifies this
      ensures State() == Step(old(State()), Project(delay, now, lowerNow))
      ensures Watches(old(State())) ==> Watches(State())
      ensures old(attached) && !old(stopped) && delay.Some? ==>
                unseen.Some? && unseen.value.at <= now + delay.value && (old(unseen).Some? ==> unseen.value.at <= old(unseen).value.at)
      ensures old(unseen).Some? ==> unseen.Some?
    {
      if !attached || delay == None || stopped {
        return;
      }
      var earliest := if unseen.Some? then MinOf(now + delay.value, Some(unseen.value.at)) else now + delay.value;
      unseen := Some(UnseenWake(earliest, now + WAKE_SETTLE_MS, WAKE_RETRY_MS));
      LowerTo(now + delay.value, lowerNow);
    }

    /** `refresh()` up to its first await. */
    method StartRefresh()
      modifies this
      ensures State() == RefreshStep(old(State()))
      ensures Watches(old(State())) ==> Watches(State())
      ensures phase != old(phase) ==> old(phase) == Idle && !stopped
      ensures Held(State()) >= Held(old(State()))
    {
      if stopped {
        return;
      }
      if phase != Idle {
        again := true;
        return;
      }
      if !attached {
        phase := Settling;
        return;
      }
      armed := false;
      at := None;
      phase := Waking(unseen);
      unseen := None;
    }

    /** The pending timeout runs. */
    method TimerFires()
      modifies this
      ensures State() == Step(old(State()), Fire)
    {
      armed := false;
      StartRefresh();
    }

    /** `#refresh` after `jobs.wake`; a failed read answers a delay of zero. */
    method JobsWoken(answer: Option<int>, now: int, keepNow: int, lowerNow: int)
      requires phase.Waking?
      modifies this
      ensures State() == Step(old(State()), Woken(answer, now, keepNow, lowerNow))
      ensures Watches(old(State())) ==> Watches(State())
      ensures old(unseen).Some? ==> unseen.Some? && unseen.value.at <= old(unseen).value.at
      ensures StillUnseen(old(phase).taken, answer, now) ==>
                && unseen.Some? && unseen.value.at <= old(phase).taken.value.at && unseen.value.until >= old(phase).taken.value.until
                && unseen.value.retry == 2 * old(phase).taken.value.retry
                && (!stopped ==> at.Some? && at.value <= Due(now + old(phase).taken.value.retry, keepNow))
      ensures Watches(old(State())) && !stopped && answer.Some? ==> armed && at.Some? && at.value <= Due(now + answer.value, lowerNow)
    {
      WokenKeeps(State(), answer, now, keepNow, lowerNow);
      hide Watches;
      AfterWake(answer, now, keepNow, lowerNow);
    }

    method AfterWake(answer: Option<int>, now: int, keepNow: int, lowerNow: int)
      requires phase.Waking?
      modifies this
      ensures State() == Step(old(State()), Woken(answer, now, keepNow, lowerNow))
    {
      var taken := phase.taken;
      if taken.Some? && (answer == None || now + answer.value > taken.value.at + WAKE_RETRY_MS) && now < taken.value.until {
        KeepLooking(taken.value);
        LowerTo(now + taken.value.retry, keepNow);
      }
      if answer.Some? {
        LowerTo(now + answer.value, lowerNow);
      }
      phase := Settling;
    }

    /** `#keepUnseen`. */
    method KeepLooking(taken: UnseenWake)
      modifies this
      ensures State() == KeepUnseen(old(State()), taken)
    {
      var later := unseen;
      var earliest := if later.Some? then MinOf(taken.at, Some(later.value.at)) else taken.at;
      var latest := if later.Some? && later.value.until > taken.until then later.value.until else taken.until;
      unseen := Some(UnseenWake(earliest, latest, taken.retry * 2));
    }

    /** The refresh's `finally`. */
    method RefreshEnds(now: int, lowerNow: int)
      requires phase == Settling
      modifies this
      ensures State() == Step(old(State()), Settle(now, lowerNow))
      ensures Watches(old(State())) ==> Watches(State())
      ensures unseen == old(unseen) && !again && (old(again) && !stopped ==> at.Some? && at.value <= Due(now, lowerNow))
    {
      phase := Idle;
      if again {
        again := false;
        LowerTo(now, lowerNow);
      }
    }

    /** `stop()` up to its await. */
    method StopTimer()
      modifies this
      ensures State() == Step(old(State()), Stop)
    {
      stopped := true;
      armed := false;
    }
  }

  /** What the step after the jobs answered keeps. */
  lemma WokenKeeps(t: Timer, answer: Option<int>, now: int, keepNow: int, lowerNow: int)
    requires t.phase.Waking?
    ensures var next := Step(t, Woken(answer, now, keepNow, lowerNow));
            && (Watches(t) ==> Watches(next))
            && (t.unseen.Some? ==> next.unseen.Some? && next.unseen.value.at <= t.unseen.value.at)
            && (StillUnseen(t.phase.taken, answer, now) ==>
                  && next.unseen.Some? && next.unseen.value.at <= t.phase.taken.value.at
                  && next.unseen.value.until >= t.phase.taken.value.until
                  && next.unseen.value.retry == 2 * t.phase.taken.value.retry
                  && (!next.stopped ==> next.at.Some? && next.at.value <= Due(now + t.phase.taken.value.retry, keepNow)))
            && (Watches(t) && !next.stopped && answer.Some? ==>
                  next.armed && next.at.Some? && next.at.value <= Due(now + answer.value, lowerNow))
  {
  }

  // ----- runs

  /** The state after the first `n` events. */
  function After(events: seq<Event>, n: nat): Timer
    requires n <= |events|
  {
    if n == 0 then INITIAL else Step(After(events, n - 1), events[n - 1])
  }

  ghost predicate IsRun(events: seq<Event>) {
    forall n: nat {:trigger Enabled(After(events, n), events[n])} :: n < |events| ==> Enabled(After(events, n), events[n])
  }

  /** Between two starts of a refresh the first one's `finally` ran: at most one refresh is under way. */
  lemma OneRefreshAtATime(events: seq<Event>, i: nat, j: nat)
    requires IsRun(events) && i < j < |events|
    requires Starts(After(events, i), events[i]) && Starts(After(events, j), events[j])
    ensures exists k :: i < k < j && events[k].Settle?
  {
    hide *;
    StartBusies(events, i);
    StartIdle(events, j);
    var k := SettlesBetween(events, i + 1, j);
    assert i < k < j && events[k].Settle?;
  }

  lemma StartBusies(events: seq<Event>, i: nat)
    requires i < |events| && Starts(After(events, i), events[i])
    ensures After(events, i + 1).phase != Idle
  {
  }

  lemma StartIdle(events: seq<Event>, i: nat)
    requires i < |events| && Starts(After(events, i), events[i])
    ensures After(events, i).phase == Idle
  {
  }

  /** Only its `finally` ends a refresh. */
  lemma {:induction false} SettlesBetween(events: seq<Event>, i: nat, j: nat) returns (k: nat)
    requires i <= j <= |events| && After(events, i).phase != Idle && After(events, j).phase == Idle
    ensures i <= k < j && events[k].Settle?
  {
    hide Step;
    k := j - 1;
    if !events[k].Settle? {
      BusyStep(After(events, k), events[k]);
      k := SettlesBetween(events, i, k);
    }
  }

  lemma BusyStep(t: Timer, e: Event)
    requires !e.Settle?
    ensures t.phase != Idle ==> Step(t, e).phase != Idle
  {
  }

  ghost predicate NoLater(a: Option<int>, b: Option<int>) {
    b == None || (a.Some? && a.value <= b.value)
  }

  /** Between refresh starts the armed time never rises, whatever the clock does. */
  lemma {:induction false} ArmedTimeNeverRises(events: seq<Event>, i: nat, j: nat)
    requires i <= j <= |events|
    requires forall k :: i <= k < j ==> !Starts(After(events, k), events[k])
    ensures NoLater(After(events, j).at, After(events, i).at)
  {
    hide Step, Starts;
    if i < j {
      ArmedTimeNeverRises(events, i, j - 1);
      TimeStep(After(events, j - 1), events[j - 1]);
    }
  }

  lemma TimeStep(t: Timer, e: Event)
    requires !Starts(t, e)
    ensures NoLater(Step(t, e).at, t.at)
  {
  }

  /** No kick starts after `stop()` resolved. */
  lemma NoKickAfterStop(events: seq<Event>, i: nat, j: nat)
    requires IsRun(events) && i < j < |events| && events[i].StopResolved?
    ensures !events[j].Kick?
  {
    assert Enabled(After(events, i), events[i]) && Enabled(After(events, j), events[j]);
    StoppedStays(events, i, j);
  }

  lemma {:induction false} StoppedStays(events: seq<Event>, i: nat, j: nat)
    requires i <= j <= |events| && After(events, i).stopped && After(events, i).phase == Idle
    ensures After(events, j).stopped && After(events, j).phase == Idle
  {
    if i < j {
      StoppedStays(events, i, j - 1);
    }
  }

  /** A firing that reaches a refresh: none is under way, and the jobs are attached. */
  predicate FiresWell(t: Timer, e: Event) {
    e.Fire? ==> t.phase == Idle && t.attached
  }

  /** A timeout is pending exactly while a time is set, and is pending while a projected wake is unseen. */
  ghost predicate Watches(t: Timer) {
    && (!t.stopped ==> (t.armed <==> t.at.Some?))
    && (t.unseen.Some? ==> t.attached)
    && (t.phase.Waking? ==> t.attached)
    && (!t.stopped && t.unseen.Some? ==> t.armed)
  }

  lemma WatchStep(t: Timer, e: Event)
    requires Watches(t) && Enabled(t, e) && FiresWell(t, e)
    ensures Watches(Step(t, e))
  {
  }

  lemma WatchesAtFirst()
    ensures Watches(INITIAL)
  {
  }

  /** As long as no timer fires into a running refresh or before the jobs are attached, an unseen wake has a timer armed. */
  lemma {:induction false} UnseenIsWatched(events: seq<Event>, n: nat)
    requires IsRun(events) && n <= |events|
    requires forall k: nat {:trigger FiresWell(After(events, k), events[k])} :: k < n ==> FiresWell(After(events, k), events[k])
    ensures Watches(After(events, n))
  {
    hide Step, Enabled, FiresWell, Watches;
    if n == 0 {
      WatchesAtFirst();
    } else {
      UnseenIsWatched(events, n - 1);
      assert Enabled(After(events, n - 1), events[n - 1]) && FiresWell(After(events, n - 1), events[n - 1]);
      WatchStep(After(events, n - 1), events[n - 1]);
    }
  }

  /** The state a list of events leaves. */
  function Continue(t: Timer, events: seq<Event>): Timer
    decreases |events|
  {
    if events == [] then t else Continue(Step(t, events[0]), events[1..])
  }

  /** The events can follow one another, and no timeout fires among them. */
  ghost predicate Quietly(t: Timer, events: seq<Event>)
    decreases |events|
  {
    events != [] ==> Enabled(t, events[0]) && !events[0].Fire? && Quietly(Step(t, events[0]), events[1..])
  }

  /** An unseen wake that nothing will look for: no refresh is under way and no timeout is pending. */
  predicate Lost(t: Timer) {
    !t.stopped && t.phase == Idle && t.unseen.Some? && !t.armed
  }

  lemma {:induction false} QuietlyWatches(t: Timer, events: seq<Event>)
    requires Watches(t) && Quietly(t, events)
    ensures Watches(Continue(t, events))
    decreases |events|
  {
    if events != [] {
      WatchStep(t, events[0]);
      QuietlyWatches(Step(t, events[0]), events[1..]);
    }
  }

  lemma QuietlyThen(t: Timer, e: Event, rest: seq<Event>)
    requires Enabled(t, e) && !e.Fire? && Quietly(Step(t, e), rest)
    ensures Quietly(t, [e] + rest) && Continue(t, [e] + rest) == Continue(Step(t, e), rest)
  {
    assert ([e] + rest)[1..] == rest;
  }

  /** A time has passed unarmed and no refresh is under way: attaching the jobs and projecting a later wake loses it. */
  lemma StaleLoses(t: Timer, late: int) returns (events: seq<Event>)
    requires !t.stopped && t.phase == Idle && !t.armed && t.at.Some? && t.at.value <= late
    ensures Quietly(t, events) && Lost(Continue(t, events))
  {
    events := [Project(Some(0), late, late)];
    QuietlyThen(Step(t, Attach), events[0], []);
    QuietlyThen(t, Attach, events);
    events := [Attach] + events;
  }

  lemma SettlesStale(t: Timer, late: int) returns (events: seq<Event>)
    requires !t.stopped && t.phase == Settling && !t.armed && t.at.Some? && t.at.value <= late
    ensures Quietly(t, events) && Lost(Continue(t, events))
  {
    events := StaleLoses(Step(t, Settle(late, late)), late);
    QuietlyThen(t, Settle(late, late), events);
    events := [Settle(late, late)] + events;
  }

  /** From a firing that reaches no refresh, the environment can go on so that a wake is lost. */
  lemma BadFiringLoses(t: Timer) returns (events: seq<Event>)
    requires Watches(t) && t.armed && !t.stopped && !FiresWell(t, Fire)
    ensures Quietly(Step(t, Fire), events) && Lost(Continue(Step(t, Fire), events))
  {
    var fired := Step(t, Fire);
    var at := t.at.value;
    if fired.phase.Waking? {
      var until := if fired.phase.taken.Some? then fired.phase.taken.value.until else at;
      var late := if until > at then until else at;
      var woken := Woken(None, late, late, late);
      events := SettlesStale(Step(fired, woken), late);
      hide Continue, Quietly;
      QuietlyThen(fired, woken, events);
      events := [woken] + events;
    } else {
      events := SettlesStale(fired, at);
    }
  }

  /**
   * Exactly the firings that reach no refresh can lose a wake: after one, and no other firing, a run can end with an
   * unseen wake, no timeout pending and no refresh under way; after any other firing none can.
   */
  lemma FiringLosesIff(t: Timer)
    requires Watches(t) && t.armed && !t.stopped
    ensures (exists events :: Quietly(Step(t, Fire), events) && Lost(Continue(Step(t, Fire), events))) <==> !FiresWell(t, Fire)
  {
    if FiresWell(t, Fire) {
      WatchStep(t, Fire);
      forall events | Quietly(Step(t, Fire), events) ensures !Lost(Continue(Step(t, Fire), events)) {
        QuietlyWatches(Step(t, Fire), events);
      }
    } else {
      var events := BadFiringLoses(t);
    }
  }

  // ----- a projected wake is held

  /** How many wakes the timer knows of: one unseen, one taken by the refresh under way. */
  function Held(t: Timer): nat {
    (if t.unseen.Some? then 1 else 0) + (if t.phase.Waking? && t.phase.taken.Some? then 1 else 0)
  }

  /** A wake no later than `at`, looked for at least until `until`, is unseen or with the refresh under way. */
  predicate Holds(t: Timer, at: int, until: int) {
    || (t.unseen.Some? && t.unseen.value.at <= at && t.unseen.value.until >= until)
    || (t.phase.Waking? && t.phase.taken.Some? && t.phase.taken.value.at <= at && t.phase.taken.value.until >= until)
  }

  /** The jobs answered a wake due by then, or the time to look for it is over, or the clock went back. */
  predicate LetsGo(e: Event, at: int, until: int) {
    match e
    case Woken(answer, now, _, _) => now >= until || (answer.Some? && now + answer.value <= at + WAKE_RETRY_MS)
    case Project(_, now, _) => now + WAKE_SETTLE_MS < until
    case _ => false
  }

  lemma HoldStep(t: Timer, e: Event, at: int, until: int)
    requires Holds(t, at, until) && !LetsGo(e, at, until)
    ensures Holds(Step(t, e), at, until)
  {
  }

  /** No other step of any run, a firing into a refresh included, drops a projected wake. */
  lemma {:induction false} WakeIsHeld(events: seq<Event>, i: nat, j: nat, at: int, until: int)
    requires i <= j <= |events| && Holds(After(events, i), at, until)
    requires forall k :: i <= k < j ==> !LetsGo(events[k], at, until)
    ensures Holds(After(events, j), at, until)
  {
    hide Step, LetsGo, Holds;
    if i < j {
      WakeIsHeld(events, i, j - 1, at, until);
      HoldStep(After(events, j - 1), events[j - 1], at, until);
    }
  }

  // ----- what the timer is armed for

  /** The sooner of two times, either of which may be missing. */
  function Sooner(a: Option<int>, b: Option<int>): Option<int> {
    if a == None then b else if b == None then a else Some(if a.value <= b.value then a.value else b.value)
  }

  /**
   * Once the jobs answered, the timer is set for the soonest of what it was set for, a second look for a wake they did not
   * find, and the wake they answered; and it is armed if there is one.
   */
  lemma AnswerSetsTheTime(t: Timer, answer: Option<int>, now: int, keepNow: int, lowerNow: int)
    requires t.phase.Waking? && !t.stopped && Watches(t)
    ensures var next := Step(t, Woken(answer, now, keepNow, lowerNow));
            && next.at == Sooner(
                 Sooner(t.at, if StillUnseen(t.phase.taken, answer, now) then Some(Due(now + t.phase.taken.value.retry, keepNow)) else None),
                 if answer.Some? then Some(Due(now + answer.value, lowerNow)) else None)
            && (next.armed <==> next.at.Some?)
  {
  }

  /** The timer is armed, to go off no later than `due`. */
  predicate ArmedBy(t: Timer, due: int) {
    !t.stopped && t.armed && t.at.Some? && t.at.value <= due
  }

  /** What neither starts a refresh nor stops the timer. */
  predicate Leaves(t: Timer, e: Event) {
    !Starts(t, e) && !e.Fire? && !e.Stop?
  }

  lemma ArmedStep(t: Timer, e: Event, due: int)
    requires ArmedBy(t, due) && Leaves(t, e)
    ensures ArmedBy(Step(t, e), due)
  {
  }

  /** Until it fires, a refresh starts or it is stopped, an armed timer stays armed, no later than it was. */
  lemma {:induction false} StaysArmed(events: seq<Event>, i: nat, j: nat, due: int)
    requires i <= j <= |events| && ArmedBy(After(events, i), due)
    requires forall k :: i <= k < j ==> Leaves(After(events, k), events[k])
    ensures ArmedBy(After(events, j), due)
  {
    hide Step, Leaves, ArmedBy;
    if i < j {
      StaysArmed(events, i, j - 1, due);
      ArmedStep(After(events, j - 1), events[j - 1], due);
    }
  }

  /** In every run the wake that the jobs answered has the timer armed for it, from the answer to the next start or firing. */
  lemma AnsweredIsWatched(events: seq<Event>, i: nat, j: nat)
    requires i < j <= |events| && events[i].Woken? && events[i].answer.Some?
    requires After(events, i).phase.Waking? && !After(events, i).stopped && Watches(After(events, i))
    requires forall k :: i < k < j ==> Leaves(After(events, k), events[k])
    ensures ArmedBy(After(events, j), Due(events[i].now + events[i].answer.value, events[i].lowerNow))
  {
    AnswerSetsTheTime(After(events, i), events[i].answer, events[i].now, events[i].keepNow, events[i].lowerNow);
    StaysArmed(events, i + 1, j, Due(events[i].now + events[i].answer.value, events[i].lowerNow));
  }

  /** Likewise the second look for a wake that the jobs did not find, each look twice as far away as the one before. */
  lemma MissedIsWatched(events: seq<Event>, i: nat, j: nat)
    requires i < j <= |events| && events[i].Woken?
    requires After(events, i).phase.Waking? && !After(events, i).stopped && Watches(After(events, i))
    requires StillUnseen(After(events, i).phase.taken, events[i].answer, events[i].now)
    requires forall k :: i < k < j ==> Leaves(After(events, k), events[k])
    ensures var taken := After(events, i).phase.taken.value;
            && ArmedBy(After(events, j), Due(events[i].now + taken.retry, events[i].keepNow))
            && After(events, i + 1).unseen.Some? && After(events, i + 1).unseen.value.retry == 2 * taken.retry
  {
    AnswerSetsTheTime(After(events, i), events[i].answer, events[i].now, events[i].keepNow, events[i].lowerNow);
    WokenKeeps(After(events, i), events[i].answer, events[i].now, events[i].keepNow, events[i].lowerNow);
    StaysArmed(events, i + 1, j, Due(events[i].now + After(events, i).phase.taken.value.retry, events[i].keepNow));
  }

  /** A timer that fires while idle with the jobs attached asks them, with the wake it had not seen. */
  lemma FiringAsksTheJobs(t: Timer)
    requires Enabled(t, Fire) && FiresWell(t, Fire) && !t.stopped
    ensures Step(t, Fire).phase == Waking(t.unseen) && Enabled(Step(t, Fire), Kick)
  {
  }

  /** A stopped timer is never armed again, and starts no refresh. */
  lemma {:induction false} StoppedIsQuiet(events: seq<Event>, i: nat, j: nat)
    requires i < j <= |events| && events[i].Stop?
    ensures After(events, j).stopped && !After(events, j).armed
    ensures j < |events| ==> !Starts(After(events, j), events[j])
  {
    if i < j - 1 {
      StoppedIsQuiet(events, i, j - 1);
    }
  }

  // ----- what starting and projecting do

  /** A refresh that starts with the jobs attached watches again, whatever fired before. */
  lemma RefreshWatchesAgain(t: Timer)
    requires t.attached && !t.stopped && t.phase == Idle
    ensures Watches(RefreshStep(t))
  {
  }

  /** After a write projected its wake, the timer fires no later than the wake, or one retry from now when it is due. */
  lemma ProjectionLowers(t: Timer, delay: int, now: int, lowerNow: int)
    requires t.attached && !t.stopped && Watches(t)
    ensures var next := Step(t, Project(Some(delay), now, lowerNow));
            && next.armed && next.unseen.Some? && next.unseen.value.at <= now + delay
            && next.at.Some? && next.at.value <= if now + delay <= lowerNow then lowerNow + WAKE_RETRY_MS else now + delay
  {
  }

  /** The excluded run: a timer that fires into a running refresh leaves a stale time no later write can lower. */
  lemma FiringIntoRefresh()
    ensures exists events: seq<Event> :: IsRun(events) && var t := After(events, |events|);
              !t.stopped && t.unseen.Some? && t.phase == Idle && !t.armed
  {
    var events := [Attach, Refresh, Project(Some(10), 0, 0), Fire, Woken(None, 20, 20, 20), Settle(30, 30), Project(Some(100), 40, 40)];
    assert After(events, 1) == INITIAL.(attached := true);
    assert After(events, 2) == INITIAL.(attached := true, phase := Waking(None));
    var unseen := UnseenWake(10, WAKE_SETTLE_MS, WAKE_RETRY_MS);
    assert After(events, 3) == Timer(true, true, Some(10), false, Waking(None), false, Some(unseen));
    assert After(events, 4) == Timer(true, false, Some(10), false, Waking(None), true, Some(unseen));
    assert After(events, 5) == Timer(true, false, Some(10), false, Settling, true, Some(unseen));
    assert After(events, 6) == Timer(true, false, Some(10), false, Idle, false, Some(unseen));
    assert After(events, 7).unseen.Some? && !After(events, 7).armed;
    forall n: nat | n < |events| ensures Enabled(After(events, n), events[n]) {
      if n == 3 {
        assert events[n] == Fire;
      }
    }
  }

  /** The other excluded run: a timer armed before the jobs are attached fires, and the stale time outlives the attachment. */
  lemma FiringBeforeAttach()
    ensures exists events: seq<Event> :: IsRun(events) && var t := After(events, |events|);
              !t.stopped && t.unseen.Some? && t.phase == Idle && !t.armed
              && forall k :: 0 <= k < |events| && events[k].Fire? ==> After(events, k).phase == Idle
  {
    var events := [Refresh, Refresh, Settle(0, 0), Fire, Settle(1001, 1001), Attach, Project(Some(2000), 2000, 2000)];
    assert After(events, 1) == INITIAL.(phase := Settling);
    assert After(events, 2) == INITIAL.(phase := Settling, again := true);
    assert After(events, 3) == Timer(false, true, Some(WAKE_RETRY_MS), false, Idle, false, None);
    assert After(events, 4) == Timer(false, false, Some(WAKE_RETRY_MS), false, Settling, false, None);
    assert After(events, 5) == Timer(false, false, Some(WAKE_RETRY_MS), false, Idle, false, None);
    assert After(events, 6) == Timer(true, false, Some(WAKE_RETRY_MS), false, Idle, false, None);
    assert After(events, 7).unseen.Some? && !After(events, 7).armed;
    forall n: nat | n < |events| ensures Enabled(After(events, n), events[n]) {
      if n == 3 {
        assert events[n] == Fire;
      }
    }
  }
}
