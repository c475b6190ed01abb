/** Password attempts and their back-off (crates/daemon/src/domain/auth.rs).
    Durations and instants are in nanoseconds. */
module AuthBackoff {
  import opened Arithmetic
  import opened Options

  const MILLISECOND: nat := 1_000_000
  const SECOND: nat := 1_000_000_000
  const DURATION_MAX: nat := 0xFFFF_FFFF_FFFF_FFFF * SECOND + 999_999_999

  type Duration = d: nat | d <= DURATION_MAX

  type u8 = x: int | 0 <= x < 256

  datatype Policy = Policy(baseDelay: Duration, maxDelay: Duration)

  function NewPolicy(baseDelay: Duration, maxDelay: Duration): Policy {
    var base: Duration := if baseDelay < MILLISECOND then MILLISECOND else baseDelay;
    Policy(base, if maxDelay < base then base else maxDelay)
  }

  function SaturatingMul(d: Duration, factor: nat): Duration {
    if d * factor <= DURATION_MAX then d * factor else DURATION_MAX
  }

  function PowerOfTwo(exponent: nat): (power: nat)
    ensures power > 0
  {
    if exponent == 0 then 1 else 2 * PowerOfTwo(exponent - 1)
  }

  function SaturatingIncrement(n: u8): u8 {
    if n == 255 then 255 else n + 1
  }

  function FailureDelay(policy: Policy, failedAttempts: u8): Duration {
    var previous := if failedAttempts == 0 then 0 else failedAttempts - 1;
    var exponent := if previous < 16 then previous else 16;
    var scaled := SaturatingMul(policy.baseDelay, PowerOfTwo(exponent));
    if scaled < policy.maxDelay then scaled else policy.maxDelay
  }

  datatype Auth = Auth(failedAttempts: u8, retryAfter: Option<nat>, inFlight: bool, policy: Policy)

  datatype Admission = Allowed | Busy | RateLimited(delay: nat)

  function NewAuth(policy: Policy): Auth {
    Auth(0, None, false, policy)
  }

  function Admit(auth: Auth, now: nat): Admission {
    if auth.inFlight then Busy
    else if auth.retryAfter.Some? && auth.retryAfter.value > now then RateLimited(auth.retryAfter.value - now)
    else Allowed
  }

  function FinishedFailure(auth: Auth, now: nat): Auth {
    var failed := SaturatingIncrement(auth.failedAttempts);
    Auth(failed, Some(now + FailureDelay(auth.policy, failed)), false, auth.policy)
  }

  function FinishedSuccess(auth: Auth): Auth {
    Auth(0, None, false, auth.policy)
  }

  // ---- The delay as it is meant

  /** The wait after the `k`-th failure in a row: doubling from the base, sixteen times at most, up to the maximum. */
  function Delay(policy: Policy, k: nat): nat
    requires k > 0
  {
    var doubled := policy.baseDelay * PowerOfTwo(if k - 1 < 16 then k - 1 else 16);
    if doubled < policy.maxDelay then doubled else policy.maxDelay
  }

  /** Neither the saturating product nor the saturating counter can be told from unbounded ones. */
  lemma SaturationIsUnobservable(policy: Policy, k: nat)
    requires k > 0
    ensures FailureDelay(policy, if k <= 255 then k else 255) == Delay(policy, k)
  {
  }

  function TotalDelay(policy: Policy, k: nat): nat {
    if k == 0 then 0 else TotalDelay(policy, k - 1) + Delay(policy, k)
  }

  lemma {:induction false} PowerOfTwoMonotone(a: nat, b: nat)
    requires a <= b
    ensures PowerOfTwo(a) <= PowerOfTwo(b)
  {
    if a < b {
      PowerOfTwoMonotone(a, b - 1);
    }
  }

  lemma DoubledGrows(base: nat, e: nat, f: nat)
    requires e <= f
    ensures base <= base * PowerOfTwo(e) <= base * PowerOfTwo(f)
  {
    PowerOfTwoMonotone(e, f);
    ProductMonotone(1, PowerOfTwo(e), base);
    ProductMonotone(PowerOfTwo(e), PowerOfTwo(f), base);
  }

  /** The waits of a policy never get shorter, start at the base and never exceed the maximum. */
  lemma DelaysGrow(base: Duration, max: Duration, k: nat)
    requires k > 0
    ensures var policy := NewPolicy(base, max);
            && policy.baseDelay >= base && policy.baseDelay >= MILLISECOND
            && policy.baseDelay == Delay(policy, 1) <= Delay(policy, k) <= Delay(policy, k + 1) <= policy.maxDelay
  {
    var policy := NewPolicy(base, max);
    DoubledGrows(policy.baseDelay, 0, if k - 1 < 16 then k - 1 else 16);
    DoubledGrows(policy.baseDelay, if k - 1 < 16 then k - 1 else 16, if k < 16 then k else 16);
  }

  lemma DoublesUpToTheMaximum(policy: Policy, n: nat)
    requires n < 16
    ensures policy.baseDelay * PowerOfTwo(n + 1) == 2 * (policy.baseDelay * PowerOfTwo(n))
  {
    assert PowerOfTwo(n + 1) == 2 * PowerOfTwo(n);
  }

  /** The wait itself: the base after the first failure, then twice the wait before or the maximum, if that is less, and
      from the seventeenth failure on always the same. */
  lemma WaitsDouble(base: Duration, max: Duration, k: nat)
    requires k > 0
    ensures var policy := NewPolicy(base, max);
            && policy.baseDelay == (if base < 1_000_000 then 1_000_000 else base)
            && policy.maxDelay == (if max < policy.baseDelay then policy.baseDelay else max)
            && Delay(policy, 1) == policy.baseDelay
            && Delay(policy, k + 1)
               == if k > 16 then Delay(policy, k)
                  else if 2 * Delay(policy, k) < policy.maxDelay then 2 * Delay(policy, k) else policy.maxDelay
  {
    if k <= 16 {
      DoublesUpToTheMaximum(NewPolicy(base, max), k - 1);
    }
  }

  /** And so the deadlines of two failures in a row, the second of a later attempt. */
  lemma DeadlinesDouble(base: Duration, max: Duration, auth: Auth, first: nat, second: nat)
    requires auth.policy == NewPolicy(base, max)
    ensures var once := FinishedFailure(auth, first);
            var twice := FinishedFailure(once.(inFlight := true), second);
            && once.retryAfter.Some? && twice.retryAfter.Some? && once.retryAfter.value >= first
            && (auth.failedAttempts == 0 ==> once.retryAfter.value == first + auth.policy.baseDelay)
            && var wait := once.retryAfter.value - first;
               twice.retryAfter.value
               == second + if auth.failedAttempts >= 16 then wait
                           else if 2 * wait < auth.policy.maxDelay then 2 * wait else auth.policy.maxDelay
  {
    var k := auth.failedAttempts as nat + 1;
    WaitsDouble(base, max, k);
    SaturationIsUnobservable(auth.policy, k);
    SaturationIsUnobservable(auth.policy, k + 1);
  }

  // ---- Runs

  /** What happens to the authentication state, each at its time.  `Submit` is a password, with or without a channel
      for the answer; `Succeeded` and `Rejected` are answers to password attempts; `Matched` is a fingerprint, which is
      reported like a success and answers no attempt (crates/daemon/src/app/fingerprint.rs:104-109); `Reload` is a new
      configuration; and `Reset` is a lock that starts or ends, or an exit of the lock screen, even under a lock. */
  datatype Event =
    | Submit(now: nat, channel: bool)
    | Succeeded(now: nat)
    | Rejected(now: nat)
    | Matched(now: nat)
    | Reload(now: nat, policy: Policy, locked: bool)
    | Reset(now: nat, policy: Policy)

  /** The event replaces the state by a new one: a reset (crates/daemon/src/app/runtime/state.rs:84,
      crates/daemon/src/app/helpers.rs:68), or a reload without a lock (crates/daemon/src/app/helpers.rs:236-238). */
  predicate Renews(event: Event) {
    event.Reset? || (event.Reload? && !event.locked)
  }

  /** The event clears the failures and the wait. */
  predicate Forgets(event: Event) {
    Renews(event) || event.Succeeded? || event.Matched?
  }

  /** The event ends the flight of an attempt that it does not answer. */
  predicate LosesSight(event: Event) {
    Renews(event) || event.Matched?
  }

  predicate IsAnswer(event: Event) {
    event.Succeeded? || event.Rejected?
  }

  /** The event starts an attempt: a submission that is admitted and has a channel for its answer
      (crates/daemon/src/app/runtime/auth.rs:65-72). */
  predicate Starts(auth: Auth, event: Event) {
    event.Submit? && event.channel && Admit(auth, event.now) == Allowed
  }

  function Step(auth: Auth, event: Event): Auth {
    match event
    case Submit(_, _) => if Starts(auth, event) then auth.(inFlight := true) else auth
    case Succeeded(_) => FinishedSuccess(auth)
    case Matched(_) => FinishedSuccess(auth)
    case Rejected(now) => FinishedFailure(auth, now)
    case Reload(_, policy, locked) => if locked then auth else NewAuth(policy)
    case Reset(_, policy) => NewAuth(policy)
  }

  function Run(auth: Auth, events: seq<Event>): Auth {
    if events == [] then auth else Step(Run(auth, events[..|events| - 1]), events[|events| - 1])
  }

  /** The attempts whose answer can still arrive.  A reset drops the channel of those before it
      (crates/daemon/src/app/runtime/state.rs:75-78); a match or a reload does not. */
  function Listening(auth: Auth, events: seq<Event>): int {
    if events == [] then 0
    else
      var init, last := events[..|events| - 1], events[|events| - 1];
      if last.Reset? then 0
      else
        Listening(auth, init) + (if Starts(Run(auth, init), last) then 1 else 0) - if IsAnswer(last) then 1 else 0
  }

  ghost predicate InOrder(events: seq<Event>) {
    forall i, j | 0 <= i < j < |events| :: events[i].now <= events[j].now
  }

  /** Time never runs backwards, and there is an attempt for every answer that arrives. */
  ghost predicate Orderly(auth: Auth, events: seq<Event>) {
    && InOrder(events)
    && forall i | 0 <= i < |events| :: IsAnswer(events[i]) ==> Listening(auth, events[..i]) > 0
  }

  lemma OrderlyPrefix(auth: Auth, events: seq<Event>)
    requires Orderly(auth, events) && events != []
    ensures Orderly(auth, events[..|events| - 1])
  {
    var init := events[..|events| - 1];
    forall i | 0 <= i < |init| && IsAnswer(init[i]) ensures Listening(auth, init[..i]) > 0 {
      assert init[..i] == events[..i];
    }
  }

  lemma Push(auth: Auth, events: seq<Event>, event: Event)
    ensures Run(auth, events + [event]) == Step(Run(auth, events), event)
    ensures Begun(auth, events + [event]) == Begun(auth, events) + if Starts(Run(auth, events), event) then 1 else 0
    ensures Answered(events + [event]) == Answered(events) + if IsAnswer(event) then 1 else 0
    ensures Listening(auth, events + [event])
            == if event.Reset? then 0
               else Listening(auth, events) + Begun(auth, events + [event]) - Begun(auth, events)
                    - if IsAnswer(event) then 1 else 0
  {
    assert (events + [event])[..|events|] == events;
  }

  // ---- Failures and waits

  /** The rejections since the last success, match, renewal or start. */
  function Failures(events: seq<Event>): nat {
    if events == [] then 0
    else
      var last := events[|events| - 1];
      if Forgets(last) then 0 else Failures(events[..|events| - 1]) + if last.Rejected? then 1 else 0
  }

  /** When the first of them came. */
  function FirstFailureAt(events: seq<Event>): nat
    requires Failures(events) > 0
  {
    var init := events[..|events| - 1];
    if Failures(init) == 0 then events[|events| - 1].now else FirstFailureAt(init)
  }

  /** And the last. */
  function LastFailureAt(events: seq<Event>): nat
    requires Failures(events) > 0
  {
    var last := events[|events| - 1];
    if last.Rejected? then last.now else LastFailureAt(events[..|events| - 1])
  }

  /** The policy in force: that of the last renewal. */
  function PolicyOf(policy: Policy, events: seq<Event>): Policy {
    if events == [] then policy
    else
      var last := events[|events| - 1];
      if Renews(last) then last.policy else PolicyOf(policy, events[..|events| - 1])
  }

  /** The counter is the number of failures in a row, cut off at 255, and the wait is that of the last of them. */
  ghost predicate Tracks(auth: Auth, policy: Policy, events: seq<Event>) {
    var k := Failures(events);
    && auth.policy == PolicyOf(policy, events)
    && auth.failedAttempts == (if k <= 255 then k else 255)
    && auth.retryAfter == if k == 0 then None else Some(LastFailureAt(events) + Delay(auth.policy, k))
  }

  /** Over any run at all. */
  lemma {:induction false} RunTracks(policy: Policy, events: seq<Event>)
    ensures Tracks(Run(NewAuth(policy), events), policy, events)
  {
    if events != [] {
      var init := events[..|events| - 1];
      RunTracks(policy, init);
      if events[|events| - 1].Rejected? {
        SaturationIsUnobservable(PolicyOf(policy, init), Failures(events));
      }
    }
  }

  /** When a submission is turned away, over any run, and for how long: up to the end of the wait. */
  lemma RateLimitedIff(policy: Policy, events: seq<Event>, now: nat)
    ensures var auth, k := Run(NewAuth(policy), events), Failures(events);
            Admit(auth, now).RateLimited?
            <==> !auth.inFlight && k > 0 && now < LastFailureAt(events) + Delay(PolicyOf(policy, events), k)
    ensures var answer, k := Admit(Run(NewAuth(policy), events), now), Failures(events);
            answer.RateLimited? ==>
              k > 0 && now + answer.delay == LastFailureAt(events) + Delay(PolicyOf(policy, events), k)
  {
    RunTracks(policy, events);
  }

  // ---- The waits add up

  /** Every rejection in a row but the first came to an attempt in flight, and not to one lost sight of. */
  ghost predicate RejectedInTurn(auth: Auth, events: seq<Event>) {
    if events == [] then true
    else
      var init, last := events[..|events| - 1], events[|events| - 1];
      Forgets(last) ||
      (RejectedInTurn(auth, init) && (last.Rejected? && Failures(init) > 0 ==> Run(auth, init).inFlight))
  }

  /** An attempt in flight began no earlier than the end of the wait before it. */
  lemma {:induction false} FlightIsAfterTheWait(policy: Policy, events: seq<Event>)
    requires InOrder(events)
    ensures var auth := Run(NewAuth(policy), events);
            auth.inFlight && auth.retryAfter.Some? ==> events != [] && auth.retryAfter.value <= events[|events| - 1].now
  {
    if events != [] {
      FlightIsAfterTheWait(policy, events[..|events| - 1]);
    }
  }

  lemma {:induction false} WaitsAddUp(policy: Policy, events: seq<Event>)
    requires InOrder(events) && RejectedInTurn(NewAuth(policy), events) && Failures(events) > 0
    ensures LastFailureAt(events)
            >= FirstFailureAt(events) + TotalDelay(PolicyOf(policy, events), Failures(events) - 1)
  {
    var init, last := events[..|events| - 1], events[|events| - 1];
    if Failures(init) > 0 {
      WaitsAddUp(policy, init);
      RunTracks(policy, init);
      FlightIsAfterTheWait(policy, init);
    }
  }

  /** After `k` rejections in a row, each but the first to an attempt in flight, the next attempt starts no earlier than
      the sum of the `k` waits after the first, whenever and however often passwords are submitted and the configuration
      is reloaded under the lock. */
  lemma AttemptAfterFailuresWaits(policy: Policy, events: seq<Event>, now: nat)
    requires InOrder(events) && RejectedInTurn(NewAuth(policy), events) && Failures(events) > 0
    requires Admit(Run(NewAuth(policy), events), now) == Allowed
    ensures now >= FirstFailureAt(events) + TotalDelay(PolicyOf(policy, events), Failures(events))
  {
    WaitsAddUp(policy, events);
    RunTracks(policy, events);
  }

  /** The next attempt is admitted before the waits add up. */
  ghost predicate WaitsFallShort(policy: Policy, events: seq<Event>) {
    Failures(events) > 0 &&
    exists now: nat | now < FirstFailureAt(events) + TotalDelay(PolicyOf(policy, events), Failures(events)) ::
      Admit(Run(NewAuth(policy), events), now) == Allowed
  }

  /** Exactly when it is not, over any run: an attempt is in flight, so that none can start, or the last rejection came
      no sooner than the waits before it end. */
  lemma WaitsAddUpIff(policy: Policy, events: seq<Event>)
    requires Failures(events) > 0
    ensures !WaitsFallShort(policy, events)
       <==> Run(NewAuth(policy), events).inFlight
            || LastFailureAt(events)
               >= FirstFailureAt(events) + TotalDelay(PolicyOf(policy, events), Failures(events) - 1)
  {
    RunTracks(policy, events);
    var auth := Run(NewAuth(policy), events);
    if !auth.inFlight {
      assert Admit(auth, auth.retryAfter.value) == Allowed;
    }
  }

  lemma PushOrderly(auth: Auth, events: seq<Event>, event: Event)
    requires Orderly(auth, events) && forall e <- events :: e.now <= event.now
    requires IsAnswer(event) ==> Listening(auth, events) > 0
    ensures Orderly(auth, events + [event])
  {
    var pushed := events + [event];
    forall i | 0 <= i < |pushed| && IsAnswer(pushed[i]) ensures Listening(auth, pushed[..i]) > 0 {
      assert pushed[..i] == events[..i];
      assert events[..|events|] == events;
    }
  }

  lemma PushRejected(policy: Policy, events: seq<Event>, at: nat)
    ensures var pushed := events + [Rejected(at)];
            && Failures(pushed) == Failures(events) + 1 && LastFailureAt(pushed) == at
            && FirstFailureAt(pushed) == (if Failures(events) == 0 then at else FirstFailureAt(events))
            && PolicyOf(policy, pushed) == PolicyOf(policy, events)
  {
    assert (events + [Rejected(at)])[..|events|] == events;
  }

  lemma TwoRejectionsCount(policy: Policy, begun: seq<Event>, at: nat)
    requires Failures(begun) == 0
    ensures var events := begun + [Rejected(at)] + [Rejected(at)];
            && Failures(events) == 2 && FirstFailureAt(events) == at == LastFailureAt(events)
            && PolicyOf(policy, events) == PolicyOf(policy, begun)
  {
    PushRejected(policy, begun, at);
    PushRejected(policy, begun + [Rejected(at)], at);
  }

  lemma TwoRejectionsInOrder(auth: Auth, begun: seq<Event>, at: nat)
    requires Orderly(auth, begun) && Listening(auth, begun) == 2 && forall event <- begun :: event.now <= at
    ensures Orderly(auth, begun + [Rejected(at)] + [Rejected(at)])
  {
    Push(auth, begun, Rejected(at));
    PushOrderly(auth, begun, Rejected(at));
    PushOrderly(auth, begun + [Rejected(at)], Rejected(at));
  }

  /** Two rejections at one time: only the second wait is served. */
  lemma SecondWaitOnly(policy: Policy, begun: seq<Event>, at: nat)
    requires Failures(begun) == 0 && PolicyOf(policy, begun) == policy && Delay(policy, 1) > 0
    ensures WaitsFallShort(policy, begun + [Rejected(at)] + [Rejected(at)])
  {
    var one := begun + [Rejected(at)];
    TwoRejectionsCount(policy, begun, at);
    Push(NewAuth(policy), one, Rejected(at));
    TotalOfOne(policy);
    WaitsAddUpIff(policy, one + [Rejected(at)]);
  }

  lemma TotalOfOne(policy: Policy)
    ensures TotalDelay(policy, 1) == Delay(policy, 1)
  {
    assert TotalDelay(policy, 0) == 0;
  }

  /** The waits need not add up: a match in between lets two attempts be rejected at one time. */
  lemma WaitsRunTogether(base: Duration, max: Duration)
    ensures var policy := NewPolicy(base, max);
            var events := [Submit(0, true), Matched(1), Submit(2, true)] + [Rejected(3)] + [Rejected(3)];
            Orderly(NewAuth(policy), events) && WaitsFallShort(policy, events)
  {
    var policy, begun := NewPolicy(base, max), [Submit(0, true), Matched(1), Submit(2, true)];
    BesideALostOne(policy, Matched(1));
    TwoRejectionsInOrder(NewAuth(policy), begun, 3);
    NothingRejected(policy, begun);
    DelaysGrow(base, max, 1);
    SecondWaitOnly(policy, begun, 3);
  }

  lemma {:induction false} NothingRejected(policy: Policy, events: seq<Event>)
    requires forall event <- events :: !event.Rejected? && !Renews(event)
    ensures Failures(events) == 0 && PolicyOf(policy, events) == policy
  {
    if events != [] {
      NothingRejected(policy, events[..|events| - 1]);
    }
  }

  // ---- How long a wait lasts

  predicate NoneForgets(events: seq<Event>) {
    forall event <- events :: !Forgets(event)
  }

  /** After a rejection, and until its wait is over, exactly the runs with an event that forgets the wait let a password
      in before its time. */
  lemma {:induction false} WaitIsKeptIff(auth: Auth, failedAt: nat, later: seq<Event>, now: nat)
    requires forall e <- later :: !e.Rejected? && e.now <= now
    requires now < failedAt + FailureDelay(auth.policy, SaturatingIncrement(auth.failedAttempts))
    ensures var after := Run(FinishedFailure(auth, failedAt), later);
            && (Admit(after, now).RateLimited? <==> NoneForgets(later))
            && (!NoneForgets(later) ==> after.retryAfter == None)
  {
    if later != [] {
      var init, last := later[..|later| - 1], later[|later| - 1];
      assert later == init + [last];
      WaitIsKeptIff(auth, failedAt, init, now);
      assert NoneForgets(later) <==> NoneForgets(init) && !Forgets(last);
    }
  }

  lemma {:induction false} RunAppend(auth: Auth, first: seq<Event>, second: seq<Event>)
    ensures Run(auth, first + second) == Run(Run(auth, first), second)
  {
    if second == [] {
      assert first + second == first;
    } else {
      var init := second[..|second| - 1];
      RunAppend(auth, first, init);
      assert (first + second)[..|first + second| - 1] == first + init;
    }
  }

  /** The same of a rejection anywhere in a run. */
  lemma RejectionIsKeptIff(policy: Policy, events: seq<Event>, failedAt: nat, later: seq<Event>, now: nat)
    requires forall e <- later :: !e.Rejected? && e.now <= now
    requires now < failedAt + Delay(PolicyOf(policy, events), Failures(events) + 1)
    ensures Admit(Run(NewAuth(policy), events + [Rejected(failedAt)] + later), now).RateLimited?
       <==> NoneForgets(later)
  {
    RunTracks(policy, events);
    SaturationIsUnobservable(PolicyOf(policy, events), Failures(events) + 1);
    Push(NewAuth(policy), events, Rejected(failedAt));
    RunAppend(NewAuth(policy), events + [Rejected(failedAt)], later);
    WaitIsKeptIff(Run(NewAuth(policy), events), failedAt, later, now);
  }

  /** As here: a password that has to wait after a rejection is admitted at once after a reset, even one under an
      active lock. */
  lemma ResetForgetsTheWait(base: Duration, max: Duration, newPolicy: Policy, failedAt: nat)
    ensures var auth, events := NewAuth(NewPolicy(base, max)), [Submit(failedAt, true), Rejected(failedAt)];
            && Orderly(auth, events + [Reset(failedAt, newPolicy)])
            && Admit(Run(auth, events), failedAt).RateLimited?
            && Admit(Run(auth, events + [Reset(failedAt, newPolicy)]), failedAt) == Allowed
  {
    var auth, submitted := NewAuth(NewPolicy(base, max)), [Submit(failedAt, true)];
    var events := [Submit(failedAt, true), Rejected(failedAt)];
    Push(auth, [], Submit(failedAt, true));
    Push(auth, submitted, Rejected(failedAt));
    Push(auth, events, Reset(failedAt, newPolicy));
    assert [] + submitted == submitted && submitted + [Rejected(failedAt)] == events;
    assert (events + [Reset(failedAt, newPolicy)])[..1] == submitted;
    DelaysGrow(base, max, 1);
    SaturationIsUnobservable(NewPolicy(base, max), 1);
  }

  /** Nobody waits longer than the last wait: at the moment the current wait ends, the next attempt is admitted. */
  lemma WaitEndsOnTime(auth: Auth, failedAt: nat, now: nat)
    ensures Admit(FinishedFailure(auth, failedAt), now) == Allowed
       <==> now >= failedAt + FailureDelay(auth.policy, SaturatingIncrement(auth.failedAttempts))
  {
  }

  // ---- How many attempts are under way

  /** The attempts begun, by the submissions that started one. */
  function Begun(auth: Auth, events: seq<Event>): nat {
    if events == [] then 0
    else
      var init := events[..|events| - 1];
      Begun(auth, init) + if Starts(Run(auth, init), events[|events| - 1]) then 1 else 0
  }

  function Answered(events: seq<Event>): nat {
    if events == [] then 0
    else
      Answered(events[..|events| - 1]) + if IsAnswer(events[|events| - 1]) then 1 else 0
  }

  /** The attempts begun whose answer the daemon has not had. */
  function Outstanding(auth: Auth, events: seq<Event>): int {
    Begun(auth, events) - Answered(events)
  }

  /** The times that a renewal or a match came while an attempt was in flight, and so lost sight of it. */
  function Abandoned(auth: Auth, events: seq<Event>): nat {
    if events == [] then 0
    else
      var init := events[..|events| - 1];
      Abandoned(auth, init) + if LosesSight(events[|events| - 1]) && Run(auth, init).inFlight then 1 else 0
  }

  /** The answers that came while no attempt was in flight: to one abandoned before. */
  function Stray(auth: Auth, events: seq<Event>): nat {
    if events == [] then 0
    else
      var init := events[..|events| - 1];
      Stray(auth, init) + if IsAnswer(events[|events| - 1]) && !Run(auth, init).inFlight then 1 else 0
  }

  /** The abandoned attempts that no answer has made up for. */
  function Lost(auth: Auth, events: seq<Event>): int {
    Abandoned(auth, events) - Stray(auth, events)
  }

  /** Over any run: the attempts outstanding are the one in flight and those abandoned, less the stray answers. */
  lemma {:induction false} OutstandingAreInFlightOrLost(policy: Policy, events: seq<Event>)
    ensures var auth := NewAuth(policy);
            Outstanding(auth, events) == Lost(auth, events) + if Run(auth, events).inFlight then 1 else 0
  {
    if events != [] {
      OutstandingAreInFlightOrLost(policy, events[..|events| - 1]);
    }
  }

  /** Answers that can still arrive are answers not yet had. */
  lemma {:induction false} ListeningIsOutstanding(auth: Auth, events: seq<Event>)
    requires Orderly(auth, events)
    ensures 0 <= Listening(auth, events) <= Outstanding(auth, events)
  {
    if events != [] {
      OrderlyPrefix(auth, events);
      ListeningIsOutstanding(auth, events[..|events| - 1]);
    }
  }

  lemma {:induction false} NoneAbandonedNoneStray(policy: Policy, events: seq<Event>)
    requires Orderly(NewAuth(policy), events) && Abandoned(NewAuth(policy), events) == 0
    ensures Stray(NewAuth(policy), events) == 0
  {
    if events != [] {
      var init := events[..|events| - 1];
      OrderlyPrefix(NewAuth(policy), events);
      NoneAbandonedNoneStray(policy, init);
      ListeningIsOutstanding(NewAuth(policy), init);
      OutstandingAreInFlightOrLost(policy, init);
    }
  }

  /** So there is one attempt outstanding while one is in flight, and none otherwise, as long as the daemon never loses
      sight of one. */
  lemma OneAttemptAtATime(policy: Policy, events: seq<Event>)
    requires Orderly(NewAuth(policy), events) && Abandoned(NewAuth(policy), events) == 0
    ensures Outstanding(NewAuth(policy), events) == if Run(NewAuth(policy), events).inFlight then 1 else 0
  {
    NoneAbandonedNoneStray(policy, events);
    OutstandingAreInFlightOrLost(policy, events);
  }

  /** The `j`-th event starts an attempt while an abandoned one is not made up for. */
  predicate StartsBesideLost(auth: Auth, events: seq<Event>, j: nat)
    requires j < |events|
  {
    Starts(Run(auth, events[..j]), events[j]) && Lost(auth, events[..j]) > 0
  }

  /** Exactly when there are never two, over any run. */
  lemma NeverTwoAttemptsIff(policy: Policy, events: seq<Event>)
    ensures (forall n: nat | n <= |events| :: Outstanding(NewAuth(policy), events[..n]) <= 1)
       <==> forall j: nat | j < |events| :: !StartsBesideLost(NewAuth(policy), events, j)
  {
    if j: nat :| j < |events| && StartsBesideLost(NewAuth(policy), events, j) {
      AttemptBesideLost(policy, events, j);
    } else {
      forall n: nat | n <= |events| ensures Outstanding(NewAuth(policy), events[..n]) <= 1 {
        AtMostOneAttempt(policy, events, n);
      }
    }
  }

  lemma AttemptBesideLost(policy: Policy, events: seq<Event>, j: nat)
    requires j < |events| && StartsBesideLost(NewAuth(policy), events, j)
    ensures Outstanding(NewAuth(policy), events[..j + 1]) > 1
  {
    assert events[..j + 1] == events[..j] + [events[j]];
    Push(NewAuth(policy), events[..j], events[j]);
    OutstandingAreInFlightOrLost(policy, events[..j]);
  }

  lemma {:induction false} AtMostOneAttempt(policy: Policy, events: seq<Event>, n: nat)
    requires n <= |events|
    requires forall j: nat | j < |events| :: !StartsBesideLost(NewAuth(policy), events, j)
    ensures Outstanding(NewAuth(policy), events[..n]) <= 1
  {
    if n > 0 {
      AtMostOneAttempt(policy, events, n - 1);
      OutstandingAreInFlightOrLost(policy, events[..n - 1]);
      assert !StartsBesideLost(NewAuth(policy), events, n - 1);
      assert events[..n] == events[..n - 1] + [events[n - 1]];
      Push(NewAuth(policy), events[..n - 1], events[n - 1]);
    }
  }

  /** The failing inputs: the lock screen exits under an attempt and is restarted, or a finger matches under an attempt
      and the session stays locked, and a second attempt starts beside the first. */
  lemma TwoAttemptsAtOnce(policy: Policy, lost: Event)
    requires LosesSight(lost) && lost.now == 1
    ensures var auth, events := NewAuth(policy), [Submit(0, true), lost, Submit(2, true)];
            Orderly(auth, events) && Outstanding(auth, events) == 2
  {
    BesideALostOne(policy, lost);
  }

  lemma BesideALostOne(policy: Policy, lost: Event)
    requires LosesSight(lost) && lost.now == 1
    ensures var auth, events := NewAuth(policy), [Submit(0, true), lost, Submit(2, true)];
            && Run(auth, events).inFlight && Listening(auth, events) == (if lost.Reset? then 1 else 2)
            && Orderly(auth, events) && Outstanding(auth, events) == 2
  {
    var auth := NewAuth(policy);
    Push(auth, [], Submit(0, true));
    Push(auth, [Submit(0, true)], lost);
    Push(auth, [Submit(0, true), lost], Submit(2, true));
    assert [] + [Submit(0, true)] == [Submit(0, true)];
    assert [Submit(0, true)] + [lost] == [Submit(0, true), lost];
    assert [Submit(0, true), lost] + [Submit(2, true)] == [Submit(0, true), lost, Submit(2, true)];
  }

  // ---- The program

  class AuthState {
    var failedAttempts: u8
    var retryAfter: Option<nat>
    var inFlight: bool
    var policy: Policy

    ghost function State(): Auth
      reads this
    {
      Auth(failedAttempts, retryAfter, inFlight, policy)
    }

    constructor (p: Policy)
      ensures State() == NewAuth(p)
    {
      failedAttempts, retryAfter, inFlight, policy := 0, None, false, p;
    }

    /** The daemon's handling of a submitted password.  An admitted one without a channel is an error
        and starts nothing. */
    method SubmitPassword(now: nat, channel: bool) returns (admission: Admission, started: bool)
      modifies this`inFlight
      ensures admission == Admit(old(State()), now) && State() == Step(old(State()), Submit(now, channel))
      ensures started <==> admission == Allowed && channel
      ensures inFlight <==> old(inFlight) || started
    {
      admission := Allowed;
      if inFlight {
        admission := Busy;
      } else if retryAfter.Some? && retryAfter.value > now {
        admission := RateLimited(retryAfter.value - now);
      }
      started := admission == Allowed && channel;
      if started {
        inFlight := true;
      }
    }

    /** What a configuration reload does to the authentication state. */
    method ApplyReload(now: nat, newPolicy: Policy, locked: bool)
      modifies this
      ensures State() == Step(old(State()), Reload(now, newPolicy, locked))
    {
      if !locked {
        failedAttempts, retryAfter, inFlight, policy := 0, None, false, newPolicy;
      }
    }

    method FinishSuccess(now: nat)
      modifies this
      ensures State() == Step(old(State()), Succeeded(now)) == Step(old(State()), Matched(now))
    {
      inFlight, failedAttempts, retryAfter := false, 0, None;
    }

    method FinishFailure(now: nat)
      modifies this
      ensures State() == Step(old(State()), Rejected(now))
    {
      inFlight := false;
      failedAttempts := SaturatingIncrement(failedAttempts);
      retryAfter := Some(now + FailureDelay(policy, failedAttempts));
    }
  }
}
