/**
 The fixed-window rate limiter (src/lib/rate-limit.ts) as a protocol: any number of
 requests interleave their INCR, EXPIRE and TTL commands on one shared key while the
 clock moves and Redis drops expired keys. A client that stops simply takes no more steps.
 Times are milliseconds; a key past its expiry is never served, a key at it may be.
 */
module RateLimit {
  import opened Options

  datatype Key = Gone | Held(count: nat, expiry: Option<int>)

  /** Where one call of checkRateLimit stands. */
  datatype Call =
    | Counted(count: nat)   // INCR answered 1: EXPIRE comes next
    | Settled(count: nat)   // the verdict comes next, and TTL if it is a refusal
    | Allowed
    | Refused(retryAfterSeconds: int)

  /** A request whose count was within the limit, when, and in which lifetime of the key. */
  datatype Admission = Admission(request: nat, time: int, life: nat)

  datatype State = State(now: int, key: Key, calls: map<nat, Call>, born: seq<int>, log: seq<Admission>)

  datatype Rule = Rule(limit: nat, windowSeconds: nat) {
    function Window(): nat {
      1000 * windowSeconds
    }
  }

  datatype Step = Incr(request: nat) | Expire(request: nat) | Verdict(request: nat) | Tick(ms: nat) | Evict

  const INIT := State(0, Gone, map[], [], [])

  /** A command is served only by a key that has not passed its expiry. */
  predicate Served(s: State) {
    s.key.Held? && s.key.expiry.Some? ==> s.now <= s.key.expiry.value
  }

  predicate Enabled(s: State, step: Step) {
    match step
    case Incr(request) => Served(s) && request !in s.calls
    case Expire(request) => Served(s) && request in s.calls && s.calls[request].Counted?
    case Verdict(request) => Served(s) && request in s.calls && s.calls[request].Settled?
    case Tick(_) => true
    case Evict => s.key.Held? && s.key.expiry.Some? && s.key.expiry.value <= s.now
  }

  /** TTL: seconds left, rounded; negative without a key or without an expiry. */
  function Ttl(s: State): int {
    if s.key.Gone? then -2
    else if s.key.expiry.None? then -1
    else (s.key.expiry.value - s.now + 500) / 1000
  }

  function Apply(s: State, step: Step, rule: Rule): State
    requires Enabled(s, step)
  {
    match step
    case Incr(request) =>
      var count := if s.key.Gone? then 1 else s.key.count + 1;
      var born := if s.key.Gone? then s.born + [s.now] else s.born;
      s.(key := Held(count, if s.key.Gone? then None else s.key.expiry),
         calls := s.calls[request := if count == 1 then Counted(count) else Settled(count)],
         born := born,
         log := if count <= rule.limit && born != [] then s.log + [Admission(request, s.now, |born| - 1)] else s.log)
    case Expire(request) =>
      s.(key := if s.key.Gone? then Gone else s.key.(expiry := Some(s.now + rule.Window())),
         calls := s.calls[request := Settled(s.calls[request].count)])
    case Verdict(request) =>
      var retry := if Ttl(s) > 0 then Ttl(s) else rule.windowSeconds;
      s.(calls := s.calls[request := if s.calls[request].count > rule.limit then Refused(retry) else Allowed])
    case Tick(ms) => s.(now := s.now + ms)
    case Evict => s.(key := Gone)
  }

  ghost predicate IsRun(s: State, steps: seq<Step>, rule: Rule)
    decreases |steps|
  {
    steps == [] || (Enabled(s, steps[0]) && IsRun(Apply(s, steps[0], rule), steps[1..], rule))
  }

  function After(s: State, steps: seq<Step>, rule: Rule): State
    requires IsRun(s, steps, rule)
    decreases |steps|
  {
    if steps == [] then s else After(Apply(s, steps[0], rule), steps[1..], rule)
  }

  // ---- counting admissions -----------------------------------------------

  function AdmittedIn(log: seq<Admission>, from: int, to: int): nat {
    if log == [] then 0 else
      AdmittedIn(log[..|log| - 1], from, to) + if from <= log[|log| - 1].time < to then 1 else 0
  }

  function AdmittedInLife(log: seq<Admission>, life: nat): nat {
    if log == [] then 0 else
      AdmittedInLife(log[..|log| - 1], life) + if log[|log| - 1].life == life then 1 else 0
  }

  // ---- what every step keeps ---------------------------------------------

  /** Lifetimes of the key start at least a window apart. */
  ghost predicate Apart(born: seq<int>, window: nat) {
    forall i, j :: 0 <= i < j < |born| ==> born[i] + window <= born[j]
  }

  /** Every lifetime that started did so at least age ago. */
  ghost predicate BornBy(born: seq<int>, age: nat, now: int) {
    forall i :: 0 <= i < |born| ==> born[i] + age <= now
  }

  /** The key lives on for at least a window after its lifetime started, and expires within a window from now. */
  ghost predicate KeyAge(s: State, rule: Rule) {
    match s.key
    case Gone => BornBy(s.born, rule.Window(), s.now)
    case Held(count, expiry) =>
      && count > 0 && s.born != []
      && (expiry.Some? ==> s.born[|s.born| - 1] + rule.Window() <= expiry.value <= s.now + rule.Window())
  }

  ghost predicate LivesApart(s: State, rule: Rule) {
    Apart(s.born, rule.Window()) && BornBy(s.born, 0, s.now) && KeyAge(s, rule)
  }

  /** An admission lies between the start of its lifetime and the start of the next. */
  ghost predicate InItsLife(a: Admission, born: seq<int>, now: int) {
    && a.life < |born| && born[a.life] <= a.time <= now
    && (a.life + 1 < |born| ==> a.time <= born[a.life + 1])
  }

  ghost predicate LogInLives(s: State) {
    forall i :: 0 <= i < |s.log| ==> InItsLife(s.log[i], s.born, s.now)
  }

  /** No lifetime admits more than the limit; the current one has admitted what its counter says. */
  ghost predicate LivesWithinLimit(s: State, rule: Rule) {
    && (forall life :: AdmittedInLife(s.log, life) <= rule.limit)
    && (s.key.Held? && s.born != [] ==>
          AdmittedInLife(s.log, |s.born| - 1) == if s.key.count < rule.limit then s.key.count else rule.limit)
  }

  predicate Admits(call: Call, rule: Rule) {
    match call
    case Counted(count) => count <= rule.limit
    case Settled(count) => count <= rule.limit
    case Allowed => true
    case Refused(_) => false
  }

  ghost predicate Logged(log: seq<Admission>, request: nat) {
    exists i :: 0 <= i < |log| && log[i].request == request
  }

  /** A call that is or will be allowed is exactly one whose request was admitted, once. */
  ghost predicate CallsLogged(s: State, rule: Rule) {
    && (forall request :: Logged(s.log, request) <==> request in s.calls && Admits(s.calls[request], rule))
    && (forall i, j :: 0 <= i < j < |s.log| ==> s.log[i].request != s.log[j].request)
  }

  /** A refused caller is told to wait between one second and a window. */
  ghost predicate RetriesBounded(s: State, rule: Rule) {
    forall request :: request in s.calls && s.calls[request].Refused? ==>
      1 <= s.calls[request].retryAfterSeconds <= rule.windowSeconds
  }

  ghost predicate Inv(s: State, rule: Rule) {
    LivesApart(s, rule) && LogInLives(s) && LivesWithinLimit(s, rule) && CallsLogged(s, rule) && RetriesBounded(s, rule)
  }

  lemma {:induction false} NoneInNewLife(log: seq<Admission>, life: nat)
    requires forall i :: 0 <= i < |log| ==> log[i].life < life
    ensures AdmittedInLife(log, life) == 0
  {
    if log != [] {
      NoneInNewLife(log[..|log| - 1], life);
    }
  }

  lemma {:induction false} OneMoreAdmitted(log: seq<Admission>, a: Admission)
    ensures forall life ::
      AdmittedInLife(log + [a], life) == AdmittedInLife(log, life) + if life == a.life then 1 else 0
  {
    assert (log + [a])[..|log|] == log;
  }

  lemma {:induction false} OneMoreLogged(log: seq<Admission>, a: Admission)
    ensures forall request :: Logged(log + [a], request) <==> Logged(log, request) || request == a.request
  {
    forall request | Logged(log, request) ensures Logged(log + [a], request) {
      var i :| 0 <= i < |log| && log[i].request == request;
      assert (log + [a])[i].request == request;
    }
    assert (log + [a])[|log|] == a;
  }

  lemma StepKeepsLives(s: State, step: Step, rule: Rule)
    requires rule.windowSeconds > 0 && Enabled(s, step) && LivesApart(s, rule)
    ensures LivesApart(Apply(s, step, rule), rule)
  {
    var s' := Apply(s, step, rule);
    match step {
      case Incr(_) =>
        assert s.key.Gone? ==> s'.born[|s.born|] == s.now;
      case Expire(_) =>
      case Verdict(_) =>
      case Tick(_) =>
      case Evict =>
        forall i | 0 <= i < |s.born| ensures s.born[i] + rule.Window() <= s.now {
          assert i < |s.born| - 1 ==> s.born[i] + rule.Window() <= s.born[|s.born| - 1];
        }
    }
  }

  lemma StepKeepsLog(s: State, step: Step, rule: Rule)
    requires Enabled(s, step) && LivesApart(s, rule) && LogInLives(s)
    ensures LogInLives(Apply(s, step, rule))
  {
    var s' := Apply(s, step, rule);
    forall i | 0 <= i < |s'.log| ensures InItsLife(s'.log[i], s'.born, s'.now) {
      if i < |s.log| {
        assert s'.log[i] == s.log[i] && InItsLife(s.log[i], s.born, s.now);
      }
    }
  }

  lemma StepKeepsLimit(s: State, step: Step, rule: Rule)
    requires Enabled(s, step) && KeyAge(s, rule) && LogInLives(s) && LivesWithinLimit(s, rule)
    ensures LivesWithinLimit(Apply(s, step, rule), rule)
  {
    if step.Incr? {
      IncrKeepsLimit(s, step.request, rule);
    }
  }

  lemma IncrKeepsLimit(s: State, request: nat, rule: Rule)
    requires Served(s) && request !in s.calls && KeyAge(s, rule) && LogInLives(s) && LivesWithinLimit(s, rule)
    ensures LivesWithinLimit(Apply(s, Incr(request), rule), rule)
  {
    hide AdmittedInLife;
    var s' := Apply(s, Incr(request), rule);
    forall i | 0 <= i < |s.log| ensures s.log[i].life < |s.born| {
      assert InItsLife(s.log[i], s.born, s.now);
    }
    NoneInNewLife(s.log, |s.born|);
    OneMoreAdmitted(s.log, Admission(request, s.now, |s'.born| - 1));
  }

  lemma StepKeepsCalls(s: State, step: Step, rule: Rule)
    requires Enabled(s, step) && KeyAge(s, rule) && CallsLogged(s, rule)
    ensures CallsLogged(Apply(s, step, rule), rule)
  {
    hide Logged;
    var s' := Apply(s, step, rule);
    if step.Incr? {
      OneMoreLogged(s.log, Admission(step.request, s.now, |s'.born| - 1));
      NotLogged(s.log, step.request);
    }
    forall request ensures Logged(s'.log, request) <==> request in s'.calls && Admits(s'.calls[request], rule) {
      assert Logged(s.log, request) <==> request in s.calls && Admits(s.calls[request], rule);
    }
  }

  lemma NotLogged(log: seq<Admission>, request: nat)
    requires !Logged(log, request)
    ensures forall i :: 0 <= i < |log| ==> log[i].request != request
  {
  }

  lemma StepKeepsRetries(s: State, step: Step, rule: Rule)
    requires rule.windowSeconds > 0 && Enabled(s, step) && KeyAge(s, rule) && RetriesBounded(s, rule)
    ensures RetriesBounded(Apply(s, step, rule), rule)
  {
  }

  lemma {:induction false} RunKeeps(s: State, steps: seq<Step>, rule: Rule)
    requires rule.windowSeconds > 0 && IsRun(s, steps, rule) && Inv(s, rule)
    ensures Inv(After(s, steps, rule), rule)
    decreases |steps|
  {
    hide Apply, Enabled, LivesApart, LogInLives, LivesWithinLimit, CallsLogged, RetriesBounded;
    if steps != [] {
      KeyAgeOf(s, rule);
      StepKeepsLives(s, steps[0], rule);
      StepKeepsLog(s, steps[0], rule);
      StepKeepsLimit(s, steps[0], rule);
      StepKeepsCalls(s, steps[0], rule);
      StepKeepsRetries(s, steps[0], rule);
      RunKeeps(Apply(s, steps[0], rule), steps[1..], rule);
    }
  }

  lemma KeyAgeOf(s: State, rule: Rule)
    requires LivesApart(s, rule)
    ensures KeyAge(s, rule)
  {
  }

  /** A state some run leads to. */
  ghost predicate Reachable(s: State, rule: Rule) {
    exists steps :: IsRun(INIT, steps, rule) && After(INIT, steps, rule) == s
  }

  lemma ReachableInv(s: State, rule: Rule)
    requires rule.windowSeconds > 0 && Reachable(s, rule)
    ensures Inv(s, rule)
  {
    hide Apply, Enabled;
    var steps :| IsRun(INIT, steps, rule) && After(INIT, steps, rule) == s;
    RunKeeps(INIT, steps, rule);
  }

  // ---- main results ------------------------------------------------------

  /** In every run, no lifetime of the key admits more than the limit. */
  lemma LifetimeBound(s: State, rule: Rule, life: nat)
    requires rule.windowSeconds > 0 && Reachable(s, rule)
    ensures AdmittedInLife(s.log, life) <= rule.limit
  {
    hide Reachable;
    ReachableInv(s, rule);
  }

  /** In every run, any half-open interval of one window sees at most twice the limit. */
  lemma WindowBound(s: State, rule: Rule, from: int)
    requires rule.windowSeconds > 0 && Reachable(s, rule)
    ensures AdmittedIn(s.log, from, from + 1000 * rule.windowSeconds) <= 2 * rule.limit
  {
    hide Reachable, AdmittedIn, AdmittedInLife;
    ReachableInv(s, rule);
    var to := from + rule.Window();
    if AdmittedIn(s.log, from, to) > 0 {
      var j := EarliestLife(s.log, from, to);
      var life := s.log[j].life;
      assert InItsLife(s.log[j], s.born, s.now);
      forall i | 0 <= i < |s.log| && from <= s.log[i].time < to ensures life <= s.log[i].life <= life + 1 {
        assert InItsLife(s.log[i], s.born, s.now);
        if s.log[i].life > life + 1 {
          LivesBetween(s, rule.Window(), s.log[j], s.log[i]);
        }
      }
      InTwoLives(s.log, from, to, life);
    }
  }

  /** With a whole lifetime in between, two admissions are a window apart. */
  lemma LivesBetween(s: State, window: nat, a: Admission, b: Admission)
    requires Apart(s.born, window) && InItsLife(a, s.born, s.now) && InItsLife(b, s.born, s.now) && b.life > a.life + 1
    ensures a.time + window <= b.time
  {
    assert s.born[a.life + 1] + window <= s.born[b.life];
  }

  lemma {:induction false} EarliestLife(log: seq<Admission>, from: int, to: int) returns (j: nat)
    requires AdmittedIn(log, from, to) > 0
    ensures j < |log| && from <= log[j].time < to
    ensures forall i :: 0 <= i < |log| && from <= log[i].time < to ==> log[j].life <= log[i].life
  {
    var n := |log| - 1;
    if AdmittedIn(log[..n], from, to) == 0 {
      NoneIn(log[..n], from, to);
      j := n;
    } else {
      j := EarliestLife(log[..n], from, to);
      if from <= log[n].time < to && log[n].life < log[j].life {
        j := n;
      }
    }
  }

  lemma {:induction false} NoneIn(log: seq<Admission>, from: int, to: int)
    requires AdmittedIn(log, from, to) == 0
    ensures forall i :: 0 <= i < |log| ==> !(from <= log[i].time < to)
  {
    if log != [] {
      NoneIn(log[..|log| - 1], from, to);
    }
  }

  lemma {:induction false} InTwoLives(log: seq<Admission>, from: int, to: int, life: nat)
    requires forall i :: 0 <= i < |log| && from <= log[i].time < to ==> life <= log[i].life <= life + 1
    ensures AdmittedIn(log, from, to) <= AdmittedInLife(log, life) + AdmittedInLife(log, life + 1)
  {
    if log != [] {
      InTwoLives(log[..|log| - 1], from, to, life);
    }
  }

  /**
   In every run, an allowed request was admitted, exactly once; a refused one never was, and is told to wait
   1 to windowSeconds.
   */
  lemma AnswersAreLogged(s: State, rule: Rule, request: nat)
    requires rule.windowSeconds > 0 && Reachable(s, rule) && request in s.calls
    ensures s.calls[request].Allowed? ==> Logged(s.log, request)
    ensures s.calls[request].Refused?
      ==> !Logged(s.log, request) && 1 <= s.calls[request].retryAfterSeconds <= rule.windowSeconds
    ensures forall i, j :: 0 <= i < j < |s.log| ==> s.log[i].request != s.log[j].request
  {
    hide Reachable, Logged;
    ReachableInv(s, rule);
  }

  /**
   A counted call beyond the limit is refused, and told to wait the nearest second of what the key still has to
   live; or a whole window, when that rounds to nothing or the key has no expiry.
   */
  lemma RefusalWaits(s: State, rule: Rule, request: nat)
    requires Enabled(s, Verdict(request))
    ensures var call := Apply(s, Verdict(request), rule).calls[request];
      if s.calls[request].count <= rule.limit then call == Allowed
      else
        && call.Refused?
        && if s.key.Held? && s.key.expiry.Some? && s.key.expiry.value - s.now >= 500
           then -500 <= s.key.expiry.value - s.now - 1000 * call.retryAfterSeconds < 500
           else call.retryAfterSeconds == rule.windowSeconds
  {
  }

  /** Only EXPIRE sets when the key ends, a window of seconds from then; no other command moves it. */
  lemma ExpirySet(s: State, rule: Rule, step: Step)
    requires Enabled(s, step) && Apply(s, step, rule).key.Held?
    ensures var expiry := Apply(s, step, rule).key.expiry;
      if step.Expire? then expiry == Some(s.now + 1000 * rule.windowSeconds)
      else expiry == if s.key.Held? then s.key.expiry else None
  {
  }

  /** The current lifetime of the key has admitted the limit. */
  ghost predicate Full(s: State, rule: Rule) {
    s.key.Held? && s.born != [] && AdmittedInLife(s.log, |s.born| - 1) == rule.limit
  }

  /** In every run, a request is turned away only when its lifetime has already admitted the limit. */
  lemma AdmittedWhileRoom(s: State, rule: Rule, request: nat)
    requires rule.windowSeconds > 0 && Reachable(s, rule) && Enabled(s, Incr(request))
    ensures Logged(Apply(s, Incr(request), rule).log, request) <==>
      rule.limit > 0 && !Full(s, rule)
  {
    hide Reachable, AdmittedInLife;
    ReachableInv(s, rule);
    OneMoreLogged(s.log, Admission(request, s.now, |Apply(s, Incr(request), rule).born| - 1));
  }

  // ---- a client that stops before it sets the expiry -----------------------

  /** The counter is full, it never expires, and at most the stopped client still has an expiry to set. */
  ghost predicate Stuck(s: State, rule: Rule, stopped: nat) {
    && s.key.Held? && s.key.expiry.None? && s.key.count >= rule.limit && s.key.count > 0
    && forall request :: request in s.calls && s.calls[request].Counted? ==> request == stopped
  }

  /** As long as that client takes no step, the key stays stuck and admits nobody. */
  lemma {:induction false} StuckForever(s: State, steps: seq<Step>, rule: Rule, stopped: nat)
    requires IsRun(s, steps, rule) && Stuck(s, rule, stopped) && Expire(stopped) !in steps
    ensures Stuck(After(s, steps, rule), rule, stopped) && After(s, steps, rule).log == s.log
    decreases |steps|
  {
    if steps != [] {
      assert steps[0] in steps && forall step :: step in steps[1..] ==> step in steps;
      StuckStep(s, steps[0], rule, stopped);
      StuckForever(Apply(s, steps[0], rule), steps[1..], rule, stopped);
    }
  }

  lemma StuckStep(s: State, step: Step, rule: Rule, stopped: nat)
    requires Enabled(s, step) && Stuck(s, rule, stopped) && step != Expire(stopped)
    ensures Stuck(Apply(s, step, rule), rule, stopped) && Apply(s, step, rule).log == s.log
  {
  }

  /** The requests 0 to n - 1 send their INCR, and nothing else happens. */
  function Crowd(n: nat): (r: seq<Step>)
    ensures |r| == n
  {
    seq(n, i requires 0 <= i < n => Incr(i))
  }

  /**
   Such a state is reached for every positive limit: as many requests as the limit, and the first client stops
   after its INCR.
   */
  lemma StuckIsReached(rule: Rule)
    requires rule.limit > 0
    ensures IsRun(INIT, Crowd(rule.limit), rule)
    ensures var s := After(INIT, Crowd(rule.limit), rule);
      Reachable(s, rule) && Stuck(s, rule, 0) && 0 in s.calls && s.calls[0] == Counted(1)
  {
    CrowdCounts(rule, rule.limit);
  }

  lemma CrowdGrows(n: nat)
    requires n > 0
    ensures Crowd(n) == Crowd(n - 1) + [Incr(n - 1)]
  {
  }

  lemma {:induction false} CrowdCounts(rule: Rule, n: nat)
    requires n > 0
    ensures IsRun(INIT, Crowd(n), rule)
    ensures var s := After(INIT, Crowd(n), rule);
      && s.key == Held(n, None)
      && (forall request: nat :: request in s.calls <==> request < n)
      && s.calls[0] == Counted(1)
      && forall request: nat :: 0 < request < n ==> s.calls[request].Settled?
  {
    if n == 1 {
      assert Crowd(1) == [] + [Incr(0)];
      RunOneMore(INIT, [], Incr(0), rule);
      assert After(INIT, Crowd(1), rule) == Apply(INIT, Incr(0), rule);
      assert Apply(INIT, Incr(0), rule).calls == map[0 := Counted(1)];
    } else {
      CrowdCounts(rule, n - 1);
      hide After, IsRun, Crowd;
      CrowdGrows(n);
      RunOneMore(INIT, Crowd(n - 1), Incr(n - 1), rule);
    }
  }

  /** A run can be extended by a step enabled at its end. */
  lemma {:induction false} RunOneMore(s: State, steps: seq<Step>, step: Step, rule: Rule)
    requires IsRun(s, steps, rule) && Enabled(After(s, steps, rule), step)
    ensures IsRun(s, steps + [step], rule)
    ensures After(s, steps + [step], rule) == Apply(After(s, steps, rule), step, rule)
    decreases |steps|
  {
    hide Apply, Enabled;
    if steps == [] {
      assert [step][1..] == [];
    } else {
      assert (steps + [step])[0] == steps[0] && (steps + [step])[1..] == steps[1..] + [step];
      RunOneMore(Apply(s, steps[0], rule), steps[1..], step, rule);
    }
  }

  /** Once the client does set the expiry, a window later the key is dropped and the next request is admitted. */
  lemma StuckRecovers(s: State, rule: Rule, stopped: nat, next: nat)
    requires rule.limit > 0 && Stuck(s, rule, stopped)
    requires stopped in s.calls && s.calls[stopped].Counted? && next !in s.calls
    ensures var steps := [Expire(stopped), Tick(rule.Window()), Evict, Incr(next)];
      IsRun(s, steps, rule) && Logged(After(s, steps, rule).log, next)
  {
    var s1 := Apply(s, Expire(stopped), rule);
    var s2 := Apply(s1, Tick(rule.Window()), rule);
    var s3 := Apply(s2, Evict, rule);
    RunOneMore(s, [], Expire(stopped), rule);
    RunOneMore(s, [Expire(stopped)], Tick(rule.Window()), rule);
    RunOneMore(s, [Expire(stopped), Tick(rule.Window())], Evict, rule);
    RunOneMore(s, [Expire(stopped), Tick(rule.Window()), Evict], Incr(next), rule);
    assert [] + [Expire(stopped)] == [Expire(stopped)];
    assert [Expire(stopped)] + [Tick(rule.Window())] == [Expire(stopped), Tick(rule.Window())];
    assert [Expire(stopped), Tick(rule.Window())] + [Evict] == [Expire(stopped), Tick(rule.Window()), Evict];
    assert [Expire(stopped), Tick(rule.Window()), Evict] + [Incr(next)]
      == [Expire(stopped), Tick(rule.Window()), Evict, Incr(next)];
    OneMoreLogged(s3.log, Admission(next, s3.now, |s3.born|));
  }

  // ---- one call from start to finish ---------------------------------------

  /** The shared Redis key and its calls, as the function sees them between its awaits. */
  class Limiter {
    var s: State
    const rule: Rule

    constructor (rule: Rule)
      ensures s == INIT && this.rule == rule
    {
      s := INIT;
      this.rule := rule;
    }

    method Take(step: Step)
      requires Enabled(s, step)
      modifies this`s
      ensures s == Apply(old(s), step, rule)
    {
      s := Apply(s, step, rule);
    }

    /** checkRateLimit when nothing comes in between: INCR, EXPIRE on the first count, then the verdict. */
    method CheckRateLimit(request: nat) returns (allowed: bool, retryAfterSeconds: int)
      requires Served(s) && request !in s.calls && (s.key.Held? ==> s.key.count > 0)
      modifies this`s
      ensures var steps := UndisturbedCall(old(s), request);
        IsRun(old(s), steps, rule) && s == After(old(s), steps, rule)
      ensures request in s.calls && s.calls[request] == if allowed then Allowed else Refused(retryAfterSeconds)
      ensures allowed <==> old(s.key.Gone? || s.key.count < rule.limit) && rule.limit > 0
    {
      ghost var steps := UndisturbedCall(s, request);
      Take(Incr(request));
      var count := s.key.count;
      if count == 1 {
        Take(Expire(request));
      }
      var ttl := Ttl(s);
      Take(Verdict(request));
      allowed := count <= rule.limit;
      retryAfterSeconds := if ttl > 0 then ttl else rule.windowSeconds;
      ThreeSteps(old(s), steps, rule);
    }
  }

  function UndisturbedCall(s: State, request: nat): seq<Step> {
    if s.key.Gone? then [Incr(request), Expire(request), Verdict(request)] else [Incr(request), Verdict(request)]
  }

  lemma ThreeSteps(s: State, steps: seq<Step>, rule: Rule)
    requires 2 <= |steps| <= 3
    ensures IsRun(s, steps, rule) <==>
      && Enabled(s, steps[0]) && Enabled(Apply(s, steps[0], rule), steps[1])
      && (|steps| == 3 ==> Enabled(Apply(Apply(s, steps[0], rule), steps[1], rule), steps[2]))
    ensures IsRun(s, steps, rule) ==> var s2 := Apply(Apply(s, steps[0], rule), steps[1], rule);
      After(s, steps, rule) == if |steps| == 3 then Apply(s2, steps[2], rule) else s2
  {
    hide Apply, Enabled, IsRun, After;
    Unroll(s, steps, rule);
    if Enabled(s, steps[0]) {
      var s1 := Apply(s, steps[0], rule);
      Unroll(s1, steps[1..], rule);
      assert steps[1..][0] == steps[1] && steps[1..][1..] == steps[2..];
      if Enabled(s1, steps[1]) {
        Unroll(Apply(s1, steps[1], rule), steps[2..], rule);
        if |steps| == 3 && Enabled(Apply(s1, steps[1], rule), steps[2]) {
          Unroll(Apply(Apply(s1, steps[1], rule), steps[2], rule), steps[2..][1..], rule);
        }
      }
    }
  }

  lemma {:induction false} Unroll(s: State, steps: seq<Step>, rule: Rule)
    ensures IsRun(s, steps, rule)
      <==> steps == [] || (Enabled(s, steps[0]) && IsRun(Apply(s, steps[0], rule), steps[1..], rule))
    ensures IsRun(s, steps, rule) ==>
      After(s, steps, rule) == if steps == [] then s else After(Apply(s, steps[0], rule), steps[1..], rule)
  {
  }
}
