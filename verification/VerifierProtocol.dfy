/** verifier.go under concurrency: any number of threads run verifyInner against one verifier,
    interleaved at its lock sections. Clock readings are arbitrary, and may be stale by the time
    the store's lock is taken. */
module VerifierProtocol {
  import opened Words
  import opened ReplayStore
  import opened ReplayRuns
  import opened ReplayBounds
  import opened Verifier

  datatype Config = Config(maxAttempts: uint32, ttl: int, maxSize: nat)

  /** Where a thread is between two lock sections. */
  datatype Thread =
    | Idle
    | Gated(call: Call)                  // past the attempts check
    | Checking(call: Call, now: int)     // compared equal, clock read, store lock not yet taken
    | Failing(call: Call)                // about to increment attempts and return false
    | Succeeding(call: Call)             // about to zero attempts and return true

  datatype Answer = Answer(call: Call, result: bool)

  /** The shared state, with the events the store has seen and the answers given so far. */
  datatype System = System(
    attempts: uint32, store: Store, threads: seq<Thread>, log: seq<Event>, answers: seq<Answer>)

  datatype Action =
    | Enter(t: nat, call: Call)
    | Compare(t: nat, now: int)
    | StoreCheck(t: nat)
    | StoreFails(t: nat)
    | Punish(t: nat)
    | Celebrate(t: nat)
    | ResetAttempts
    | ClearStore

  function Start(cfg: Config, n: nat): System {
    System(0, Empty(cfg.maxSize), seq(n, i => Idle), [], [])
  }

  predicate Enabled(s: System, a: Action) {
    match a
    case Enter(t, _) => t < |s.threads| && s.threads[t].Idle?
    case Compare(t, _) => t < |s.threads| && s.threads[t].Gated?
    case StoreCheck(t) => t < |s.threads| && s.threads[t].Checking?
    case StoreFails(t) => t < |s.threads| && s.threads[t].Checking?
    case Punish(t) => t < |s.threads| && s.threads[t].Failing?
    case Celebrate(t) => t < |s.threads| && s.threads[t].Succeeding?
    case ResetAttempts => true
    case ClearStore => true
  }

  function Apply(cfg: Config, s: System, a: Action): System
    requires Enabled(s, a)
  {
    match a
    case Enter(t, call) =>
      if s.attempts >= cfg.maxAttempts then s.(answers := s.answers + [Answer(call, false)])
      else s.(threads := s.threads[t := Gated(call)])
    case Compare(t, now) =>
      var call := s.threads[t].call;
      s.(threads := s.threads[t := if Matches(call) then Checking(call, now) else Failing(call)])
    case StoreCheck(t) =>
      var call := s.threads[t].call;
      var e := Record(KeyOf(call), cfg.ttl, s.threads[t].now);
      s.(store := Step(s.store, e), log := s.log + [e],
         threads := s.threads[t := if OutcomeOf(s.store, e) == Accepted then Succeeding(call) else Failing(call)])
    case StoreFails(t) =>
      s.(threads := s.threads[t := Failing(s.threads[t].call)])
    case Punish(t) =>
      s.(attempts := Increment(s.attempts), threads := s.threads[t := Idle],
         answers := s.answers + [Answer(s.threads[t].call, false)])
    case Celebrate(t) =>
      s.(attempts := 0, threads := s.threads[t := Idle],
         answers := s.answers + [Answer(s.threads[t].call, true)])
    case ResetAttempts => s.(attempts := 0)
    case ClearStore => s.(store := Step(s.store, Clear), log := s.log + [Clear])
  }

  datatype Execution = Stuck | Reached(system: System)

  /** The state after a sequence of actions, if each was enabled when taken. */
  function Exec(cfg: Config, s: System, acts: seq<Action>): Execution {
    if acts == [] then Reached(s)
    else match Exec(cfg, s, acts[..|acts| - 1])
         case Stuck => Stuck
         case Reached(r) =>
           if Enabled(r, acts[|acts| - 1]) then Reached(Apply(cfg, r, acts[|acts| - 1])) else Stuck
  }

  lemma ExecSnoc(cfg: Config, s: System, acts: seq<Action>, a: Action)
    requires Exec(cfg, s, acts).Reached? && Enabled(Exec(cfg, s, acts).system, a)
    ensures Exec(cfg, s, acts + [a]) == Reached(Apply(cfg, Exec(cfg, s, acts).system, a))
  {
    assert (acts + [a])[..|acts|] == acts;
  }

  lemma ExecNone(cfg: Config, s: System)
    ensures Exec(cfg, s, []) == Reached(s)
  {
  }

  // ---------- one undisturbed call ----------

  /** A thread that runs its whole call without interruption does what VerifyCall says. */
  lemma SequentialCall(cfg: Config, s: System, t: nat, c: Call, now: int)
    requires t < |s.threads| && s.threads[t].Idle?
    ensures exists acts :: Exec(cfg, s, acts).Reached? &&
              var r := Exec(cfg, s, acts).system;
              var v := VerifyCall(cfg.maxAttempts, cfg.ttl, s.attempts, s.store, c, now);
              && r.threads == s.threads && r.attempts == v.0 && r.store == v.1
              && r.answers == s.answers + [Answer(c, v.2)]
  {
    hide Check, Exec;
    ExecNone(cfg, s);
    var a1: seq<Action> := [] + [Enter(t, c)];
    ExecSnoc(cfg, s, [], Enter(t, c));
    if s.attempts >= cfg.maxAttempts {
      assert Exec(cfg, s, a1).system.threads == s.threads;
    } else {
      var a2 := a1 + [Compare(t, now)];
      ExecSnoc(cfg, s, a1, Compare(t, now));
      var a3 := a2;
      if Matches(c) {
        a3 := a2 + [StoreCheck(t)];
        ExecSnoc(cfg, s, a2, StoreCheck(t));
      }
      var r := Exec(cfg, s, a3).system;
      var last := if r.threads[t].Succeeding? then Celebrate(t) else Punish(t);
      ExecSnoc(cfg, s, a3, last);
      assert Exec(cfg, s, a3 + [last]).system.threads == s.threads;
    }
  }

  // ---------- the store's history ----------

  lemma {:induction false} PrefixState(maxSize: nat, log: seq<Event>, e: Event, i: nat)
    requires i <= |log|
    ensures StateAt(maxSize, log + [e], i) == StateAt(maxSize, log, i)
  {
    hide Step;
    if i > 0 {
      PrefixState(maxSize, log, e, i - 1);
    }
  }

  /** The number of accepts of k in a history. */
  function AcceptCount(maxSize: nat, log: seq<Event>, k: Key, n: nat): nat
    requires n <= |log|
  {
    if n == 0 then 0
    else AcceptCount(maxSize, log, k, n - 1) +
         (if Accepts(maxSize, log, n - 1) && log[n - 1].Record? && log[n - 1].key == k then 1 else 0)
  }

  lemma {:induction false} PrefixCount(maxSize: nat, log: seq<Event>, e: Event, k: Key, n: nat)
    requires n <= |log|
    ensures AcceptCount(maxSize, log + [e], k, n) == AcceptCount(maxSize, log, k, n)
  {
    hide StateAt, OutcomeOf;
    if n > 0 {
      PrefixCount(maxSize, log, e, k, n - 1);
      PrefixState(maxSize, log, e, n - 1);
    }
  }

  /** One more event on the log: the count grows exactly when it accepts k. */
  lemma CountSnoc(maxSize: nat, log: seq<Event>, e: Event, k: Key)
    ensures var log' := log + [e];
            AcceptCount(maxSize, log', k, |log'|) == AcceptCount(maxSize, log, k, |log|) +
            if e.Record? && e.key == k && OutcomeOf(StateAt(maxSize, log, |log|), e) == Accepted then 1 else 0
  {
    hide StateAt, OutcomeOf;
    PrefixCount(maxSize, log, e, k, |log|);
    PrefixState(maxSize, log, e, |log|);
  }

  function TrueAnswers(answers: seq<Answer>, k: Key): nat {
    if answers == [] then 0
    else TrueAnswers(answers[..|answers| - 1], k) +
         (if answers[|answers| - 1].result && KeyOf(answers[|answers| - 1].call) == k then 1 else 0)
  }

  lemma TrueAnswersSnoc(answers: seq<Answer>, r: Answer, k: Key)
    ensures TrueAnswers(answers + [r], k) == TrueAnswers(answers, k) + if r.result && KeyOf(r.call) == k then 1 else 0
  {
    assert (answers + [r])[..|answers|] == answers;
  }

  /** The number of threads for which p holds. */
  function Count(threads: seq<Thread>, p: Thread -> bool): (n: nat)
    ensures n <= |threads|
  {
    if threads == [] then 0
    else Count(threads[..|threads| - 1], p) + (if p(threads[|threads| - 1]) then 1 else 0)
  }

  lemma {:induction false} CountUpdate(threads: seq<Thread>, t: nat, th: Thread, p: Thread -> bool)
    requires t < |threads|
    ensures Count(threads[t := th], p) ==
            Count(threads, p) - (if p(threads[t]) then 1 else 0) + (if p(th) then 1 else 0)
  {
    var last := |threads| - 1;
    if t == last {
      assert threads[t := th][..last] == threads[..last];
    } else {
      CountUpdate(threads[..last], t, th, p);
      assert threads[t := th][..last] == threads[..last][t := th];
    }
  }

  lemma {:induction false} CountIdle(n: nat, p: Thread -> bool)
    requires !p(Idle)
    ensures Count(seq(n, i => Idle), p) == 0
  {
    if n > 0 {
      CountIdle(n - 1, p);
      assert seq(n, i => Idle)[..n - 1] == seq(n - 1, i => Idle);
    }
  }

  function Winning(k: Key): Thread -> bool {
    (th: Thread) => th.Succeeding? && KeyOf(th.call) == k
  }

  /** What every reachable state satisfies: the store is the one its history produces, only
      matching calls got to it, and the accepts of a key are its true answers, given or due. */
  ghost predicate Consistent(cfg: Config, s: System, k: Key) {
    && s.store == StateAt(cfg.maxSize, s.log, |s.log|)
    && (forall t :: 0 <= t < |s.threads| && (s.threads[t].Checking? || s.threads[t].Succeeding?) ==>
          Matches(s.threads[t].call))
    && TrueAnswers(s.answers, k) + Count(s.threads, Winning(k)) == AcceptCount(cfg.maxSize, s.log, k, |s.log|)
  }

  lemma StartConsistent(cfg: Config, n: nat, k: Key)
    ensures Consistent(cfg, Start(cfg, n), k)
  {
    CountIdle(n, Winning(k));
  }

  lemma StoreEventConsistent(cfg: Config, s: System, e: Event, k: Key)
    requires s.store == StateAt(cfg.maxSize, s.log, |s.log|)
    ensures Step(s.store, e) == StateAt(cfg.maxSize, s.log + [e], |s.log + [e]|)
  {
    hide Step;
    PrefixState(cfg.maxSize, s.log, e, |s.log|);
  }

  lemma ApplyConsistent(cfg: Config, s: System, a: Action, k: Key)
    requires Consistent(cfg, s, k) && Enabled(s, a)
    ensures Consistent(cfg, Apply(cfg, s, a), k)
  {
    hide Step, OutcomeOf, StateAt, AcceptCount, TrueAnswers, Count, KeyOf;
    var s' := Apply(cfg, s, a);
    match a {
      case Enter(t, call) =>
        if s.attempts >= cfg.maxAttempts {
          TrueAnswersSnoc(s.answers, Answer(call, false), k);
        } else {
          CountUpdate(s.threads, t, Gated(call), Winning(k));
        }
      case Compare(t, now) =>
        CountUpdate(s.threads, t, s'.threads[t], Winning(k));
      case StoreCheck(t) =>
        var e := s'.log[|s.log|];
        StoreEventConsistent(cfg, s, e, k);
        CountSnoc(cfg.maxSize, s.log, e, k);
        CountUpdate(s.threads, t, s'.threads[t], Winning(k));
      case StoreFails(t) =>
        CountUpdate(s.threads, t, s'.threads[t], Winning(k));
      case Punish(t) =>
        CountUpdate(s.threads, t, Idle, Winning(k));
        TrueAnswersSnoc(s.answers, Answer(s.threads[t].call, false), k);
      case Celebrate(t) =>
        CountUpdate(s.threads, t, Idle, Winning(k));
        TrueAnswersSnoc(s.answers, Answer(s.threads[t].call, true), k);
      case ResetAttempts =>
      case ClearStore =>
        StoreEventConsistent(cfg, s, Clear, k);
        CountSnoc(cfg.maxSize, s.log, Clear, k);
    }
  }

  lemma {:induction false} ReachableConsistent(cfg: Config, n: nat, acts: seq<Action>, k: Key)
    requires Exec(cfg, Start(cfg, n), acts).Reached?
    ensures Consistent(cfg, Exec(cfg, Start(cfg, n), acts).system, k)
  {
    hide Apply, Enabled, Consistent, Start;
    if acts == [] {
      StartConsistent(cfg, n, k);
    } else {
      var front := acts[..|acts| - 1];
      ReachableConsistent(cfg, n, front, k);
      ApplyConsistent(cfg, Exec(cfg, Start(cfg, n), front).system, acts[|acts| - 1], k);
    }
  }

  /** Answers of true, given or due, are for calls whose code is the expected one and whose
      request context is the issued one. */
  ghost predicate OnlyRightAnswers(s: System) {
    && (forall i :: 0 <= i < |s.answers| && s.answers[i].result ==>
          s.answers[i].call.code == s.answers[i].call.expected && s.answers[i].call.issued == s.answers[i].call.request)
    && (forall t :: 0 <= t < |s.threads| && (s.threads[t].Checking? || s.threads[t].Succeeding?) ==>
          s.threads[t].call.code == s.threads[t].call.expected && s.threads[t].call.issued == s.threads[t].call.request)
  }

  /** Over every interleaving, true is answered only to a call whose code and context are right. */
  lemma {:induction false} TrueAnswersAreRight(cfg: Config, n: nat, acts: seq<Action>)
    requires Exec(cfg, Start(cfg, n), acts).Reached?
    ensures OnlyRightAnswers(Exec(cfg, Start(cfg, n), acts).system)
  {
    hide Step, OutcomeOf;
    if acts != [] {
      TrueAnswersAreRight(cfg, n, acts[..|acts| - 1]);
    }
  }

  // ---------- exactly once ----------

  /** Event i is the first accept of k, nothing clears the store, all later readings are below
      its expiry, and afterwards no call evicts or too few other keys are accepted for an
      eviction to reach k. */
  ghost predicate Undisturbed(cfg: Config, log: seq<Event>, i: nat, k: Key) {
    && i < |log| && log[i].Record? && log[i].key == k && Accepts(cfg.maxSize, log, i)
    && AcceptCount(cfg.maxSize, log, k, i) == 0
    && Within(log, i, |log|)
    && (Unevicted(cfg.maxSize, log, i, |log|) || |Others(cfg.maxSize, log, i, |log|, k)| < Needed(cfg.maxSize))
  }

  lemma {:induction false} OthersGrow(maxSize: nat, log: seq<Event>, i: nat, j: nat, n: nat, k: Key)
    requires j <= n <= |log|
    ensures Others(maxSize, log, i, j, k) <= Others(maxSize, log, i, n, k)
  {
    hide Accepts;
    if j < n {
      OthersGrow(maxSize, log, i, j, n - 1, k);
    }
  }

  lemma {:induction false} OneAccept(cfg: Config, log: seq<Event>, i: nat, k: Key, n: nat)
    requires Undisturbed(cfg, log, i, k) && i < n <= |log|
    ensures AcceptCount(cfg.maxSize, log, k, n) == 1
  {
    hide Accepts, Others, Needed;
    if n > i + 1 {
      OneAccept(cfg, log, i, k, n - 1);
      var j := n - 1;
      if Accepts(cfg.maxSize, log, j) && log[j].key == k {
        EvictionBound(cfg.maxSize, log, i, j);
        OthersGrow(cfg.maxSize, log, i, j, |log|, k);
        SubsetSize(Others(cfg.maxSize, log, i, j, k), Others(cfg.maxSize, log, i, |log|, k));
      }
    }
  }

  /** Exactly once: over every interleaving of any number of threads, calls on one code and
      context return true at most once while the first accept is undisturbed. */
  lemma ExactlyOnce(cfg: Config, n: nat, acts: seq<Action>, k: Key, i: nat)
    requires Exec(cfg, Start(cfg, n), acts).Reached?
    requires Undisturbed(cfg, Exec(cfg, Start(cfg, n), acts).system.log, i, k)
    ensures TrueAnswers(Exec(cfg, Start(cfg, n), acts).system.answers, k) <= 1
  {
    hide Exec, Undisturbed, AcceptCount, TrueAnswers;
    ReachableConsistent(cfg, n, acts, k);
    var log := Exec(cfg, Start(cfg, n), acts).system.log;
    assert i < |log| by { UndisturbedIndex(cfg, log, i, k); }
    OneAccept(cfg, log, i, k, |log|);
  }

  lemma UndisturbedIndex(cfg: Config, log: seq<Event>, i: nat, k: Key)
    requires Undisturbed(cfg, log, i, k)
    ensures i < |log|
  {
  }

  /** Mismatched codes or contexts never reach the store: a step that changes it is the store
      check of a matching call, or an administrative clearing. */
  lemma OnlyMatchesTouchStore(cfg: Config, n: nat, acts: seq<Action>, a: Action)
    requires Exec(cfg, Start(cfg, n), acts).Reached?
    requires Enabled(Exec(cfg, Start(cfg, n), acts).system, a)
    ensures var s := Exec(cfg, Start(cfg, n), acts).system;
            Apply(cfg, s, a).store != s.store ==>
              a.ClearStore? || (a.StoreCheck? && Matches(s.threads[a.t].call))
  {
    hide Exec, Step, OutcomeOf, StateAt, AcceptCount, TrueAnswers, Count;
    ReachableConsistent(cfg, n, acts, []);
  }

  // ---------- the rate limiter ----------

  function InFlight(threads: seq<Thread>): (n: nat)
    ensures n <= |threads|
  {
    Count(threads, (th: Thread) => !th.Idle?)
  }

  lemma InFlightUpdate(threads: seq<Thread>, t: nat, th: Thread)
    requires t < |threads|
    ensures InFlight(threads[t := th]) ==
            InFlight(threads) - (if threads[t].Idle? then 0 else 1) + (if th.Idle? then 0 else 1)
  {
    hide Count;
    CountUpdate(threads, t, th, (th: Thread) => !th.Idle?);
  }

  /** attempts plus the calls past the gate. */
  ghost predicate Limited(cfg: Config, s: System, n: nat) {
    |s.threads| == n && s.attempts + InFlight(s.threads) <= cfg.maxAttempts + n - 1
  }

  lemma ApplyLimited(cfg: Config, s: System, a: Action, n: nat)
    requires n >= 1 && Limited(cfg, s, n) && Enabled(s, a)
    ensures Limited(cfg, Apply(cfg, s, a), n)
  {
    hide InFlight, Step, OutcomeOf, Matches;
    if a.Enter? || a.Compare? || a.StoreCheck? || a.StoreFails? || a.Punish? || a.Celebrate? {
      InFlightUpdate(s.threads, a.t, Apply(cfg, s, a).threads[a.t]);
      assert s.threads[a.t := s.threads[a.t]] == s.threads;
    }
  }

  /** Over every interleaving of n threads, attempts plus calls past the gate is at most
      maxAttempts - 1 + n. */
  lemma {:induction false} RateLimit(cfg: Config, n: nat, acts: seq<Action>)
    requires n >= 1
    requires Exec(cfg, Start(cfg, n), acts).Reached?
    ensures Limited(cfg, Exec(cfg, Start(cfg, n), acts).system, n)
  {
    hide Apply, Enabled, Limited;
    if acts == [] {
      StartLimited(cfg, n);
    } else {
      RateLimit(cfg, n, acts[..|acts| - 1]);
      ApplyLimited(cfg, Exec(cfg, Start(cfg, n), acts[..|acts| - 1]).system, acts[|acts| - 1], n);
    }
  }

  lemma StartLimited(cfg: Config, n: nat)
    requires n >= 1
    ensures Limited(cfg, Start(cfg, n), n)
  {
    CountIdle(n, (th: Thread) => !th.Idle?);
  }

  /** One thread alone: attempts never exceeds maxAttempts. */
  lemma SequentialLimit(cfg: Config, acts: seq<Action>)
    requires Exec(cfg, Start(cfg, 1), acts).Reached?
    ensures Exec(cfg, Start(cfg, 1), acts).system.attempts <= cfg.maxAttempts
  {
    hide Exec, InFlight;
    RateLimit(cfg, 1, acts);
  }

  // ---------- can the counter wrap? ----------

  /** A punishing step would take the 32-bit counter back to zero. */
  ghost predicate AboutToWrap(s: System) {
    s.attempts + 1 == TWO_32 && exists t: nat :: Enabled(s, Punish(t))
  }

  ghost predicate NeverWraps(cfg: Config, n: nat) {
    forall acts :: Exec(cfg, Start(cfg, n), acts).Reached? ==> !AboutToWrap(Exec(cfg, Start(cfg, n), acts).system)
  }

  /** A state with the given attempts; the threads from `from` below `to` are about to fail, the rest idle. */
  ghost predicate Staged(s: System, n: nat, attempts: int, from: nat, to: nat) {
    && |s.threads| == n && s.attempts == attempts
    && forall t :: 0 <= t < n ==> if from <= t < to then s.threads[t].Failing? else s.threads[t].Idle?
  }

  ghost predicate Arrives(cfg: Config, n: nat, attempts: int, from: nat, to: nat) {
    exists acts :: Exec(cfg, Start(cfg, n), acts).Reached? &&
      Staged(Exec(cfg, Start(cfg, n), acts).system, n, attempts, from, to)
  }

  const MISMATCH: Call := Call([], [0], [], [])

  /** One more thread passes the gate and fails its comparison. */
  lemma OneMoreFails(cfg: Config, n: nat, attempts: nat, to: nat)
    requires Arrives(cfg, n, attempts, 0, to) && to < n && attempts < cfg.maxAttempts
    ensures Arrives(cfg, n, attempts, 0, to + 1)
  {
    hide Exec, Step, OutcomeOf;
    var s0 := Start(cfg, n);
    var acts :| Exec(cfg, s0, acts).Reached? && Staged(Exec(cfg, s0, acts).system, n, attempts, 0, to);
    ExecSnoc(cfg, s0, acts, Enter(to, MISMATCH));
    var acts' := acts + [Enter(to, MISMATCH)];
    ExecSnoc(cfg, s0, acts', Compare(to, 0));
    assert Staged(Exec(cfg, s0, acts' + [Compare(to, 0)]).system, n, attempts, 0, to + 1);
  }

  /** The first failing thread is punished. */
  lemma OneMorePunished(cfg: Config, n: nat, attempts: nat, from: nat, to: nat)
    requires Arrives(cfg, n, attempts, from, to) && from < to <= n && attempts + 1 < TWO_32
    ensures Arrives(cfg, n, attempts + 1, from + 1, to)
  {
    hide Exec, Step, OutcomeOf;
    var s0 := Start(cfg, n);
    var acts :| Exec(cfg, s0, acts).Reached? && Staged(Exec(cfg, s0, acts).system, n, attempts, from, to);
    ExecSnoc(cfg, s0, acts, Punish(from));
    assert Staged(Exec(cfg, s0, acts + [Punish(from)]).system, n, attempts + 1, from + 1, to);
  }

  lemma {:induction false} AttemptsRise(cfg: Config, n: nat, attempts: nat)
    requires n >= 1 && attempts < cfg.maxAttempts
    ensures Arrives(cfg, n, attempts, 0, 0)
  {
    hide Exec;
    if attempts == 0 {
      ExecNone(cfg, Start(cfg, n));
      assert Staged(Exec(cfg, Start(cfg, n), []).system, n, 0, 0, 0);
    } else {
      AttemptsRise(cfg, n, attempts - 1);
      OneMoreFails(cfg, n, attempts - 1, 0);
      OneMorePunished(cfg, n, attempts - 1, 0, 1);
      StagedNone(cfg, n, attempts);
    }
  }

  lemma StagedNone(cfg: Config, n: nat, attempts: nat)
    requires Arrives(cfg, n, attempts, 1, 1)
    ensures Arrives(cfg, n, attempts, 0, 0)
  {
    hide Exec;
    var s0 := Start(cfg, n);
    var acts :| Exec(cfg, s0, acts).Reached? && Staged(Exec(cfg, s0, acts).system, n, attempts, 1, 1);
    assert Staged(Exec(cfg, s0, acts).system, n, attempts, 0, 0);
  }

  /** All threads pass the gate while one attempt is left. */
  lemma {:induction false} AllFail(cfg: Config, n: nat, to: nat)
    requires cfg.maxAttempts > 0 && to <= n && n >= 1
    ensures Arrives(cfg, n, cfg.maxAttempts - 1, 0, to)
  {
    hide Arrives;
    if to == 0 {
      AttemptsRise(cfg, n, cfg.maxAttempts - 1);
    } else {
      AllFail(cfg, n, to - 1);
      OneMoreFails(cfg, n, cfg.maxAttempts - 1, to - 1);
    }
  }

  lemma {:induction false} AllPunished(cfg: Config, n: nat, from: nat)
    requires cfg.maxAttempts > 0 && n >= 1 && from <= n && cfg.maxAttempts - 1 + from < TWO_32
    ensures Arrives(cfg, n, cfg.maxAttempts - 1 + from, from, n)
  {
    hide Arrives;
    if from == 0 {
      AllFail(cfg, n, n);
    } else {
      AllPunished(cfg, n, from - 1);
      OneMorePunished(cfg, n, cfg.maxAttempts - 2 + from, from - 1, n);
    }
  }

  ghost predicate AllIdle(s: System) {
    forall t :: 0 <= t < |s.threads| ==> s.threads[t].Idle?
  }

  lemma {:induction false} NobodyEnters(cfg: Config, n: nat, acts: seq<Action>)
    requires cfg.maxAttempts == 0 && Exec(cfg, Start(cfg, n), acts).Reached?
    ensures AllIdle(Exec(cfg, Start(cfg, n), acts).system)
  {
    hide Step, OutcomeOf;
    if acts != [] {
      NobodyEnters(cfg, n, acts[..|acts| - 1]);
    }
  }

  /** The 32-bit counter never wraps if and only if maxAttempts leaves room for every thread, or
      is zero and lets nobody in. */
  lemma NeverWrapsExactly(cfg: Config, n: nat)
    requires n >= 1
    ensures NeverWraps(cfg, n) <==> cfg.maxAttempts == 0 || cfg.maxAttempts + n <= TWO_32
  {
    hide Exec, Staged, InFlight;
    if cfg.maxAttempts == 0 {
      forall acts | Exec(cfg, Start(cfg, n), acts).Reached?
        ensures !AboutToWrap(Exec(cfg, Start(cfg, n), acts).system)
      {
        NobodyEnters(cfg, n, acts);
      }
    } else if cfg.maxAttempts + n <= TWO_32 {
      forall acts | Exec(cfg, Start(cfg, n), acts).Reached?
        ensures !AboutToWrap(Exec(cfg, Start(cfg, n), acts).system)
      {
        RateLimit(cfg, n, acts);
        var s := Exec(cfg, Start(cfg, n), acts).system;
        if t: nat :| Enabled(s, Punish(t)) {
          InFlightSome(s.threads, t);
        }
      }
    } else {
      var from := TWO_32 - cfg.maxAttempts;
      AllPunished(cfg, n, from);
      var acts :| Exec(cfg, Start(cfg, n), acts).Reached? &&
        Staged(Exec(cfg, Start(cfg, n), acts).system, n, TWO_32 - 1, from, n);
      StagedWraps(Exec(cfg, Start(cfg, n), acts).system, n, from);
    }
  }

  lemma InFlightSome(threads: seq<Thread>, t: nat)
    requires t < |threads| && !threads[t].Idle?
    ensures InFlight(threads) >= 1
  {
    InFlightUpdate(threads, t, Idle);
  }

  lemma StagedWraps(s: System, n: nat, from: nat)
    requires Staged(s, n, TWO_32 - 1, from, n) && from < n
    ensures AboutToWrap(s)
  {
    assert Enabled(s, Punish(from));
  }

  // ---------- lockout ----------

  predicate NoReset(acts: seq<Action>) {
    forall i :: 0 <= i < |acts| ==> !acts[i].ResetAttempts?
  }

  /** A call past the gate that returns true if the store forgets its key. */
  predicate CanSucceed(th: Thread) {
    th.Succeeding? || th.Checking? || (th.Gated? && Matches(th.call))
  }

  /** Attempts exhausted, nobody in flight who can succeed, and no room for the counter to wrap. */
  ghost predicate Locked(cfg: Config, s: System) {
    && s.attempts >= cfg.maxAttempts
    && s.attempts + InFlight(s.threads) < TWO_32
    && forall t :: 0 <= t < |s.threads| ==> !CanSucceed(s.threads[t])
  }

  lemma ApplyLocked(cfg: Config, s: System, a: Action)
    requires Locked(cfg, s) && Enabled(s, a) && !a.ResetAttempts?
    ensures var s' := Apply(cfg, s, a);
            && Locked(cfg, s')
            && (a.ClearStore? || s'.store == s.store)
            && (s'.answers == s.answers ||
                (|s'.answers| == |s.answers| + 1 && s.answers <= s'.answers && !s'.answers[|s.answers|].result))
  {
    hide InFlight, Step, OutcomeOf, Matches;
    if a.Enter? || a.Compare? || a.StoreCheck? || a.StoreFails? || a.Punish? || a.Celebrate? {
      InFlightUpdate(s.threads, a.t, Apply(cfg, s, a).threads[a.t]);
      assert !CanSucceed(s.threads[a.t]);
      assert s.threads[a.t := s.threads[a.t]] == s.threads;
    }
  }

  /** Lockout: from such a state on, every call returns false and only an administrative clearing
      changes the store, until ResetAttempts. */
  lemma {:induction false} Lockout(cfg: Config, s: System, acts: seq<Action>)
    requires Locked(cfg, s) && NoReset(acts) && Exec(cfg, s, acts).Reached?
    ensures var r := Exec(cfg, s, acts).system;
            && Locked(cfg, r)
            && s.answers <= r.answers && (forall i :: |s.answers| <= i < |r.answers| ==> !r.answers[i].result)
            && (r.store == s.store || ClearStore in acts)
  {
    hide Apply, Enabled, Locked;
    if acts != [] {
      var front, last := acts[..|acts| - 1], acts[|acts| - 1];
      assert forall i :: 0 <= i < |front| ==> front[i] == acts[i];
      Lockout(cfg, s, front);
      ApplyLocked(cfg, Exec(cfg, s, front).system, last);
      assert acts == front + [last];
    }
  }

  // ---------- what lifts a lock ----------

  /** Calls only: no ResetAttempts and no clearing of the store. */
  predicate CallsOnly(acts: seq<Action>) {
    forall i :: 0 <= i < |acts| ==> !acts[i].ResetAttempts? && !acts[i].ClearStore?
  }

  /** Some continuation by calls alone brings attempts below the limit again. */
  ghost predicate LockLifts(cfg: Config, s: System) {
    exists acts :: CallsOnly(acts) && Exec(cfg, s, acts).Reached? &&
      Exec(cfg, s, acts).system.attempts < cfg.maxAttempts
  }

  /** The same when the store may be cleared on the way. */
  ghost predicate LockLiftsByClearing(cfg: Config, s: System) {
    exists acts :: NoReset(acts) && Exec(cfg, s, acts).Reached? &&
      Exec(cfg, s, acts).system.attempts < cfg.maxAttempts
  }

  /** The store check of thread u would sweep. */
  predicate Sweeps(s: System, u: nat) {
    u < |s.threads| && s.threads[u].Checking? && s.threads[u].now > s.store.nextSweep
  }

  /** Thread u's sweep would drop key k. */
  predicate SweptBy(s: System, k: Key, u: nat) {
    Sweeps(s, u) && k in s.store.entries && s.store.entries[k] <= s.threads[u].now
  }

  /** Thread t's call can be accepted: it was already, it has yet to read the clock, its key is
      not live at its reading, or the sweep of another waiting thread drops its key first. */
  ghost predicate CanBeAccepted(s: System, t: nat) {
    t < |s.threads| &&
    match s.threads[t]
    case Idle => false
    case Failing(_) => false
    case Succeeding(_) => true
    case Gated(call) => Matches(call)
    case Checking(call, now) =>
      !Live(s.store.entries, KeyOf(call), now) || exists u :: SweptBy(s, KeyOf(call), u)
  }

  /** The store check of a thread whose key is not live succeeds, and lifts the lock. */
  lemma AcceptedLifts(cfg: Config, s: System, acts: seq<Action>, t: nat)
    requires cfg.maxAttempts > 0 && CallsOnly(acts) && Exec(cfg, s, acts).Reached?
    requires var r := Exec(cfg, s, acts).system;
             t < |r.threads| && (r.threads[t].Succeeding? ||
               (r.threads[t].Checking? && !Live(r.store.entries, KeyOf(r.threads[t].call), r.threads[t].now)))
    ensures LockLifts(cfg, s)
  {
    hide Exec, Step, Check;
    var acts', r := acts, Exec(cfg, s, acts).system;
    if r.threads[t].Checking? {
      CheckEntries(r.store, KeyOf(r.threads[t].call), cfg.ttl, r.threads[t].now);
      ExecSnoc(cfg, s, acts, StoreCheck(t));
      acts' := acts + [StoreCheck(t)];
    }
    ExecSnoc(cfg, s, acts', Celebrate(t));
    assert CallsOnly(acts' + [Celebrate(t)]);
  }

  /** Any call that can be accepted lifts the lock. */
  lemma AcceptanceLifts(cfg: Config, s: System, t: nat)
    requires cfg.maxAttempts > 0 && CanBeAccepted(s, t)
    ensures LockLifts(cfg, s)
  {
    hide Exec, Step, Check, LockLifts;
    ExecNone(cfg, s);
    var none: seq<Action> := [];
    match s.threads[t] {
      case Succeeding(_) => AcceptedLifts(cfg, s, none, t);
      case Gated(call) =>
        var k := KeyOf(call);
        var late := if k in s.store.entries then s.store.entries[k] else 0;
        ExecSnoc(cfg, s, none, Compare(t, late));
        AcceptedLifts(cfg, s, none + [Compare(t, late)], t);
      case Checking(call, now) =>
        if !Live(s.store.entries, KeyOf(call), now) {
          AcceptedLifts(cfg, s, none, t);
        } else {
          var u :| SweptBy(s, KeyOf(call), u);
          SweepLifts(cfg, s, t, u);
        }
    }
  }

  lemma SweepLifts(cfg: Config, s: System, t: nat, u: nat)
    requires cfg.maxAttempts > 0 && t < |s.threads| && s.threads[t].Checking?
    requires SweptBy(s, KeyOf(s.threads[t].call), u)
    requires Live(s.store.entries, KeyOf(s.threads[t].call), s.threads[t].now)
    ensures LockLifts(cfg, s)
  {
    hide Exec, LockLifts, Check, KeyOf;
    ExecNone(cfg, s);
    var none: seq<Action> := [];
    var e := Record(KeyOf(s.threads[u].call), cfg.ttl, s.threads[u].now);
    if Live(s.store.entries, e.key, e.now) {
      ExecSnoc(cfg, s, none, StoreCheck(u));
      CheckRejects(s.store, e.key, cfg.ttl, e.now);
      AcceptedLifts(cfg, s, none + [StoreCheck(u)], t);
    } else {
      AcceptedLifts(cfg, s, none, u);
    }
  }

  /** A rejected call at most sweeps. */
  lemma CheckRejects(st: Store, key: Key, ttl: int, now: int)
    requires Live(st.entries, key, now)
    ensures Check(st, key, ttl, now) == (Scheduled(st, now), false)
  {
    hide Keep;
  }

  /** Attempts exhausted, no room for the counter to wrap, and no call that can be accepted. */
  ghost predicate Sealed(cfg: Config, s: System) {
    && s.attempts >= cfg.maxAttempts
    && s.attempts + InFlight(s.threads) < TWO_32
    && forall t :: 0 <= t < |s.threads| ==> !CanBeAccepted(s, t)
  }

  lemma ApplySealed(cfg: Config, s: System, a: Action)
    requires Sealed(cfg, s) && Enabled(s, a) && !a.ResetAttempts? && !a.ClearStore?
    ensures Sealed(cfg, Apply(cfg, s, a))
  {
    hide InFlight, Matches, Check, KeyOf, Keep;
    var s' := Apply(cfg, s, a);
    assert !CanBeAccepted(s, a.t);
    InFlightUpdate(s.threads, a.t, s'.threads[a.t]);
    assert s.threads[a.t := s.threads[a.t]] == s.threads;
    if a.StoreCheck? {
      var th := s.threads[a.t];
      CheckRejects(s.store, KeyOf(th.call), cfg.ttl, th.now);
      forall t | 0 <= t < |s'.threads| ensures !CanBeAccepted(s', t) {
        assert !CanBeAccepted(s, t);
        if t != a.t && s.threads[t].Checking? {
          StillLive(s, s', a.t, t);
        }
      }
    } else {
      forall t | 0 <= t < |s'.threads| ensures !CanBeAccepted(s', t) {
        assert !CanBeAccepted(s, t);
        if t != a.t && s.threads[t].Checking? {
          forall u ensures !SweptBy(s', KeyOf(s.threads[t].call), u) {
            assert !SweptBy(s, KeyOf(s.threads[t].call), u);
          }
        }
      }
    }
  }

  /** The sweep of a rejected call leaves the keys of a sealed state's other calls alone. */
  lemma StillLive(s: System, s': System, v: nat, t: nat)
    requires v < |s.threads| && t < |s.threads| && v != t && s.threads[v].Checking? && s.threads[t].Checking?
    requires !CanBeAccepted(s, t) && |s'.threads| == |s.threads|
    requires forall u :: 0 <= u < |s.threads| && u != v ==> s'.threads[u] == s.threads[u]
    requires s'.threads[v].Failing? && s'.store == Scheduled(s.store, s.threads[v].now)
    ensures !CanBeAccepted(s', t)
  {
    hide KeyOf, Keep;
    var k := KeyOf(s.threads[t].call);
    assert !SweptBy(s, k, v);
    assert k in s'.store.entries && s'.store.entries[k] == s.store.entries[k];
    forall u ensures !SweptBy(s', k, u) {
      assert !SweptBy(s, k, u);
    }
  }

  lemma {:induction false} StaysSealed(cfg: Config, s: System, acts: seq<Action>)
    requires Sealed(cfg, s) && CallsOnly(acts) && Exec(cfg, s, acts).Reached?
    ensures Sealed(cfg, Exec(cfg, s, acts).system)
  {
    hide Apply, Enabled, Sealed;
    if acts != [] {
      var front := acts[..|acts| - 1];
      assert forall i :: 0 <= i < |front| ==> front[i] == acts[i];
      StaysSealed(cfg, s, front);
      ApplySealed(cfg, Exec(cfg, s, front).system, acts[|acts| - 1]);
    }
  }

  /** Calls alone lift exhausted attempts if and only if some call in flight can be accepted. */
  lemma LockLiftsExactly(cfg: Config, s: System)
    requires 0 < cfg.maxAttempts <= s.attempts && s.attempts + InFlight(s.threads) < TWO_32
    ensures LockLifts(cfg, s) <==> exists t :: CanBeAccepted(s, t)
  {
    hide Exec, InFlight, CanBeAccepted, LockLifts;
    if t :| CanBeAccepted(s, t) {
      AcceptanceLifts(cfg, s, t);
    } else {
      assert Sealed(cfg, s);
      SealedHolds(cfg, s);
    }
  }

  lemma SealedHolds(cfg: Config, s: System)
    requires Sealed(cfg, s)
    ensures !LockLifts(cfg, s)
  {
    hide Exec, InFlight, CanBeAccepted;
    forall acts | CallsOnly(acts) && Exec(cfg, s, acts).Reached?
      ensures Exec(cfg, s, acts).system.attempts >= cfg.maxAttempts
    {
      StaysSealed(cfg, s, acts);
    }
  }

  /** A waiting call completes once the store is cleared, and zeroes the counter. */
  lemma ClearingLifts(cfg: Config, s: System, t: nat)
    requires cfg.maxAttempts > 0 && t < |s.threads| && CanSucceed(s.threads[t])
    ensures LockLiftsByClearing(cfg, s)
  {
    hide Exec, Step, Check, OutcomeOf;
    ExecNone(cfg, s);
    var acts: seq<Action> := [];
    if s.threads[t].Gated? {
      ExecSnoc(cfg, s, acts, Compare(t, 0));
      acts := acts + [Compare(t, 0)];
    }
    if !s.threads[t].Succeeding? {
      ExecSnoc(cfg, s, acts, ClearStore);
      acts := acts + [ClearStore];
      ExecSnoc(cfg, s, acts, StoreCheck(t));
      var r := Exec(cfg, s, acts).system;
      EmptyAccepts(s.store, KeyOf(r.threads[t].call), cfg.ttl, r.threads[t].now);
      acts := acts + [StoreCheck(t)];
    }
    ExecSnoc(cfg, s, acts, Celebrate(t));
    acts := acts + [Celebrate(t)];
    assert NoReset(acts) && Exec(cfg, s, acts).system.attempts == 0;
  }

  lemma EmptyAccepts(st: Store, key: Key, ttl: int, now: int)
    ensures OutcomeOf(Step(st, Clear), Record(key, ttl, now)) == Accepted
  {
  }

  /** When the store may be cleared, a waiting replay lifts the lock as well. */
  lemma ClearingLiftsExactly(cfg: Config, s: System)
    requires 0 < cfg.maxAttempts <= s.attempts && s.attempts + InFlight(s.threads) < TWO_32
    ensures LockLiftsByClearing(cfg, s) <==> exists t :: 0 <= t < |s.threads| && CanSucceed(s.threads[t])
  {
    hide Exec, InFlight;
    if t :| 0 <= t < |s.threads| && CanSucceed(s.threads[t]) {
      ClearingLifts(cfg, s, t);
    } else {
      assert Locked(cfg, s);
      forall acts | NoReset(acts) && Exec(cfg, s, acts).Reached?
        ensures Exec(cfg, s, acts).system.attempts >= cfg.maxAttempts
      {
        Lockout(cfg, s, acts);
      }
    }
  }

  /** In every reachable state with exhausted attempts, and with room for every thread's
      increment, the two kinds of lock are lifted exactly by the calls in flight. */
  lemma ReachableLock(cfg: Config, n: nat, acts: seq<Action>)
    requires n >= 1 && cfg.maxAttempts + n <= TWO_32 && Exec(cfg, Start(cfg, n), acts).Reached?
    requires 0 < cfg.maxAttempts <= Exec(cfg, Start(cfg, n), acts).system.attempts
    ensures var s := Exec(cfg, Start(cfg, n), acts).system;
            && (LockLifts(cfg, s) <==> exists t :: CanBeAccepted(s, t))
            && (LockLifts(cfg, s) <==> !Sealed(cfg, s))
            && (LockLiftsByClearing(cfg, s) <==> !Locked(cfg, s))
  {
    hide Exec, InFlight, CanBeAccepted, LockLifts, LockLiftsByClearing, CanSucceed;
    RateLimit(cfg, n, acts);
    var s := Exec(cfg, Start(cfg, n), acts).system;
    LockLiftsExactly(cfg, s);
    ClearingLiftsExactly(cfg, s);
    assert (exists t :: CanBeAccepted(s, t)) ==> exists t :: 0 <= t < |s.threads| && CanBeAccepted(s, t) by {
      if t :| CanBeAccepted(s, t) {
        AcceptedInRange(s, t);
      }
    }
  }

  lemma AcceptedInRange(s: System, t: nat)
    requires CanBeAccepted(s, t)
    ensures t < |s.threads|
  {
  }

  /** With two threads or more, for every maxAttempts that lets calls in, a lock that calls alone
      lift is reached: a matching call passes the gate before the last failing one is punished. */
  lemma LockIsLifted(cfg: Config, n: nat, c: Call)
    requires n >= 2 && cfg.maxAttempts > 0 && Matches(c)
    ensures exists acts :: Exec(cfg, Start(cfg, n), acts).Reached? &&
              var s := Exec(cfg, Start(cfg, n), acts).system;
              s.attempts == cfg.maxAttempts && LockLifts(cfg, s)
  {
    hide Exec, Step, OutcomeOf, LockLifts;
    var s0 := Start(cfg, n);
    AllFail(cfg, n, 1);
    var acts :| Exec(cfg, s0, acts).Reached? && Staged(Exec(cfg, s0, acts).system, n, cfg.maxAttempts - 1, 0, 1);
    ExecSnoc(cfg, s0, acts, Enter(1, c));
    var acts' := acts + [Enter(1, c)];
    ExecSnoc(cfg, s0, acts', Punish(0));
    var s := Exec(cfg, s0, acts' + [Punish(0)]).system;
    AcceptanceLifts(cfg, s, 1);
  }

  /** Thread 0 has a call accepted, repeats it and reads the clock; meanwhile thread 1 fails. */
  function ReplayInFlight(c: Call): seq<Action> {
    [Enter(0, c), Compare(0, 0), StoreCheck(0), Celebrate(0),
     Enter(0, c), Compare(0, 0), Enter(1, MISMATCH), Compare(1, 0), Punish(1)]
  }

  /** Concretely, a replay in flight does not lift the lock, unless the store is cleared. */
  lemma ReplayDoesNotLift(ttl: int, maxSize: nat, c: Call)
    requires ttl > 0 && Matches(c)
    ensures var cfg := Config(1, ttl, maxSize);
            var e := Exec(cfg, Start(cfg, 2), ReplayInFlight(c));
            e.Reached? && e.system.attempts == 1 && !LockLifts(cfg, e.system) && LockLiftsByClearing(cfg, e.system)
  {
    hide Exec, LockLifts, LockLiftsByClearing, Check, InFlight;
    var cfg, acts := Config(1, ttl, maxSize), ReplayInFlight(c);
    var s0 := Start(cfg, 2);
    FirstCheck(maxSize, KeyOf(c), ttl);
    ExecNone(cfg, s0);
    assert acts[..0] == [];
    ExecStep(cfg, s0, acts, 0);
    ExecStep(cfg, s0, acts, 1);
    ExecStep(cfg, s0, acts, 2);
    ExecStep(cfg, s0, acts, 3);
    ExecStep(cfg, s0, acts, 4);
    ExecStep(cfg, s0, acts, 5);
    ExecStep(cfg, s0, acts, 6);
    ExecStep(cfg, s0, acts, 7);
    ExecStep(cfg, s0, acts, 8);
    assert acts[..9] == acts;
    var s := Exec(cfg, s0, acts).system;
    RateLimit(cfg, 2, acts);
    ClearingLifts(cfg, s, 0);
    SealedHolds(cfg, s);
  }

  lemma ExecStep(cfg: Config, s: System, acts: seq<Action>, i: nat)
    requires i < |acts| && Exec(cfg, s, acts[..i]).Reached? && Enabled(Exec(cfg, s, acts[..i]).system, acts[i])
    ensures Exec(cfg, s, acts[..i + 1]) == Reached(Apply(cfg, Exec(cfg, s, acts[..i]).system, acts[i]))
  {
    assert acts[..i + 1] == acts[..i] + [acts[i]];
    ExecSnoc(cfg, s, acts[..i], acts[i]);
  }

  lemma FirstCheck(maxSize: nat, k: Key, ttl: int)
    ensures var (st, first) := Check(Empty(maxSize), k, ttl, 0);
            first && st.entries == map[k := ttl] && st.nextSweep == SWEEP_EVERY
  {
    hide Keep;
  }
}
