/** The reusable sense-reversing barrier as a transition system. Each step is one access
    to shared memory (or the flip of the thread's own sense); steps of different threads
    interleave freely, memory is sequentially consistent, and exactly |threads| threads
    use the barrier. */
module Barrier {

  /** Where a thread stands: outside the barrier, after the flip, in the spin loop, about
      to reset the counter, about to publish the sense, or past the barrier proper. */
  datatype Pc = Outside | Flipped | Spinning | Resetting | Publishing | Leaving

  /** `calls` and `done` count the barrier calls begun and completed. */
  datatype Thread = Thread(pc: Pc, sense: bool, calls: nat, done: nat)

  /** `published` and `resets` are history: how often the sense was published, and which
      thread, in which of its calls, took the reset branch. */
  datatype State = State(sense: bool, count: nat, threads: seq<Thread>, published: nat, resets: seq<(nat, nat)>)

  function Init(ncores: nat): State {
    State(false, 0, seq(ncores, i => Thread(Outside, false, 0, 0)), 0, [])
  }

  /** One step of thread `t`. */
  function Next(s: State, t: nat): (r: State)
    requires t < |s.threads|
    ensures |r.threads| == |s.threads|
  {
    var th := s.threads[t];
    match th.pc
    case Outside =>
      s.(threads := s.threads[t := th.(pc := Flipped, sense := !th.sense, calls := th.calls + 1)])
    case Flipped =>
      if s.count == |s.threads| - 1 then
        s.(count := s.count + 1, threads := s.threads[t := th.(pc := Resetting)], resets := s.resets + [(t, th.calls)])
      else
        s.(count := s.count + 1, threads := s.threads[t := th.(pc := Spinning)])
    case Resetting =>
      s.(count := 0, threads := s.threads[t := th.(pc := Publishing)])
    case Publishing =>
      s.(sense := th.sense, threads := s.threads[t := th.(pc := Leaving)], published := s.published + 1)
    case Spinning =>
      if s.sense == th.sense then s.(threads := s.threads[t := th.(pc := Leaving)]) else s
    case Leaving =>
      s.(threads := s.threads[t := th.(pc := Outside, done := th.done + 1)])
  }

  /** A schedule names the thread that steps next, for `ncores` threads. */
  predicate IsSchedule(schedule: seq<nat>, ncores: nat) {
    forall i :: 0 <= i < |schedule| ==> schedule[i] < ncores
  }

  /** The state after the threads of `schedule` have stepped in turn. */
  function Run(s: State, schedule: seq<nat>): (r: State)
    requires IsSchedule(schedule, |s.threads|)
    ensures |r.threads| == |s.threads|
    decreases schedule
  {
    if schedule == [] then s else Run(Next(s, schedule[0]), schedule[1..])
  }

  // ----- The invariant -----

  predicate Odd(n: nat) {
    n % 2 == 1
  }

  /** Threads that have added themselves for the round now being gathered. */
  predicate Waiting(th: Thread, published: nat) {
    th.pc == Spinning && th.calls == published + 1
  }

  function Arrived(threads: seq<Thread>, published: nat): (n: nat)
    ensures n <= |threads|
  {
    if threads == [] then 0
    else (if Waiting(threads[0], published) then 1 else 0) + Arrived(threads[1..], published)
  }

  predicate Closing(th: Thread) {
    th.pc == Resetting || th.pc == Publishing
  }

  /** How one thread relates to the number of rounds published so far. */
  predicate ThreadOk(th: Thread, published: nat) {
    && th.sense == Odd(th.calls)
    && th.calls == th.done + (if th.pc == Outside then 0 else 1)
    && match th.pc
       case Outside => th.calls == published
       case Flipped => th.calls == published + 1
       case Spinning => th.calls == published || th.calls == published + 1
       case Resetting => th.calls == published + 1
       case Publishing => th.calls == published + 1
       case Leaving => th.calls == published
  }

  /** Thread `c` closes the round: everybody else has arrived and waits. */
  predicate ClosedBy(s: State, c: nat)
    requires c < |s.threads|
  {
    && Closing(s.threads[c])
    && s.count == (if s.threads[c].pc == Resetting then |s.threads| else 0)
    && (forall u :: 0 <= u < |s.threads| && u != c ==> Waiting(s.threads[u], s.published))
    && |s.resets| == s.published + 1
  }

  /** Nobody closes the round yet: the counter counts the waiting threads. */
  predicate Gathering(s: State) {
    && (forall u :: 0 <= u < |s.threads| ==> !Closing(s.threads[u]))
    && s.count == Arrived(s.threads, s.published) < |s.threads|
    && |s.resets| == s.published
  }

  ghost predicate Inv(s: State) {
    && s.sense == Odd(s.published)
    && (forall u :: 0 <= u < |s.threads| ==> ThreadOk(s.threads[u], s.published))
    && (forall k :: 0 <= k < |s.resets| ==> s.resets[k].0 < |s.threads| && s.resets[k].1 == k + 1)
    && (Gathering(s) || exists c :: 0 <= c < |s.threads| && ClosedBy(s, c))
  }

  lemma {:induction false} ArrivedNone(threads: seq<Thread>, published: nat)
    requires forall u :: 0 <= u < |threads| ==> !Waiting(threads[u], published)
    ensures Arrived(threads, published) == 0
  {
    if threads != [] {
      ArrivedNone(threads[1..], published);
    }
  }

  lemma {:induction false} ArrivedUpdate(threads: seq<Thread>, published: nat, t: nat, th: Thread)
    requires t < |threads|
    ensures Arrived(threads[t := th], published) + (if Waiting(threads[t], published) then 1 else 0)
            == Arrived(threads, published) + (if Waiting(th, published) then 1 else 0)
  {
    if t == 0 {
      assert threads[0 := th][1..] == threads[1..];
    } else {
      ArrivedUpdate(threads[1..], published, t - 1, th);
      assert threads[t := th][1..] == threads[1..][t - 1 := th];
    }
  }

  /** If all but one are counted, then everyone but that one waits. */
  lemma {:induction false} ArrivedFull(threads: seq<Thread>, published: nat)
    requires Arrived(threads, published) == |threads|
    ensures forall u :: 0 <= u < |threads| ==> Waiting(threads[u], published)
  {
    if threads != [] {
      ArrivedFull(threads[1..], published);
    }
  }

  lemma ArrivedAllOthers(threads: seq<Thread>, published: nat, t: nat)
    requires t < |threads| && !Waiting(threads[t], published)
    requires Arrived(threads, published) == |threads| - 1
    ensures forall u :: 0 <= u < |threads| && u != t ==> Waiting(threads[u], published)
  {
    var th := Thread(Spinning, false, published + 1, 0);
    var full := threads[t := th];
    ArrivedUpdate(threads, published, t, th);
    ArrivedFull(full, published);
    assert forall u :: 0 <= u < |threads| && u != t ==> full[u] == threads[u];
  }

  lemma InitInv(ncores: nat)
    requires ncores > 0
    ensures Inv(Init(ncores))
  {
    ArrivedNone(Init(ncores).threads, 0);
  }

  /** The last arrival finds everybody else waiting and closes the round. */
  lemma LastArrival(s: State, t: nat)
    requires Inv(s) && t < |s.threads| && Gathering(s)
    requires s.threads[t].pc == Flipped && s.count == |s.threads| - 1
    ensures Inv(Next(s, t))
  {
    ArrivedAllOthers(s.threads, s.published, t);
    assert ClosedBy(Next(s, t), t);
  }

  lemma NextKeepsGathering(s: State, t: nat)
    requires Inv(s) && t < |s.threads| && Gathering(s)
    requires !(s.threads[t].pc == Flipped && s.count == |s.threads| - 1)
    ensures Inv(Next(s, t))
  {
    var r := Next(s, t);
    ArrivedUpdate(s.threads, s.published, t, r.threads[t]);
    assert ThreadOk(s.threads[t], s.published) && !Closing(s.threads[t]);
    assert ThreadOk(r.threads[t], r.published) && !Closing(r.threads[t]);
    assert forall u :: 0 <= u < |r.threads| && u != t ==> r.threads[u] == s.threads[u];
    assert r.count == Arrived(r.threads, r.published);
    assert Gathering(r);
  }

  lemma ResetKeepsClosed(s: State, c: nat)
    requires Inv(s) && c < |s.threads| && ClosedBy(s, c) && s.threads[c].pc == Resetting
    ensures Inv(Next(s, c))
  {
    assert ClosedBy(Next(s, c), c);
  }

  /** Publishing releases everybody and opens the next round, with nobody arrived in it. */
  lemma PublishOpensRound(s: State, c: nat)
    requires Inv(s) && c < |s.threads| && ClosedBy(s, c) && s.threads[c].pc == Publishing
    ensures Inv(Next(s, c))
  {
    var r := Next(s, c);
    forall u | 0 <= u < |r.threads|
      ensures ThreadOk(r.threads[u], r.published) && !Closing(r.threads[u]) && !Waiting(r.threads[u], r.published)
    {
      assert ThreadOk(s.threads[u], s.published);
      assert u != c ==> r.threads[u] == s.threads[u] && Waiting(s.threads[u], s.published);
    }
    ArrivedNone(r.threads, r.published);
    assert Gathering(r);
  }

  lemma NextKeepsInv(s: State, t: nat)
    requires Inv(s) && t < |s.threads|
    ensures Inv(Next(s, t))
  {
    if Gathering(s) {
      if s.threads[t].pc == Flipped && s.count == |s.threads| - 1 {
        LastArrival(s, t);
      } else {
        NextKeepsGathering(s, t);
      }
    } else {
      var c :| 0 <= c < |s.threads| && ClosedBy(s, c);
      if t != c {
        assert Waiting(s.threads[t], s.published) && ThreadOk(s.threads[t], s.published);
        assert Next(s, t) == s;
      } else if s.threads[c].pc == Resetting {
        ResetKeepsClosed(s, c);
      } else {
        PublishOpensRound(s, c);
      }
    }
  }

  lemma {:induction false} RunKeepsInv(s: State, schedule: seq<nat>)
    requires Inv(s) && IsSchedule(schedule, |s.threads|)
    ensures Inv(Run(s, schedule))
    decreases schedule
  {
    if schedule != [] {
      NextKeepsInv(s, schedule[0]);
      RunKeepsInv(Next(s, schedule[0]), schedule[1..]);
    }
  }

  /** The states the barrier can get into: any number of threads, any interleaving, any
      number of rounds. */
  ghost predicate Reachable(s: State) {
    exists ncores: nat, schedule: seq<nat> ::
      ncores > 0 && IsSchedule(schedule, ncores) && s == Run(Init(ncores), schedule)
  }

  lemma {:induction false} RunOneMore(s: State, schedule: seq<nat>, t: nat)
    requires IsSchedule(schedule, |s.threads|) && t < |s.threads|
    ensures IsSchedule(schedule + [t], |s.threads|)
    ensures Run(s, schedule + [t]) == Next(Run(s, schedule), t)
    decreases schedule
  {
    if schedule == [] {
      assert [] + [t] == [t] && [t][1..] == [];
      assert Run(Next(s, t), []) == Next(s, t);
    } else {
      assert (schedule + [t])[1..] == schedule[1..] + [t];
      RunOneMore(Next(s, schedule[0]), schedule[1..], t);
    }
  }

  lemma ReachableNext(s: State, t: nat)
    requires Reachable(s) && t < |s.threads|
    ensures Reachable(Next(s, t))
  {
    var ncores: nat, schedule: seq<nat> :|
      ncores > 0 && IsSchedule(schedule, ncores) && s == Run(Init(ncores), schedule);
    RunOneMore(Init(ncores), schedule, t);
  }

  lemma ReachableInit(ncores: nat)
    requires ncores > 0
    ensures Reachable(Init(ncores))
  {
    var none: seq<nat> := [];
    assert IsSchedule(none, ncores) && Run(Init(ncores), none) == Init(ncores);
  }

  lemma ReachableInv(s: State)
    requires Reachable(s)
    ensures Inv(s)
  {
    var ncores: nat, schedule: seq<nat> :|
      ncores > 0 && IsSchedule(schedule, ncores) && s == Run(Init(ncores), schedule);
    InitInv(ncores);
    RunKeepsInv(Init(ncores), schedule);
  }

  // ----- Safety -----

  /** No thread has completed its k-th call before every thread has begun its k-th call;
      not even one that is past the spin loop and has yet to return. */
  lemma BarrierSafety(s: State, t: nat, u: nat)
    requires Reachable(s) && t < |s.threads| && u < |s.threads|
    ensures s.threads[t].done <= s.threads[u].calls
    ensures s.threads[t].pc == Leaving ==> s.threads[t].calls <= s.threads[u].calls
  {
    ReachableInv(s);
    assert ThreadOk(s.threads[t], s.published) && ThreadOk(s.threads[u], s.published);
    if Gathering(s) {
    } else {
      var c :| 0 <= c < |s.threads| && ClosedBy(s, c);
    }
  }

  /** Completed calls differ by at most one between threads, and no thread is ahead of the
      published rounds or more than one behind. */
  lemma RoundsTogether(s: State, t: nat, u: nat)
    requires Reachable(s) && t < |s.threads| && u < |s.threads|
    ensures s.threads[t].done <= s.threads[u].done + 1
    ensures s.published <= s.threads[t].done + 1 && s.threads[t].done <= s.published
  {
    ReachableInv(s);
    assert ThreadOk(s.threads[t], s.published) && ThreadOk(s.threads[u], s.published);
  }

  /** The counter stays within 0..ncores, and is ncores only while the last arrival is
      about to reset it. */
  lemma CountBounded(s: State)
    requires Reachable(s)
    ensures 0 <= s.count <= |s.threads|
    ensures s.count == |s.threads| ==> exists c :: 0 <= c < |s.threads| && s.threads[c].pc == Resetting
  {
    ReachableInv(s);
    if !Gathering(s) {
      var c :| 0 <= c < |s.threads| && ClosedBy(s, c);
      assert s.threads[c].pc == Publishing || s.threads[c].pc == Resetting;
    }
  }

  /** Exactly one thread per round takes the reset branch: the k-th reset is made in some
      thread's k-th call, and there is one for each published round, plus the one under way. */
  lemma OneResetPerRound(s: State)
    requires Reachable(s)
    ensures forall k :: 0 <= k < |s.resets| ==> s.resets[k].1 == k + 1
    ensures s.published <= |s.resets| <= s.published + 1
    ensures |s.resets| == s.published + 1 <==> exists c :: 0 <= c < |s.threads| && Closing(s.threads[c])
    ensures forall c, d ::
      0 <= c < |s.threads| && 0 <= d < |s.threads| && Closing(s.threads[c]) && Closing(s.threads[d]) ==> c == d
  {
    ReachableInv(s);
    if !Gathering(s) {
      var c :| 0 <= c < |s.threads| && ClosedBy(s, c);
      assert forall d :: 0 <= d < |s.threads| && d != c ==> Waiting(s.threads[d], s.published);
    }
  }

  // ----- Progress -----

  /** Thread `t` can do something other than spin once more. */
  predicate CanMove(s: State, t: nat)
    requires t < |s.threads|
  {
    s.threads[t].pc == Spinning ==> s.sense == s.threads[t].sense
  }

  /** While all threads are inside the barrier, one of them can move. */
  lemma BarrierProgress(s: State)
    requires Reachable(s) && forall t :: 0 <= t < |s.threads| ==> s.threads[t].pc != Outside
    ensures exists t :: 0 <= t < |s.threads| && CanMove(s, t)
  {
    ReachableInv(s);
    if Gathering(s) {
      if forall t :: 0 <= t < |s.threads| ==> !CanMove(s, t) {
        forall t | 0 <= t < |s.threads| ensures Waiting(s.threads[t], s.published) {
          assert ThreadOk(s.threads[t], s.published) && !CanMove(s, t);
        }
        ArrivedAll(s.threads, s.published);
      }
    } else {
      var c :| 0 <= c < |s.threads| && ClosedBy(s, c);
      assert CanMove(s, c);
    }
  }

  lemma {:induction false} ArrivedAll(threads: seq<Thread>, published: nat)
    requires forall u :: 0 <= u < |threads| ==> Waiting(threads[u], published)
    ensures Arrived(threads, published) == |threads|
  {
    if threads != [] {
      ArrivedAll(threads[1..], published);
    }
  }

  /** Steps that thread still has to take to complete its k-th call. */
  function Left(th: Thread, k: nat): int {
    6 * (k - th.calls) + match th.pc
                         case Outside => 0
                         case Flipped => 5
                         case Resetting => 4
                         case Publishing => 3
                         case Spinning => 2
                         case Leaving => 1
  }

  function LeftAll(threads: seq<Thread>, k: nat): int {
    if threads == [] then 0 else Left(threads[0], k) + LeftAll(threads[1..], k)
  }

  /** A step a program that makes `k` barrier calls per thread can take. */
  predicate Useful(s: State, t: nat, k: nat)
    requires t < |s.threads|
  {
    CanMove(s, t) && (s.threads[t].pc == Outside ==> s.threads[t].calls < k)
  }

  predicate WithinCalls(s: State, k: nat) {
    forall t :: 0 <= t < |s.threads| ==> s.threads[t].calls <= k
  }

  lemma {:induction false} LeftAllUpdate(threads: seq<Thread>, k: nat, t: nat, th: Thread)
    requires t < |threads|
    ensures LeftAll(threads[t := th], k) == LeftAll(threads, k) - Left(threads[t], k) + Left(th, k)
  {
    if t == 0 {
      assert threads[0 := th][1..] == threads[1..];
    } else {
      LeftAllUpdate(threads[1..], k, t - 1, th);
      assert threads[t := th][1..] == threads[1..][t - 1 := th];
    }
  }

  lemma {:induction false} LeftAllBounds(threads: seq<Thread>, k: nat)
    requires forall t :: 0 <= t < |threads| ==> threads[t].calls <= k
    ensures 0 <= LeftAll(threads, k)
  {
    if threads != [] {
      LeftAllBounds(threads[1..], k);
    }
  }

  /** Programs that make k calls per thread finish under every scheduler that does not only
      schedule spinning threads: each useful step brings the bounded measure down, ... */
  lemma UsefulStepsRunOut(s: State, t: nat, k: nat)
    requires WithinCalls(s, k) && t < |s.threads| && Useful(s, t, k)
    ensures WithinCalls(Next(s, t), k)
    ensures 0 <= LeftAll(Next(s, t).threads, k) < LeftAll(s.threads, k)
  {
    var r := Next(s, t);
    LeftAllUpdate(s.threads, k, t, r.threads[t]);
    assert forall u :: 0 <= u < |r.threads| && u != t ==> r.threads[u] == s.threads[u];
    LeftAllBounds(r.threads, k);
  }

  /** ... so no program takes more than six steps per call that do not spin, ... */
  lemma {:induction false} UsefulRunsAreShort(s: State, schedule: seq<nat>, k: nat)
    requires IsSchedule(schedule, |s.threads|) && WithinCalls(s, k) && UsefulRun(s, schedule, k)
    ensures |schedule| <= LeftAll(s.threads, k)
    decreases schedule
  {
    LeftAllBounds(s.threads, k);
    if schedule != [] {
      UsefulStepsRunOut(s, schedule[0], k);
      UsefulRunsAreShort(Next(s, schedule[0]), schedule[1..], k);
    }
  }

  predicate UsefulRun(s: State, schedule: seq<nat>, k: nat)
    requires IsSchedule(schedule, |s.threads|)
    decreases schedule
  {
    schedule == [] || (Useful(s, schedule[0], k) && UsefulRun(Next(s, schedule[0]), schedule[1..], k))
  }

  lemma {:induction false} LeftAtStart(threads: seq<Thread>, k: nat)
    requires forall t :: 0 <= t < |threads| ==> threads[t].calls == 0 && threads[t].pc == Outside
    ensures LeftAll(threads, k) == 6 * k * |threads|
  {
    if threads != [] {
      LeftAtStart(threads[1..], k);
      assert 6 * k * |threads| == 6 * k * |threads[1..]| + 6 * k;
    }
  }

  /** In k rounds of n threads at most 6 * k * n steps are not spins. */
  lemma StepsFromStart(ncores: nat, schedule: seq<nat>, k: nat)
    requires IsSchedule(schedule, ncores) && UsefulRun(Init(ncores), schedule, k)
    ensures |schedule| <= 6 * k * ncores
  {
    UsefulRunsAreShort(Init(ncores), schedule, k);
    LeftAtStart(Init(ncores).threads, k);
  }

  /** ... and when no useful step is left, every thread has returned from its k-th call. */
  lemma NoUsefulStepMeansDone(s: State, k: nat)
    requires Reachable(s) && WithinCalls(s, k)
    requires forall t :: 0 <= t < |s.threads| ==> !Useful(s, t, k)
    ensures forall t :: 0 <= t < |s.threads| ==> s.threads[t].pc == Outside && s.threads[t].done == k
  {
    ReachableInv(s);
    if forall t :: 0 <= t < |s.threads| ==> s.threads[t].pc != Outside {
      BarrierProgress(s);
      var t :| 0 <= t < |s.threads| && CanMove(s, t);
      assert Useful(s, t, k);
    } else {
      var o :| 0 <= o < |s.threads| && s.threads[o].pc == Outside;
      assert !Useful(s, o, k) && ThreadOk(s.threads[o], s.published);
      assert s.published == k;
      forall t | 0 <= t < |s.threads|
        ensures s.threads[t].pc == Outside && s.threads[t].done == k
      {
        assert !Useful(s, t, k) && ThreadOk(s.threads[t], s.published) && s.threads[t].calls <= k;
      }
    }
  }

  // ----- The shared variables -----

  /** The statics `sense` and `count` and the thread-local copies of `threadsense`, updated
      in place, one access at a time. */
  class Shared {
    var sense: bool
    var count: nat
    var threads: seq<Thread>
    ghost var published: nat
    ghost var resets: seq<(nat, nat)>

    ghost function Abstract(): State
      reads this
    {
      State(sense, count, threads, published, resets)
    }

    /** The variables have been through nothing but steps of threads. */
    ghost predicate Valid()
      reads this
    {
      Reachable(Abstract())
    }

    constructor (ncores: nat)
      ensures Abstract() == Init(ncores) && (ncores > 0 ==> Valid())
    {
      sense, count := false, 0;
      threads := seq(ncores, i => Thread(Outside, false, 0, 0));
      published, resets := 0, [];
      new;
      if ncores > 0 {
        ReachableInit(ncores);
      }
    }

    method SetThread(t: nat, th: Thread)
      requires t < |threads|
      modifies this`threads
      ensures threads == old(threads)[t := th]
    {
      threads := threads[t := th];
    }

    /** The atomic add; the result is the value before. */
    method FetchAndAdd() returns (before: nat)
      modifies this`count
      ensures before == old(count) && count == before + 1
    {
      before := count;
      count := count + 1;
    }

    /** The next access of thread `t`. */
    method Step(t: nat)
      requires Valid() && t < |threads|
      modifies this
      ensures Valid() && Abstract() == Next(old(Abstract()), t)
      ensures forall u, w :: 0 <= u < |threads| && 0 <= w < |threads| ==> threads[u].done <= threads[w].calls
    {
      hide Reachable;
      ghost var before := Abstract();
      ReachableNext(before, t);
      Access(t);
      SafetyForAll(Abstract());
    }

    method Access(t: nat)
      requires t < |threads|
      modifies this
      ensures Abstract() == Next(old(Abstract()), t)
    {
      var th := threads[t];
      match th.pc {
        case Outside =>
          SetThread(t, th.(pc := Flipped, sense := !th.sense, calls := th.calls + 1));
        case Flipped =>
          var before := FetchAndAdd();
          if before == |threads| - 1 {
            SetThread(t, th.(pc := Resetting));
            resets := resets + [(t, th.calls)];
          } else {
            SetThread(t, th.(pc := Spinning));
          }
        case Resetting =>
          count := 0;
          SetThread(t, th.(pc := Publishing));
        case Publishing =>
          sense := th.sense;
          SetThread(t, th.(pc := Leaving));
          published := published + 1;
        case Spinning =>
          if sense == th.sense {
            SetThread(t, th.(pc := Leaving));
          }
        case Leaving =>
          SetThread(t, th.(pc := Outside, done := th.done + 1));
      }
    }

    /** Any run: the threads of `schedule` step in turn. */
    method StepAll(schedule: seq<nat>)
      requires Valid() && IsSchedule(schedule, |threads|)
      modifies this
      ensures Valid() && Abstract() == Run(old(Abstract()), schedule)
      ensures forall u, w :: 0 <= u < |threads| && 0 <= w < |threads| ==> threads[u].done <= threads[w].calls
    {
      hide Reachable, Next;
      ghost var start := Abstract();
      var i := 0;
      while i < |schedule|
        invariant 0 <= i <= |schedule|
        invariant Valid() && |threads| == |old(threads)|
        invariant Abstract() == Run(start, schedule[..i])
      {
        RunOneMore(start, schedule[..i], schedule[i]);
        assert schedule[..i + 1] == schedule[..i] + [schedule[i]];
        Step(schedule[i]);
        i := i + 1;
      }
      assert schedule[..|schedule|] == schedule;
      SafetyForAll(Abstract());
    }
  }

  lemma SafetyForAll(s: State)
    requires Reachable(s)
    ensures forall u, w :: 0 <= u < |s.threads| && 0 <= w < |s.threads| ==> s.threads[u].done <= s.threads[w].calls
  {
    forall u, w | 0 <= u < |s.threads| && 0 <= w < |s.threads| ensures s.threads[u].done <= s.threads[w].calls {
      BarrierSafety(s, u, w);
    }
  }
}
