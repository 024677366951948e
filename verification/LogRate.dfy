/**
  The log rate limiter as interleaved atomic steps: any number of threads load the window,
  try to replace it, store the counter late, or count themselves in.
 */
module LogRate {

  const INTERVAL := 5
  const BURST := 5
  const INT_MAX := 0x7fff_ffff
  const INT_MIN := -0x8000_0000

  /**
    Where a thread is: outside; about to load the window; seen an expired window; replaced the
    window but not yet stored the counter; inside the window and about to count.
   */
  datatype Pc = Outside | Loading(now: int) | Expired(now: int, window: int) | Won | Counting(now: int, window: int)

  /** Shared words, thread positions, and the totals the bound speaks about. */
  datatype Limiter = Limiter(window: int, count: int, pcs: seq<Pc>, allowed: nat, resets: nat)

  datatype Act = Enter(t: nat, now: int) | Load(t: nat) | Swap(t: nat) | Store(t: nat) | Add(t: nat)

  predicate OutOfWindow(now: int, window: int) {
    now - window < 0 || now - window >= INTERVAL
  }

  /** The 32-bit counter wraps. */
  function Increment(count: int): int {
    if count == INT_MAX then INT_MIN else count + 1
  }

  /** One atomic step of one thread; an action that does not apply changes nothing. */
  function Step(s: Limiter, a: Act): Limiter {
    if a.t >= |s.pcs| then s else
    match (a, s.pcs[a.t])
    case (Enter(t, now), Outside) => s.(pcs := s.pcs[t := Loading(now)])
    case (Load(t), Loading(now)) =>
      s.(pcs := s.pcs[t := if OutOfWindow(now, s.window) then Expired(now, s.window) else Counting(now, s.window)])
    case (Swap(t), Expired(now, window)) =>
      if s.window == window then s.(window := now, resets := s.resets + 1, pcs := s.pcs[t := Won])
      else s.(pcs := s.pcs[t := Loading(now)])
    case (Store(t), Won) => s.(count := 1, allowed := s.allowed + 1, pcs := s.pcs[t := Outside])
    case (Add(t), Counting(_, _)) =>
      s.(count := Increment(s.count), allowed := s.allowed + (if s.count < BURST then 1 else 0), pcs := s.pcs[t := Outside])
    case _ => s
  }

  function Run(s: Limiter, acts: seq<Act>): Limiter
    decreases |acts|
  {
    if acts == [] then s else Run(Step(s, acts[0]), acts[1..])
  }

  /** Threads that have replaced the window and still owe the counter store. */
  function Owing(pcs: seq<Pc>): nat {
    if pcs == [] then 0 else (if pcs[0] == Won then 1 else 0) + Owing(pcs[1..])
  }

  lemma {:induction false} OwingUpdate(pcs: seq<Pc>, t: nat, pc: Pc)
    requires t < |pcs|
    ensures Owing(pcs[t := pc]) == Owing(pcs) - (if pcs[t] == Won then 1 else 0) + (if pc == Won then 1 else 0)
  {
    if t == 0 {
      assert pcs[t := pc][1..] == pcs[1..];
    } else {
      assert pcs[t := pc][1..] == pcs[1..][t - 1 := pc];
      OwingUpdate(pcs[1..], t - 1, pc);
    }
  }

  /** Messages the present counter still lets through. */
  function Left(count: int): nat {
    if count >= BURST then 0 else if count < 0 then BURST else BURST - count
  }

  /** What was allowed, what may still be, and a full burst per counter store owed, fit the budget. */
  predicate WithinBudget(s: Limiter) {
    s.count >= 0 && s.allowed + Left(s.count) + BURST * Owing(s.pcs) <= BURST * (1 + s.resets)
  }

  /** The one action that makes the counter wrap: an increment of the largest value. */
  predicate Wraps(s: Limiter, a: Act) {
    a.Add? && a.t < |s.pcs| && s.pcs[a.t].Counting? && s.count == INT_MAX
  }

  /** No increment of the run wraps the counter. */
  predicate NeverWraps(s: Limiter, acts: seq<Act>)
    decreases |acts|
  {
    acts != [] ==> !Wraps(s, acts[0]) && NeverWraps(Step(s, acts[0]), acts[1..])
  }

  lemma StepKeepsBudget(s: Limiter, a: Act)
    requires WithinBudget(s) && !Wraps(s, a)
    ensures WithinBudget(Step(s, a))
  {
    if a.t < |s.pcs| {
      var s' := Step(s, a);
      if s' != s {
        OwingUpdate(s.pcs, a.t, s'.pcs[a.t]);
        assert s'.pcs == s.pcs[a.t := s'.pcs[a.t]];
      }
    }
  }

  /**
    The rate bound, for runs of any length in which the counter does not wrap and for every
    interleaving: no more than one burst for the start and one for each successful window reset,
    even when a counter store comes late or windows move backwards.
   */
  lemma {:induction false} RateBound(s: Limiter, acts: seq<Act>)
    requires WithinBudget(s) && NeverWraps(s, acts)
    ensures WithinBudget(Run(s, acts)) && Run(s, acts).allowed <= 5 * (1 + Run(s, acts).resets)
    decreases |acts|
  {
    hide Step, Wraps;
    if acts != [] {
      StepKeepsBudget(s, acts[0]);
      RateBound(Step(s, acts[0]), acts[1..]);
    }
  }

  /**
    What a thread saw decides where it is: it counts itself in only against a window that holds
    its own time, and it tries to replace only one that does not.
   */
  ghost predicate SeesRight(pc: Pc) {
    && (pc.Counting? ==> pc.window <= pc.now < pc.window + 5)
    && (pc.Expired? ==> pc.now < pc.window || pc.now >= pc.window + 5)
  }

  lemma {:induction false} AllSeeRight(s: Limiter, acts: seq<Act>)
    requires forall t :: 0 <= t < |s.pcs| ==> SeesRight(s.pcs[t])
    ensures var r := Run(s, acts); |r.pcs| == |s.pcs| && forall t :: 0 <= t < |r.pcs| ==> SeesRight(r.pcs[t])
    decreases |acts|
  {
    if acts != [] {
      AllSeeRight(Step(s, acts[0]), acts[1..]);
    }
  }

  /**
    Only a thread that saw a window replaces it, and only while it is still the one it saw; the
    time it puts there is its own. A thread that comes too late loads the window again.
   */
  lemma SwapExactly(s: Limiter, a: Act)
    ensures Step(s, a).window != s.window || Step(s, a).resets != s.resets ==>
              a.Swap? && a.t < |s.pcs| && s.pcs[a.t].Expired? && s.pcs[a.t].window == s.window
              && Step(s, a).window == s.pcs[a.t].now && Step(s, a).resets == s.resets + 1
    ensures a.Swap? && a.t < |s.pcs| && s.pcs[a.t].Expired? && s.pcs[a.t].window != s.window ==>
              Step(s, a) == s.(pcs := s.pcs[a.t := Loading(s.pcs[a.t].now)])
  {
  }

  /** The zero-initialised limiter has its first burst to give. */
  lemma FreshWithinBudget(n: nat)
    ensures WithinBudget(Limiter(0, 0, seq(n, _ => Outside), 0, 0))
  {
    NobodyOwes(n);
  }

  lemma {:induction false} NobodyOwes(n: nat)
    ensures Owing(seq(n, _ => Outside)) == 0
  {
    if n > 0 {
      assert seq(n, _ => Outside)[1..] == seq(n - 1, _ => Outside);
      NobodyOwes(n - 1);
    }
  }

  /** The actions of one call of an undisturbed thread. */
  function CallActs(t: nat, now: int): seq<Act> {
    [Enter(t, now), Load(t), Swap(t), Store(t), Add(t)]
  }

  function Call(s: Limiter, t: nat, now: int): Limiter {
    Step(Step(Step(Step(Step(s, Enter(t, now)), Load(t)), Swap(t)), Store(t)), Add(t))
  }

  lemma {:induction false} RunConcat(s: Limiter, a: seq<Act>, b: seq<Act>)
    ensures Run(s, a + b) == Run(Run(s, a), b)
    decreases |a|
  {
    hide Step;
    if a == [] {
      assert a + b == b;
    } else {
      assert (a + b)[1..] == a[1..] + b;
      RunConcat(Step(s, a[0]), a[1..], b);
    }
  }

  lemma OneAct(s: Limiter, a: Act)
    ensures Run(s, [a]) == Step(s, a)
  {
    hide Step;
    assert Run(Step(s, a), []) == Step(s, a);
  }

  lemma CallIsRun(s: Limiter, t: nat, now: int)
    ensures Run(s, CallActs(t, now)) == Call(s, t, now)
  {
    hide Step;
    var a := CallActs(t, now);
    assert a == [a[0]] + ([a[1]] + ([a[2]] + ([a[3]] + [a[4]])));
    OneAct(s, a[0]);
    RunConcat(s, [a[0]], [a[1]] + ([a[2]] + ([a[3]] + [a[4]])));
    var s1 := Step(s, a[0]);
    OneAct(s1, a[1]);
    RunConcat(s1, [a[1]], [a[2]] + ([a[3]] + [a[4]]));
    var s2 := Step(s1, a[1]);
    OneAct(s2, a[2]);
    RunConcat(s2, [a[2]], [a[3]] + [a[4]]);
    var s3 := Step(s2, a[2]);
    OneAct(s3, a[3]);
    RunConcat(s3, [a[3]], [a[4]]);
    OneAct(Step(s3, a[3]), a[4]);
  }

  /**
    What one undisturbed call decides: a window that is over, or not begun yet, is replaced and
    the message let through; within the window the first BURST messages are.
   */
  lemma CallDecides(s: Limiter, t: nat, now: int)
    requires t < |s.pcs| && s.pcs[t] == Outside
    ensures var r := Call(s, t, now);
            && r.pcs == s.pcs
            && (if now < s.window || now >= s.window + 5 then
                  r.window == now && r.count == 1 && r.resets == s.resets + 1 && r.allowed == s.allowed + 1
                else
                  && r.window == s.window && r.resets == s.resets
                  && r.count == (if s.count == 0x7fff_ffff then -0x8000_0000 else s.count + 1)
                  && r.allowed == s.allowed + if s.count < 5 then 1 else 0)
  {
    var s1 := Step(s, Enter(t, now));
    var s2 := Step(s1, Load(t));
    var s3 := Step(s2, Swap(t));
    var s4 := Step(s3, Store(t));
    var s5 := Step(s4, Add(t));
    assert s5.pcs == s.pcs;
  }

  /* The bound needs the counter not to wrap. */

  /** At the largest value, with the budget spent, two more messages break the bound. */
  lemma WrapReopens(s: Limiter, t: nat, now: int)
    requires t < |s.pcs| && s.pcs[t] == Outside && s.count == INT_MAX && !OutOfWindow(now, s.window)
    requires WithinBudget(s) && s.allowed == BURST * (1 + s.resets)
    ensures var r := Call(Call(s, t, now), t, now);
            r.resets == s.resets && r.allowed > 5 * (1 + r.resets)
  {
    CallDecides(s, t, now);
    CallDecides(Call(s, t, now), t, now);
  }

  /** The actions of n calls in the first second. */
  function Burst(n: nat): seq<Act> {
    if n == 0 then [] else Burst(n - 1) + CallActs(0, 0)
  }

  /** A fresh limiter with one thread. */
  function Fresh(): Limiter {
    Limiter(0, 0, [Outside], 0, 0)
  }

  /** After n calls in one window the counter is n and at most one burst was let through. */
  lemma {:induction false} BurstCounts(n: nat)
    requires n <= INT_MAX
    ensures Run(Fresh(), Burst(n)) == Limiter(0, n, [Outside], if n < BURST then n else BURST, 0)
  {
    hide Call, CallActs, Run;
    if n == 0 {
      NoActs(Fresh());
    } else {
      BurstCounts(n - 1);
      var s := Run(Fresh(), Burst(n - 1));
      RunConcat(Fresh(), Burst(n - 1), CallActs(0, 0));
      CallIsRun(s, 0, 0);
      CallDecides(s, 0, 0);
      CountedCall(s, Call(s, 0, 0), n);
    }
  }

  lemma NoActs(s: Limiter)
    ensures Run(s, []) == s
  {
  }

  lemma CountedCall(s: Limiter, r: Limiter, n: nat)
    requires 0 < n <= INT_MAX && s == Limiter(0, n - 1, [Outside], if n - 1 < BURST then n - 1 else BURST, 0)
    requires r.pcs == s.pcs && r.window == 0 && r.count == Increment(s.count) && r.resets == 0
    requires r.allowed - s.allowed == if s.count < BURST then 1 else 0
    ensures r == Limiter(0, n, [Outside], if n < BURST then n else BURST, 0)
  {
  }

  /** A fresh limiter does reach the broken bound: after 2^31 + 1 calls within one window. */
  lemma BoundBreaks()
    ensures WithinBudget(Fresh())
    ensures var r := Run(Fresh(), Burst(INT_MAX) + CallActs(0, 0) + CallActs(0, 0));
            r.allowed > 5 * (1 + r.resets)
  {
    hide Call, CallActs, Burst, Run;
    var s := Run(Fresh(), Burst(INT_MAX));
    BurstCounts(INT_MAX);
    RunConcat(Fresh(), Burst(INT_MAX) + CallActs(0, 0), CallActs(0, 0));
    RunConcat(Fresh(), Burst(INT_MAX), CallActs(0, 0));
    CallIsRun(s, 0, 0);
    CallIsRun(Call(s, 0, 0), 0, 0);
    WrapReopens(s, 0, 0);
  }
}
