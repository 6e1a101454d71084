/** Greedy scheduling of weighted jobs on machines, and how far it can be from the best schedule. */
module ListScheduling {

  // What the first `n` jobs put on machine `j`, when job i goes to machine f[i].
  ghost function LoadOn(w: seq<nat>, f: seq<nat>, n: nat, j: nat): nat
    requires n <= |w| && n <= |f|
  {
    if n == 0 then 0 else LoadOn(w, f, n - 1, j) + (if f[n - 1] == j then w[n - 1] else 0)
  }

  ghost function Total(w: seq<nat>, n: nat): nat
    requires n <= |w|
  {
    if n == 0 then 0 else Total(w, n - 1) + w[n - 1]
  }

  // The loads of the first `m` machines together.
  ghost function AllLoads(w: seq<nat>, f: seq<nat>, n: nat, m: nat): nat
    requires n <= |w| && n <= |f|
  {
    if m == 0 then 0 else AllLoads(w, f, n, m - 1) + LoadOn(w, f, n, m - 1)
  }

  ghost predicate IsAssignment(f: seq<nat>, n: nat, m: nat) {
    |f| == n && forall i :: 0 <= i < n ==> f[i] < m
  }

  // Every machine carries at most `t`.
  ghost predicate Within(w: seq<nat>, f: seq<nat>, n: nat, m: nat, t: nat)
    requires n <= |w| && n <= |f|
  {
    forall j: nat :: j < m ==> LoadOn(w, f, n, j) <= t
  }

  ghost predicate Descending(w: seq<nat>) {
    forall i, j :: 0 <= i < j < |w| ==> w[i] >= w[j]
  }

  // Job i goes to a machine that is least loaded when it is placed, the first of them.
  ghost predicate PlacedGreedily(w: seq<nat>, f: seq<nat>, m: nat, i: nat)
    requires i < |w| && i < |f|
  {
    && f[i] < m
    && (forall j: nat :: j < m ==> LoadOn(w, f, i, f[i]) <= LoadOn(w, f, i, j))
    && (forall j: nat :: j < f[i] ==> LoadOn(w, f, i, f[i]) < LoadOn(w, f, i, j))
  }

  ghost predicate IsGreedy(w: seq<nat>, f: seq<nat>, m: nat) {
    |f| == |w| && forall i :: 0 <= i < |w| ==> PlacedGreedily(w, f, m, i)
  }

  // Jobs placed later do not matter.
  lemma {:induction false} LoadOfPrefix(w: seq<nat>, f: seq<nat>, g: seq<nat>, n: nat, j: nat)
    requires n <= |w| && f <= g && n <= |f|
    ensures LoadOn(w, f, n, j) == LoadOn(w, g, n, j)
  {
    if n > 0 {
      LoadOfPrefix(w, f, g, n - 1, j);
    }
  }

  lemma PlacedStays(w: seq<nat>, f: seq<nat>, g: seq<nat>, m: nat, i: nat)
    requires i < |w| && f <= g && i < |f|
    ensures PlacedGreedily(w, f, m, i) <==> PlacedGreedily(w, g, m, i)
  {
    forall j: nat
      ensures LoadOn(w, f, i, j) == LoadOn(w, g, i, j)
    {
      LoadOfPrefix(w, f, g, i, j);
    }
  }

  // The weights of the jobs are the loads of the machines.
  lemma {:induction false} LoadsAreTotal(w: seq<nat>, f: seq<nat>, n: nat, m: nat)
    requires n <= |w| && n <= |f| && forall i :: 0 <= i < n ==> f[i] < m
    ensures AllLoads(w, f, n, m) == Total(w, n)
  {
    if n == 0 {
      NoLoads(w, f, m);
    } else {
      LoadsAreTotal(w, f, n - 1, m);
      OneMoreJob(w, f, n, m);
    }
  }

  lemma {:induction false} NoLoads(w: seq<nat>, f: seq<nat>, m: nat)
    ensures AllLoads(w, f, 0, m) == 0
  {
    if m > 0 {
      NoLoads(w, f, m - 1);
    }
  }

  lemma {:induction false} OneMoreJob(w: seq<nat>, f: seq<nat>, n: nat, m: nat)
    requires 0 < n <= |w| && n <= |f|
    ensures AllLoads(w, f, n, m) == AllLoads(w, f, n - 1, m) + (if f[n - 1] < m then w[n - 1] else 0)
  {
    if m > 0 {
      OneMoreJob(w, f, n, m - 1);
    }
  }

  lemma {:induction false} LoadsAtLeast(w: seq<nat>, f: seq<nat>, n: nat, m: nat, least: nat)
    requires n <= |w| && n <= |f| && forall j: nat :: j < m ==> least <= LoadOn(w, f, n, j)
    ensures m * least <= AllLoads(w, f, n, m)
  {
    if m > 0 {
      LoadsAtLeast(w, f, n, m - 1, least);
      assert m * least == (m - 1) * least + least;
    }
  }

  lemma {:induction false} LoadsAtMost(w: seq<nat>, f: seq<nat>, n: nat, m: nat, most: nat)
    requires n <= |w| && n <= |f| && Within(w, f, n, m, most)
    ensures AllLoads(w, f, n, m) <= m * most
  {
    if m > 0 {
      LoadsAtMost(w, f, n, m - 1, most);
      assert m * most == (m - 1) * most + most;
    }
  }

  lemma {:induction false} LoadsGrow(w: seq<nat>, f: seq<nat>, a: nat, b: nat, j: nat)
    requires a <= b <= |w| && b <= |f|
    ensures LoadOn(w, f, a, j) <= LoadOn(w, f, b, j)
    ensures Total(w, a) <= Total(w, b)
  {
    if a < b {
      LoadsGrow(w, f, a, b - 1, j);
    }
  }

  // Jobs are counted by giving each of them the weight one.
  ghost function Count(f: seq<nat>, n: nat, j: nat): nat
    requires n <= |f|
  {
    if n == 0 then 0 else Count(f, n - 1, j) + (if f[n - 1] == j then 1 else 0)
  }

  // Jobs of one weight.
  lemma {:induction false} EvenLoad(u: seq<nat>, f: seq<nat>, n: nat, j: nat, each: nat)
    requires n <= |u| && n <= |f| && forall i :: 0 <= i < n && f[i] == j ==> u[i] == each
    ensures LoadOn(u, f, n, j) == each * Count(f, n, j)
  {
    if n > 0 {
      EvenLoad(u, f, n - 1, j, each);
    }
  }

  // Jobs heavier than a third of `t`: no three of them fit into `t`.
  lemma {:induction false} HeavyLoad(w: seq<nat>, f: seq<nat>, n: nat, j: nat, t: nat)
    requires n <= |w| && n <= |f| && forall i :: 0 <= i < n ==> 3 * w[i] > t
    ensures 3 * LoadOn(w, f, n, j) >= (t + 1) * Count(f, n, j)
  {
    if n > 0 {
      HeavyLoad(w, f, n - 1, j, t);
      var before := Count(f, n - 1, j);
      assert (t + 1) * (before + 1) == (t + 1) * before + (t + 1);
    }
  }

  lemma AtMostTwo(w: seq<nat>, f: seq<nat>, n: nat, j: nat, t: nat)
    requires n <= |w| && n <= |f| && forall i :: 0 <= i < n ==> 3 * w[i] > t
    requires LoadOn(w, f, n, j) <= t
    ensures Count(f, n, j) <= 2
  {
    HeavyLoad(w, f, n, j, t);
    ThreeOrMore(t + 1, Count(f, n, j));
  }

  lemma ThreeOrMore(a: nat, c: nat)
    ensures c >= 3 ==> a * c >= 3 * a
  {
    if c >= 3 {
      assert a * c == 3 * a + a * (c - 3);
    }
  }

  lemma {:induction false} NoneNoLoad(w: seq<nat>, f: seq<nat>, n: nat, j: nat)
    requires n <= |w| && n <= |f| && Count(f, n, j) == 0
    ensures LoadOn(w, f, n, j) == 0
    ensures forall i :: 0 <= i < n ==> f[i] != j
  {
    if n > 0 {
      NoneNoLoad(w, f, n - 1, j);
    }
  }

  lemma {:induction false} AloneLoad(w: seq<nat>, f: seq<nat>, n: nat, k: nat)
    requires k < n <= |w| && n <= |f| && Count(f, n, f[k]) == 1
    ensures LoadOn(w, f, n, f[k]) == w[k]
  {
    if f[n - 1] == f[k] {
      NoneNoLoad(w, f, n - 1, f[k]);
    } else {
      AloneLoad(w, f, n - 1, k);
    }
  }

  lemma {:induction false} Counted(f: seq<nat>, n: nat, k: nat)
    requires k < n <= |f|
    ensures Count(f, n, f[k]) >= 1
  {
    if k < n - 1 {
      Counted(f, n - 1, k);
    }
  }

  lemma {:induction false} OneLoad(w: seq<nat>, f: seq<nat>, n: nat, k: nat)
    requires k < n <= |w| && n <= |f|
    ensures LoadOn(w, f, n, f[k]) >= w[k]
  {
    if k < n - 1 {
      OneLoad(w, f, n - 1, k);
    }
  }

  // A job that is not alone shares its machine with another.
  lemma {:induction false} SharedLoad(w: seq<nat>, f: seq<nat>, n: nat, k: nat, least: nat)
    requires k < n <= |w| && n <= |f| && Count(f, n, f[k]) >= 2
    requires forall i :: 0 <= i < n ==> w[i] >= least
    ensures LoadOn(w, f, n, f[k]) >= w[k] + least
  {
    if f[n - 1] == f[k] {
      if k < n - 1 {
        OneLoad(w, f, n - 1, k);
      } else {
        SomeLoad(w, f, n - 1, f[k], least);
      }
    } else {
      SharedLoad(w, f, n - 1, k, least);
    }
  }

  lemma {:induction false} SomeLoad(w: seq<nat>, f: seq<nat>, n: nat, j: nat, least: nat)
    requires n <= |w| && n <= |f| && Count(f, n, j) >= 1
    requires forall i :: 0 <= i < n ==> w[i] >= least
    ensures LoadOn(w, f, n, j) >= least
  {
    if f[n - 1] != j {
      SomeLoad(w, f, n - 1, j, least);
    }
  }

  // A job is charged two when it is alone on its machine, and one when it is not, so that a machine
  // with one or two jobs is always charged two.
  ghost function Charges(f: seq<nat>, n: nat): (u: seq<nat>)
    requires n <= |f|
    ensures |u| == n
  {
    seq(n, i requires 0 <= i < n => if Count(f, n, f[i]) == 1 then 2 else 1)
  }

  lemma MachineCharge(f: seq<nat>, n: nat, j: nat)
    requires n <= |f| && Count(f, n, j) <= 2
    ensures LoadOn(Charges(f, n), f, n, j) <= 2
    ensures Count(f, n, j) >= 1 ==> LoadOn(Charges(f, n), f, n, j) == 2
  {
    EvenLoad(Charges(f, n), f, n, j, if Count(f, n, j) == 1 then 2 else 1);
  }

  lemma {:induction false} TotalAtMost(u: seq<nat>, v: seq<nat>, n: nat)
    requires n <= |u| && n <= |v| && forall i :: 0 <= i < n ==> u[i] <= v[i]
    ensures Total(u, n) <= Total(v, n)
  {
    if n > 0 {
      TotalAtMost(u, v, n - 1);
    }
  }

  // The first job that would not fit into `t` cannot be heavier than a third of it. Here `f` has
  // placed the jobs before it and `g` is any assignment that fits: job by job `g` charges no less
  // than `f`, and `f` has charged all there is before the last job is placed.
  lemma HeavyJobsFit(w: seq<nat>, f: seq<nat>, g: seq<nat>, i: nat, m: nat, t: nat)
    requires m > 0 && i < |w| && |f| == |w| && IsAssignment(g, |w|, m) && Within(w, g, |w|, m, t)
    requires forall k :: 0 <= k < i ==> f[k] < m
    requires PlacedGreedily(w, f, m, i)
    requires forall k :: 0 <= k <= i ==> 3 * w[k] > t && w[k] >= w[i]
    requires Within(w, f, i, m, t)
    ensures LoadOn(w, f, i, f[i]) + w[i] <= t
  {
    if LoadOn(w, f, i, f[i]) + w[i] > t {
      FitsWithin(w, g, i + 1, m, t);
      forall k | 0 <= k < i
        ensures Charges(f, i)[k] <= Charges(g, i + 1)[k]
      {
        AloneStaysAlone(w, f, g, i, k, m, t);
      }
      TotalAtMost(Charges(f, i), Charges(g, i + 1), i);
      AllChargedBefore(w, f, g, i, m, t);
      AtMostAllCharged(w, g, i + 1, m, t);
    }
  }

  lemma FitsWithin(w: seq<nat>, g: seq<nat>, n: nat, m: nat, t: nat)
    requires n <= |w| && IsAssignment(g, |w|, m) && Within(w, g, |w|, m, t)
    ensures Within(w, g, n, m, t)
  {
    forall j: nat | j < m
      ensures LoadOn(w, g, n, j) <= t
    {
      LoadsGrow(w, g, n, |w|, j);
    }
  }

  lemma AloneStaysAlone(w: seq<nat>, f: seq<nat>, g: seq<nat>, i: nat, k: nat, m: nat, t: nat)
    requires k < i < |w| && |f| == |w| == |g| && f[k] < m && g[k] < m
    requires LoadOn(w, f, i, f[i]) <= LoadOn(w, f, i, f[k]) && LoadOn(w, f, i, f[i]) + w[i] > t
    requires forall l :: 0 <= l <= i ==> w[l] >= w[i]
    requires Within(w, g, i + 1, m, t)
    ensures Charges(f, i)[k] <= Charges(g, i + 1)[k]
  {
    if Count(f, i, f[k]) == 1 {
      AloneLoad(w, f, i, k);
      Counted(g, i + 1, k);
      if Count(g, i + 1, g[k]) != 1 {
        SharedLoad(w, g, i + 1, k, w[i]);
      }
    }
  }

  lemma AllChargedBefore(w: seq<nat>, f: seq<nat>, g: seq<nat>, i: nat, m: nat, t: nat)
    requires m > 0 && i < |w| && |f| == |w| && IsAssignment(g, |w|, m) && Within(w, g, |w|, m, t)
    requires forall k :: 0 <= k < i ==> f[k] < m
    requires PlacedGreedily(w, f, m, i)
    requires forall k :: 0 <= k <= i ==> 3 * w[k] > t
    requires Within(w, f, i, m, t) && LoadOn(w, f, i, f[i]) + w[i] > t
    ensures Total(Charges(f, i), i) >= 2 * m
  {
    OneLoad(w, g, |w|, i);
    assert LoadOn(w, g, |w|, g[i]) <= t;
    var u := Charges(f, i);
    forall j: nat | j < m
      ensures 2 <= LoadOn(u, f, i, j)
    {
      AtMostTwo(w, f, i, j, t);
      if Count(f, i, j) == 0 {
        NoneNoLoad(w, f, i, j);
      }
      MachineCharge(f, i, j);
    }
    LoadsAtLeast(u, f, i, m, 2);
    LoadsAreTotal(u, f, i, m);
  }

  lemma AtMostAllCharged(w: seq<nat>, g: seq<nat>, n: nat, m: nat, t: nat)
    requires 0 < n <= |w| && IsAssignment(g, |w|, m) && Within(w, g, n, m, t)
    requires forall k :: 0 <= k < n ==> 3 * w[k] > t
    ensures Total(Charges(g, n), n - 1) + 1 <= 2 * m
  {
    var u := Charges(g, n);
    forall j: nat | j < m
      ensures LoadOn(u, g, n, j) <= 2
    {
      AtMostTwo(w, g, n, j, t);
      MachineCharge(g, n, j);
    }
    LoadsAtMost(u, g, n, m, 2);
    LoadsAreTotal(u, g, n, m);
    assert Total(u, n) == Total(u, n - 1) + u[n - 1];
  }

  lemma GreedyAssigns(w: seq<nat>, f: seq<nat>, m: nat)
    requires IsGreedy(w, f, m)
    ensures IsAssignment(f, |w|, m)
  {
    forall i | 0 <= i < |w|
      ensures f[i] < m
    {
      assert PlacedGreedily(w, f, m, i);
    }
  }

  // While all jobs are heavy, the greedy schedule is as good as any.
  lemma {:induction false} HeavyPrefixFits(w: seq<nat>, f: seq<nat>, g: seq<nat>, n: nat, m: nat, t: nat)
    requires m > 0 && n <= |w| && IsGreedy(w, f, m) && Descending(w)
    requires IsAssignment(g, |w|, m) && Within(w, g, |w|, m, t)
    requires n > 0 ==> 3 * w[n - 1] > t
    ensures Within(w, f, n, m, t)
  {
    if n > 0 {
      var i := n - 1;
      assert i > 0 ==> w[i - 1] >= w[i];
      HeavyPrefixFits(w, f, g, i, m, t);
      GreedyAssigns(w, f, m);
      assert PlacedGreedily(w, f, m, i);
      HeavyJobsFit(w, f, g, i, m, t);
    }
  }

  // A machine's load is at most the average plus the weight of the job placed on it last.
  lemma LastJobBound(w: seq<nat>, f: seq<nat>, i: nat, m: nat)
    requires i < |w| && IsGreedy(w, f, m)
    ensures m * LoadOn(w, f, i + 1, f[i]) <= Total(w, i + 1) + (m - 1) * w[i]
  {
    hide LoadOn, Total, AllLoads;
    assert PlacedGreedily(w, f, m, i);
    GreedyAssigns(w, f, m);
    var least := LoadOn(w, f, i, f[i]);
    LoadsAtLeast(w, f, i, m, least);
    LoadsAreTotal(w, f, i, m);
    JobPlaced(w, f, i);
    OneMoreShare(m, least, w[i]);
  }

  lemma JobPlaced(w: seq<nat>, f: seq<nat>, i: nat)
    requires i < |w| && i < |f|
    ensures LoadOn(w, f, i + 1, f[i]) == LoadOn(w, f, i, f[i]) + w[i] && Total(w, i + 1) == Total(w, i) + w[i]
  {
  }

  lemma OneMoreShare(m: nat, least: nat, more: nat)
    ensures m * (least + more) == m * least + (m - 1) * more + more
  {
  }

  // Graham's bound for longest first: 3 m times a load is at most 4 m - 1 times the largest load of
  // any assignment to the m machines.
  lemma {:induction false} LongestFirstBound(w: seq<nat>, f: seq<nat>, g: seq<nat>, n: nat, m: nat, t: nat, j: nat)
    requires 0 < m && j < m && n <= |w| && IsGreedy(w, f, m) && Descending(w)
    requires IsAssignment(g, |w|, m) && Within(w, g, |w|, m, t)
    ensures 3 * m * LoadOn(w, f, n, j) <= (4 * m - 1) * t
  {
    if n == 0 {
      assert (4 * m - 1) * t >= 0;
    } else if f[n - 1] != j {
      LongestFirstBound(w, f, g, n - 1, m, t, j);
    } else if 3 * w[n - 1] > t {
      HeavyPrefixFits(w, f, g, n, m, t);
      AtLeastThreeFold(LoadOn(w, f, n, j), t, m);
    } else {
      LastJobBound(w, f, n - 1, m);
      LoadsAtMost(w, g, |w|, m, t);
      LoadsAreTotal(w, g, |w|, m);
      LoadsGrow(w, g, n, |w|, j);
      AverageAndThird(m, LoadOn(w, f, n, j), Total(w, n), w[n - 1], t);
    }
  }

  lemma AtLeastThreeFold(load: nat, t: nat, m: nat)
    requires load <= t && m > 0
    ensures 3 * m * load <= (4 * m - 1) * t
  {
    assert 3 * m * load <= 3 * m * t;
    assert (4 * m - 1) * t == 3 * m * t + (m - 1) * t;
  }

  lemma AverageAndThird(m: nat, load: nat, total: nat, last: nat, t: nat)
    requires m > 0 && m * load <= total + (m - 1) * last && total <= m * t && 3 * last <= t
    ensures 3 * m * load <= (4 * m - 1) * t
  {
    ScaledThird(m - 1, last, t);
    ThreeAverages(m, load, t);
  }

  lemma ScaledThird(k: nat, last: nat, t: nat)
    requires 3 * last <= t
    ensures 3 * (k * last) <= k * t
  {
    assert k * t == 3 * (k * last) + k * (t - 3 * last);
  }

  lemma ThreeAverages(m: nat, load: nat, t: nat)
    ensures 3 * m * load == 3 * (m * load)
    ensures (4 * m - 1) * t == 3 * (m * t) + (m - 1) * t
  {
  }

  lemma SamePlace(w: seq<nat>, f: seq<nat>, g: seq<nat>, m: nat, i: nat)
    requires i < |w| && i < |f| && i < |g| && PlacedGreedily(w, f, m, i) && PlacedGreedily(w, g, m, i)
    requires forall j: nat :: LoadOn(w, f, i, j) == LoadOn(w, g, i, j)
    ensures f[i] == g[i]
  {
    hide LoadOn;
    var a, b := f[i], g[i];
    assert LoadOn(w, f, i, a) == LoadOn(w, g, i, a) && LoadOn(w, f, i, b) == LoadOn(w, g, i, b);
  }

  // A greedy schedule is determined by the weights.
  lemma {:induction false} GreedyIsUnique(w: seq<nat>, f: seq<nat>, g: seq<nat>, n: nat, m: nat)
    requires n <= |w| && IsGreedy(w, f, m) && IsGreedy(w, g, m)
    ensures f[..n] == g[..n]
    ensures forall j: nat :: LoadOn(w, f, n, j) == LoadOn(w, g, n, j)
  {
    if n > 0 {
      var i := n - 1;
      GreedyIsUnique(w, f, g, i, m);
      SamePlace(w, f, g, m, i);
      assert f[..n] == f[..i] + [f[i]] && g[..n] == g[..i] + [g[i]];
    }
  }

  // Either no machine has two jobs yet, or no machine is without one.
  ghost predicate Spread(f: seq<nat>, n: nat, m: nat)
    requires n <= |f|
  {
    || (forall j: nat :: j < m ==> Count(f, n, j) <= 1)
    || (forall j: nat :: j < m ==> Count(f, n, j) >= 1)
  }

  lemma {:induction false} StaysSpread(w: seq<nat>, f: seq<nat>, n: nat, m: nat)
    requires n <= |w| && IsGreedy(w, f, m) && forall i :: 0 <= i < |w| ==> w[i] > 0
    ensures Spread(f, n, m)
  {
    if n > 0 {
      var i := n - 1;
      StaysSpread(w, f, i, m);
      assert PlacedGreedily(w, f, m, i);
      if j: nat :| j < m && Count(f, i, j) == 0 {
        NoneNoLoad(w, f, i, j);
        assert LoadOn(w, f, i, f[i]) == 0;
        if Count(f, i, f[i]) >= 1 {
          SomeLoad(w, f, i, f[i], 1);
        }
      }
    }
  }

  ghost function Units(n: nat): (u: seq<nat>)
    ensures |u| == n && forall i :: 0 <= i < n ==> u[i] == 1
  {
    seq(n, i => 1)
  }

  lemma {:induction false} TotalOfUnits(k: nat, n: nat)
    requires n <= k
    ensures Total(Units(k), n) == n
  {
    if n > 0 {
      TotalOfUnits(k, n - 1);
    }
  }

  lemma {:induction false} FewJobs(f: seq<nat>, n: nat, m: nat, empty: nat)
    requires n <= |f| && forall j: nat :: j < m ==> Count(f, n, j) <= 1
    requires Count(f, n, empty) == 0
    ensures AllLoads(Units(n), f, n, m) <= if empty < m then m - 1 else m
  {
    if m > 0 {
      FewJobs(f, n, m - 1, empty);
      EvenLoad(Units(n), f, n, m - 1, 1);
    }
  }

  // With positive weights and no more machines than jobs, no machine is left without a job.
  lemma EveryMachineIsUsed(w: seq<nat>, f: seq<nat>, m: nat, j: nat)
    requires j < m <= |w| && IsGreedy(w, f, m) && forall i :: 0 <= i < |w| ==> w[i] > 0
    ensures Count(f, |w|, j) >= 1
  {
    var n := |w|;
    StaysSpread(w, f, n, m);
    GreedyAssigns(w, f, m);
    if Count(f, n, j) == 0 {
      FewJobs(f, n, m, j);
      LoadsAreTotal(Units(n), f, n, m);
      TotalOfUnits(n, n);
    }
  }

  const FIVE_JOBS: seq<nat> := [3, 3, 2, 2, 2]
  const GREEDY: seq<nat> := [0, 1, 0, 1, 0]
  const BEST: seq<nat> := [0, 0, 1, 1, 1]

  lemma LoadsAfterOne(f: seq<nat>, n: nat, a: nat, b: nat)
    requires n < 5 && |f| == 5 && LoadOn(FIVE_JOBS, f, n, 0) == a && LoadOn(FIVE_JOBS, f, n, 1) == b
    ensures LoadOn(FIVE_JOBS, f, n + 1, 0) == a + (if f[n] == 0 then FIVE_JOBS[n] else 0)
    ensures LoadOn(FIVE_JOBS, f, n + 1, 1) == b + (if f[n] == 1 then FIVE_JOBS[n] else 0)
  {
  }

  lemma ExampleIsGreedy()
    ensures IsGreedy(FIVE_JOBS, GREEDY, 2) && LoadOn(FIVE_JOBS, GREEDY, 5, 0) == 7
  {
    assert LoadOn(FIVE_JOBS, GREEDY, 0, 0) == 0 && LoadOn(FIVE_JOBS, GREEDY, 0, 1) == 0;
    hide LoadOn;
    LoadsAfterOne(GREEDY, 0, 0, 0);
    LoadsAfterOne(GREEDY, 1, 3, 0);
    LoadsAfterOne(GREEDY, 2, 3, 3);
    LoadsAfterOne(GREEDY, 3, 5, 3);
    LoadsAfterOne(GREEDY, 4, 5, 5);
    forall i | 0 <= i < 5
      ensures PlacedGreedily(FIVE_JOBS, GREEDY, 2, i)
    {
    }
  }

  lemma ExampleFits()
    ensures IsAssignment(BEST, 5, 2) && Within(FIVE_JOBS, BEST, 5, 2, 6)
  {
    assert LoadOn(FIVE_JOBS, BEST, 0, 0) == 0 && LoadOn(FIVE_JOBS, BEST, 0, 1) == 0;
    hide LoadOn;
    LoadsAfterOne(BEST, 0, 0, 0);
    LoadsAfterOne(BEST, 1, 3, 0);
    LoadsAfterOne(BEST, 2, 6, 0);
    LoadsAfterOne(BEST, 3, 6, 2);
    LoadsAfterOne(BEST, 4, 6, 4);
  }

  // The bound cannot be improved: on two machines these five jobs attain it.
  lemma BoundIsAttained()
    ensures IsGreedy(FIVE_JOBS, GREEDY, 2) && Descending(FIVE_JOBS)
    ensures IsAssignment(BEST, 5, 2) && Within(FIVE_JOBS, BEST, 5, 2, 6)
    ensures 3 * 2 * LoadOn(FIVE_JOBS, GREEDY, 5, 0) == (4 * 2 - 1) * 6
  {
    ExampleIsGreedy();
    ExampleFits();
  }
}
