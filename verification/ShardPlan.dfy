/** The plan of the test shards: whole modules, largest first, each to the shard that is smallest so far. */
module ShardPlan {
  import opened ListScheduling
  import opened Text

  // A test, by the module it is in, its name, and the file of the module.
  datatype Test = Test(mod: string, name: string, path: string)

  // The size in bytes of every file.
  type Sizes = string -> nat

  // The tests of one module, in the order they were given.
  function OfModule(tests: seq<Test>, m: string): seq<Test> {
    if tests == [] then []
    else
      var last := tests[|tests| - 1];
      OfModule(tests[..|tests| - 1], m) + (if last.mod == m then [last] else [])
  }

  // A module weighs what its file does; of several files the last one counts.
  function WeightOf(tests: seq<Test>, sizes: Sizes, m: string): nat {
    var own := OfModule(tests, m);
    if own == [] then 0 else sizes(own[|own| - 1].path)
  }

  // The sorting key: heavier first, and by name among equals.
  predicate Before(weight: map<string, nat>, a: string, b: string)
    requires a in weight && b in weight
  {
    weight[a] > weight[b] || (weight[a] == weight[b] && Less(a, b))
  }

  ghost predicate Sorted(weight: map<string, nat>, order: seq<string>) {
    && (forall i :: 0 <= i < |order| ==> order[i] in weight)
    && (forall i, j :: 0 <= i < j < |order| ==> Before(weight, order[i], order[j]))
  }

  // All the keys in their order.
  ghost predicate IsOrder(weight: map<string, nat>, order: seq<string>) {
    Sorted(weight, order) && forall m :: m in weight <==> m in order
  }

  lemma BeforeIsOrder(weight: map<string, nat>, a: string, b: string, c: string)
    requires a in weight && b in weight && c in weight
    ensures a == b || Before(weight, a, b) || Before(weight, b, a)
    ensures !Before(weight, a, a)
    ensures Before(weight, a, b) && Before(weight, b, c) ==> Before(weight, a, c)
  {
    LessIsTotal(a, b);
    LessIsTotal(a, a);
    if Less(a, b) && Less(b, c) {
      LessIsTransitive(a, b, c);
    }
  }

  // There is one order of the keys, whatever order they came in.
  lemma {:induction false} OrderIsUnique(weight: map<string, nat>, a: seq<string>, b: seq<string>)
    requires Sorted(weight, a) && Sorted(weight, b) && forall m :: m in a <==> m in b
    ensures a == b
  {
    if a == [] || b == [] {
      HasMember(a);
      HasMember(b);
    } else {
      FirstIsFirst(weight, a, b);
      FirstIsFirst(weight, b, a);
      BeforeIsOrder(weight, a[0], b[0], a[0]);
      assert a[0] == b[0];
      forall m
        ensures m in a[1..] <==> m in b[1..]
      {
        FirstIsGone(weight, a, m);
        FirstIsGone(weight, b, m);
      }
      OrderIsUnique(weight, a[1..], b[1..]);
      assert a == [a[0]] + a[1..] && b == [b[0]] + b[1..];
    }
  }

  lemma HasMember(a: seq<string>)
    ensures a != [] ==> exists m :: m in a
  {
    if a != [] {
      assert a[0] in a;
    }
  }

  lemma FirstIsFirst(weight: map<string, nat>, a: seq<string>, b: seq<string>)
    requires Sorted(weight, a) && a != [] && b != [] && b[0] in a
    ensures b[0] == a[0] || Before(weight, a[0], b[0])
  {
    var i :| 0 <= i < |a| && a[i] == b[0];
  }

  lemma FirstIsGone(weight: map<string, nat>, a: seq<string>, m: string)
    requires Sorted(weight, a) && a != []
    ensures m in a[1..] <==> m in a && m != a[0]
  {
    if m in a[1..] {
      var i :| 0 <= i < |a[1..]| && a[1..][i] == m;
      assert a[i + 1] == m && Before(weight, a[0], m);
      BeforeIsOrder(weight, m, m, m);
    }
    if m in a && m != a[0] {
      var i :| 0 <= i < |a| && a[i] == m;
      assert a[1..][i - 1] == m;
    }
  }

  // Sorting by insertion stands for the built-in sort; only the order it ends in matters.
  method SortModules(names: seq<string>, weight: map<string, nat>) returns (order: seq<string>)
    requires forall m :: m in weight <==> m in names
    requires forall i, j :: 0 <= i < j < |names| ==> names[i] != names[j]
    ensures IsOrder(weight, order)
  {
    order := [];
    for n := 0 to |names|
      invariant Sorted(weight, order) && forall m :: m in order <==> m in names[..n]
    {
      assert names[n] in names;
      assert names[n] !in order;
      order := InsertModule(order, weight, names[n]);
      assert names[..n + 1] == names[..n] + [names[n]];
    }
    assert names[..|names|] == names;
  }

  method InsertModule(order: seq<string>, weight: map<string, nat>, name: string) returns (out: seq<string>)
    requires Sorted(weight, order) && name in weight && name !in order
    ensures Sorted(weight, out) && forall m :: m in out <==> m in order || m == name
  {
    var at := 0;
    while at < |order| && Before(weight, order[at], name)
      invariant 0 <= at <= |order|
      invariant forall i :: 0 <= i < at ==> Before(weight, order[i], name)
    {
      at := at + 1;
    }
    forall i | at <= i < |order|
      ensures Before(weight, name, order[i])
    {
      BeforeIsOrder(weight, name, order[at], order[i]);
    }
    out := order[..at] + [name] + order[at..];
  }

  // The tests that the modules placed on shard `j` bring, among the first `n` modules.
  ghost function Gathered(tests: seq<Test>, order: seq<string>, f: seq<nat>, n: nat, j: nat): seq<Test>
    requires n <= |order| && n <= |f|
  {
    if n == 0 then []
    else Gathered(tests, order, f, n - 1, j) + (if f[n - 1] == j then OfModule(tests, order[n - 1]) else [])
  }

  ghost function Weights(order: seq<string>, weight: map<string, nat>): (w: seq<nat>)
    requires forall i :: 0 <= i < |order| ==> order[i] in weight
    ensures |w| == |order|
  {
    seq(|order|, i requires 0 <= i < |order| => weight[order[i]])
  }

  // The weight of every module of the tests, and of nothing else.
  ghost predicate Weighed(tests: seq<Test>, sizes: Sizes, weight: map<string, nat>) {
    forall m :: (m in weight <==> OfModule(tests, m) != []) && (m in weight ==> weight[m] == WeightOf(tests, sizes, m))
  }

  function Clamp(count: int, modules: nat): (m: nat)
    ensures m > 0
    ensures count < 1 || modules < 1 ==> m == 1
    ensures 1 <= count <= modules ==> m == count
    ensures 1 <= modules <= count ==> m == modules
  {
    var fewer := if count < modules then count else modules;
    if fewer < 1 then 1 else fewer
  }

  // The plan before empty shards are dropped: the modules in order, and the shard of each.
  datatype Plan = Plan(weight: map<string, nat>, order: seq<string>, placed: seq<nat>, shards: seq<seq<Test>>)

  ghost predicate IsPlan(tests: seq<Test>, sizes: Sizes, count: int, p: Plan) {
    && Weighed(tests, sizes, p.weight) && IsOrder(p.weight, p.order)
    && |p.shards| == Clamp(count, |p.order|)
    && IsGreedy(Weights(p.order, p.weight), p.placed, |p.shards|)
    && forall j :: 0 <= j < |p.shards| ==> p.shards[j] == Gathered(tests, p.order, p.placed, |p.order|, j)
  }

  function NonEmpty(shards: seq<seq<Test>>): seq<seq<Test>> {
    if shards == [] then []
    else
      var last := shards[|shards| - 1];
      NonEmpty(shards[..|shards| - 1]) + (if last != [] then [last] else [])
  }

  lemma {:induction false} FewerNonEmpty(shards: seq<seq<Test>>)
    ensures |NonEmpty(shards)| <= |shards|
  {
    if shards != [] {
      FewerNonEmpty(shards[..|shards| - 1]);
    }
  }

  ghost predicate Grouped(tests: seq<Test>, byModule: map<string, seq<Test>>) {
    forall m :: (m in byModule <==> OfModule(tests, m) != []) && (m in byModule ==> byModule[m] == OfModule(tests, m))
  }

  // The keys of a dictionary, in the order they were set.
  ghost predicate Keys(names: seq<string>, weight: map<string, nat>) {
    && (forall m :: m in weight <==> m in names)
    && (forall i, j :: 0 <= i < j < |names| ==> names[i] != names[j])
  }

  lemma OneMoreTest(tests: seq<Test>, test: Test)
    ensures forall m :: OfModule(tests + [test], m) == OfModule(tests, m) + (if test.mod == m then [test] else [])
  {
    assert (tests + [test])[..|tests|] == tests;
  }

  lemma GroupOneMore(tests: seq<Test>, test: Test, sizes: Sizes,
                     byModule: map<string, seq<Test>>, weight: map<string, nat>)
    requires Grouped(tests, byModule) && Weighed(tests, sizes, weight)
    ensures var before := if test.mod in byModule then byModule[test.mod] else [];
      Grouped(tests + [test], byModule[test.mod := before + [test]])
    ensures Weighed(tests + [test], sizes, weight[test.mod := sizes(test.path)])
  {
    OneMoreTest(tests, test);
    hide OfModule;
    var before := if test.mod in byModule then byModule[test.mod] else [];
    assert before == OfModule(tests, test.mod);
    forall m | m != test.mod
      ensures OfModule(tests + [test], m) == OfModule(tests, m)
    {
    }
  }

  // A module gets its name when its first test is met.
  lemma NameOneMore(tests: seq<Test>, m: string, v: nat, sizes: Sizes,
                    byModule: map<string, seq<Test>>, weight: map<string, nat>, names: seq<string>)
    requires Grouped(tests, byModule) && Weighed(tests, sizes, weight) && Keys(names, weight)
    ensures Keys(if m in byModule then names else names + [m], weight[m := v])
  {
  }

  lemma NothingGrouped(sizes: Sizes)
    ensures Grouped([], map[]) && Weighed([], sizes, map[]) && Keys([], map[])
  {
  }

  method Group(tests: seq<Test>, sizes: Sizes)
    returns (byModule: map<string, seq<Test>>, weight: map<string, nat>, names: seq<string>)
    ensures Grouped(tests, byModule) && Weighed(tests, sizes, weight) && Keys(names, weight)
  {
    hide *;
    byModule, weight, names := map[], map[], [];
    NothingGrouped(sizes);
    assert tests[..0] == [];
    for n := 0 to |tests|
      invariant Grouped(tests[..n], byModule) && Weighed(tests[..n], sizes, weight) && Keys(names, weight)
    {
      var test := tests[n];
      GroupOneMore(tests[..n], test, sizes, byModule, weight);
      NameOneMore(tests[..n], test.mod, sizes(test.path), sizes, byModule, weight, names);
      assert tests[..n] + [test] == tests[..n + 1];
      var before := [];
      if test.mod in byModule {
        before := byModule[test.mod];
      } else {
        names := names + [test.mod];
      }
      byModule := byModule[test.mod := before + [test]];
      weight := weight[test.mod := sizes(test.path)];
    }
    assert tests[..|tests|] == tests;
  }

  method IndexOfMin(loads: seq<nat>) returns (at: nat)
    requires loads != []
    ensures at < |loads|
    ensures forall j :: 0 <= j < |loads| ==> loads[at] <= loads[j]
    ensures forall j :: 0 <= j < at ==> loads[at] < loads[j]
  {
    at := 0;
    for i := 1 to |loads|
      invariant at < i
      invariant forall j :: 0 <= j < i ==> loads[at] <= loads[j]
      invariant forall j :: 0 <= j < at ==> loads[at] < loads[j]
    {
      if loads[i] < loads[at] {
        at := i;
      }
    }
  }

  lemma {:induction false} GatheredOfPrefix(tests: seq<Test>, order: seq<string>,
                                            f: seq<nat>, g: seq<nat>, n: nat, j: nat)
    requires n <= |order| && f <= g && n <= |f|
    ensures Gathered(tests, order, f, n, j) == Gathered(tests, order, g, n, j)
  {
    if n > 0 {
      GatheredOfPrefix(tests, order, f, g, n - 1, j);
    }
  }

  // The shards and their loads after `n` modules.
  ghost predicate Placing(tests: seq<Test>, order: seq<string>, w: seq<nat>, placed: seq<nat>,
                          loads: seq<nat>, shards: seq<seq<Test>>, n: nat)
  {
    && n == |placed| <= |w| == |order| && |loads| == |shards|
    && (forall j :: 0 <= j < |loads| ==> loads[j] == LoadOn(w, placed, n, j))
    && (forall j :: 0 <= j < |loads| ==> shards[j] == Gathered(tests, order, placed, n, j))
    && (forall i :: 0 <= i < n ==> PlacedGreedily(w, placed, |loads|, i))
  }

  lemma OneMorePlaced(tests: seq<Test>, order: seq<string>, w: seq<nat>, placed: seq<nat>,
                      loads: seq<nat>, shards: seq<seq<Test>>, n: nat, at: nat)
    requires Placing(tests, order, w, placed, loads, shards, n) && n < |order| && at < |loads|
    requires forall j :: 0 <= j < |loads| ==> loads[at] <= loads[j]
    requires forall j :: 0 <= j < at ==> loads[at] < loads[j]
    ensures Placing(tests, order, w, placed + [at], loads[at := loads[at] + w[n]],
                    shards[at := shards[at] + OfModule(tests, order[n])], n + 1)
  {
    var after := placed + [at];
    forall j: nat
      ensures LoadOn(w, after, n, j) == LoadOn(w, placed, n, j)
      ensures Gathered(tests, order, after, n, j) == Gathered(tests, order, placed, n, j)
    {
      LoadOfPrefix(w, placed, after, n, j);
      GatheredOfPrefix(tests, order, placed, after, n, j);
    }
    forall i | 0 <= i < n
      ensures PlacedGreedily(w, after, |loads|, i)
    {
      PlacedStays(w, placed, after, |loads|, i);
    }
    forall j: nat
      ensures Gathered(tests, order, after, n + 1, j) ==
        Gathered(tests, order, placed, n, j) + (if at == j then OfModule(tests, order[n]) else [])
    {
    }
  }

  method PlanShards(tests: seq<Test>, sizes: Sizes, count: int) returns (out: seq<seq<Test>>, ghost p: Plan)
    ensures IsPlan(tests, sizes, count, p)
    ensures out == NonEmpty(p.shards)
    ensures SameByModule(Flatten(out), tests) && |out| <= Clamp(count, |p.order|)
  {
    var byModule, weight, names := Group(tests, sizes);
    assert Keys(names, weight);
    hide Placing, Grouped, Weighed, IsOrder, Keys, NonEmpty, Flatten, OfModule, LoadOn, Gathered, Weights, SameByModule;
    OrderKeys(names, weight);
    var order := SortModules(names, weight);
    var m := Clamp(count, |order|);
    var shards: seq<seq<Test>>, loads: seq<nat> := seq(m, i => []), seq(m, i => 0);
    OrderHasWeights(tests, sizes, byModule, weight, order);
    ghost var w, placed := Weights(order, weight), [];
    NothingPlaced(tests, order, w, m);
    for n := 0 to |order|
      invariant |shards| == |loads| == m && |placed| == n && Placing(tests, order, w, placed, loads, shards, n)
    {
      var at := IndexOfMin(loads);
      OneMorePlaced(tests, order, w, placed, loads, shards, n, at);
      shards := shards[at := shards[at] + byModule[order[n]]];
      loads := loads[at := loads[at] + weight[order[n]]];
      placed := placed + [at];
    }
    p := Plan(weight, order, placed, shards);
    out := NonEmpty(shards);
    AllPlaced(tests, sizes, count, p, loads);
    ModulesAreConserved(tests, sizes, count, p);
    FewerNonEmpty(shards);
  }

  lemma OrderKeys(names: seq<string>, weight: map<string, nat>)
    requires Keys(names, weight)
    ensures forall m :: m in weight <==> m in names
    ensures forall i, j :: 0 <= i < j < |names| ==> names[i] != names[j]
  {
  }

  lemma OrderHasWeights(tests: seq<Test>, sizes: Sizes, byModule: map<string, seq<Test>>,
                        weight: map<string, nat>, order: seq<string>)
    requires Grouped(tests, byModule) && Weighed(tests, sizes, weight) && IsOrder(weight, order)
    ensures forall n :: 0 <= n < |order| ==> order[n] in weight && order[n] in byModule
    ensures forall n :: 0 <= n < |order| ==> byModule[order[n]] == OfModule(tests, order[n])
    ensures forall n :: 0 <= n < |order| ==> Weights(order, weight)[n] == weight[order[n]]
  {
    hide OfModule, WeightOf;
    forall n | 0 <= n < |order|
      ensures order[n] in weight && order[n] in byModule
    {
      assert OfModule(tests, order[n]) != [];
    }
  }

  lemma NothingPlaced(tests: seq<Test>, order: seq<string>, w: seq<nat>, m: nat)
    requires |w| == |order|
    ensures Placing(tests, order, w, [], seq(m, i => 0), seq(m, i => []), 0)
  {
  }

  lemma AllPlaced(tests: seq<Test>, sizes: Sizes, count: int, p: Plan, loads: seq<nat>)
    requires Weighed(tests, sizes, p.weight) && IsOrder(p.weight, p.order)
    requires |p.shards| == Clamp(count, |p.order|) == |loads|
    requires forall n :: 0 <= n < |p.order| ==> p.order[n] in p.weight
    requires Placing(tests, p.order, Weights(p.order, p.weight), p.placed, loads, p.shards, |p.order|)
    ensures IsPlan(tests, sizes, count, p)
  {
    hide Weighed, Gathered, LoadOn, PlacedGreedily;
  }

  lemma {:induction false} GatheredAlike(t1: seq<Test>, t2: seq<Test>, order: seq<string>, f: seq<nat>, n: nat, j: nat)
    requires n <= |order| && n <= |f| && forall m :: OfModule(t1, m) == OfModule(t2, m)
    ensures Gathered(t1, order, f, n, j) == Gathered(t2, order, f, n, j)
  {
    if n > 0 {
      GatheredAlike(t1, t2, order, f, n - 1, j);
    }
  }

  // The plan does not depend on the order the modules come in: inputs that agree on the tests of
  // every module, each in its order, get the same plan.
  lemma PlanIsDetermined(t1: seq<Test>, t2: seq<Test>, sizes: Sizes, count: int, p: Plan, q: Plan)
    requires IsPlan(t1, sizes, count, p) && IsPlan(t2, sizes, count, q)
    requires forall m :: OfModule(t1, m) == OfModule(t2, m)
    ensures p == q
  {
    SameWeights(t1, t2, sizes, p.weight, q.weight);
    OrderIsUnique(p.weight, p.order, q.order);
    var w := Weights(p.order, p.weight);
    GreedyIsUnique(w, p.placed, q.placed, |w|, |p.shards|);
    assert p.placed == p.placed[..|w|] == q.placed[..|w|] == q.placed;
    forall j | 0 <= j < |p.shards|
      ensures p.shards[j] == q.shards[j]
    {
      GatheredAlike(t1, t2, p.order, p.placed, |p.order|, j);
    }
    assert p.shards == q.shards;
  }

  lemma SameWeights(t1: seq<Test>, t2: seq<Test>, sizes: Sizes, v: map<string, nat>, w: map<string, nat>)
    requires Weighed(t1, sizes, v) && Weighed(t2, sizes, w)
    requires forall m :: OfModule(t1, m) == OfModule(t2, m)
    ensures v == w
  {
    assert v.Keys == w.Keys;
    forall m | m in v
      ensures v[m] == w[m]
    {
      assert OfModule(t1, m) == OfModule(t2, m);
    }
  }

  lemma {:induction false} OfModuleConcat(a: seq<Test>, b: seq<Test>, m: string)
    ensures OfModule(a + b, m) == OfModule(a, m) + OfModule(b, m)
  {
    if b == [] {
      assert a + b == a;
    } else {
      var n := |b| - 1;
      assert (a + b)[..|a + b| - 1] == a + b[..n];
      OfModuleConcat(a, b[..n], m);
    }
  }

  lemma OfModuleNone(m: string)
    ensures OfModule([], m) == []
  {
  }

  lemma {:induction false} OfModuleTwice(tests: seq<Test>, a: string, m: string)
    ensures OfModule(OfModule(tests, a), m) == if a == m then OfModule(tests, m) else []
  {
    if tests != [] {
      var n := |tests| - 1;
      OfModuleTwice(tests[..n], a, m);
      var own := if tests[n].mod == a then [tests[n]] else [];
      OfModuleConcat(OfModule(tests[..n], a), own, m);
      assert own != [] ==> own[..0] == [];
    }
  }

  // A shard has the tests of a module if the module was placed on it, all of them and in order.
  lemma {:induction false} GatheredModule(tests: seq<Test>, order: seq<string>, f: seq<nat>,
                                          n: nat, j: nat, m: string, k: nat)
    requires n <= |order| && n <= |f|
    requires forall i :: 0 <= i < n ==> (order[i] == m <==> i == k)
    ensures OfModule(Gathered(tests, order, f, n, j), m) == if k < n && f[k] == j then OfModule(tests, m) else []
  {
    hide OfModule;
    OfModuleNone(m);
    if n > 0 {
      GatheredModule(tests, order, f, n - 1, j, m, k);
      var more := if f[n - 1] == j then OfModule(tests, order[n - 1]) else [];
      OfModuleConcat(Gathered(tests, order, f, n - 1, j), more, m);
      OfModuleTwice(tests, order[n - 1], m);
    }
  }

  // All the tests of module `m` are on shard `j`, in their order, and no other shard has any.
  ghost predicate HeldBy(tests: seq<Test>, shards: seq<seq<Test>>, m: string, j: nat) {
    && j < |shards|
    && forall i :: 0 <= i < |shards| ==> OfModule(shards[i], m) == if i == j then OfModule(tests, m) else []
  }

  // No module is split: every module is held by one shard.
  lemma ModulesStayWhole(tests: seq<Test>, sizes: Sizes, count: int, p: Plan, m: string) returns (j: nat)
    requires IsPlan(tests, sizes, count, p)
    ensures HeldBy(tests, p.shards, m, j)
  {
    var k := |p.order|;
    j := 0;
    if m in p.order {
      k :| 0 <= k < |p.order| && p.order[k] == m;
      j := p.placed[k];
      assert PlacedGreedily(Weights(p.order, p.weight), p.placed, |p.shards|, k);
    }
    forall i | 0 <= i < |p.order|
      ensures p.order[i] == m <==> i == k
    {
      if i != k && p.order[i] == m {
        BeforeIsOrder(p.weight, m, m, m);
      }
    }
    forall i | 0 <= i < |p.shards|
      ensures OfModule(p.shards[i], m) == if i == j then OfModule(tests, m) else []
    {
      GatheredModule(tests, p.order, p.placed, |p.order|, i, m, k);
    }
  }

  function Flatten(shards: seq<seq<Test>>): seq<Test> {
    if shards == [] then [] else Flatten(shards[..|shards| - 1]) + shards[|shards| - 1]
  }

  lemma {:induction false} FlattenNonEmpty(shards: seq<seq<Test>>)
    ensures Flatten(NonEmpty(shards)) == Flatten(shards)
    ensures forall s :: s in NonEmpty(shards) <==> s in shards && s != []
  {
    if shards != [] {
      var last := shards[|shards| - 1];
      var rest := NonEmpty(shards[..|shards| - 1]);
      FlattenNonEmpty(shards[..|shards| - 1]);
      if last == [] {
        assert NonEmpty(shards) == rest && Flatten(rest) + last == Flatten(rest);
      } else {
        assert NonEmpty(shards) == rest + [last];
        assert (rest + [last])[..|rest|] == rest;
      }
    }
  }

  lemma {:induction false} FlattenModule(tests: seq<Test>, shards: seq<seq<Test>>, n: nat, m: string, j: nat)
    requires n <= |shards| && HeldBy(tests, shards, m, j)
    ensures OfModule(Flatten(shards[..n]), m) == if j < n then OfModule(tests, m) else []
  {
    if n > 0 {
      assert shards[..n][..n - 1] == shards[..n - 1];
      FlattenModule(tests, shards, n - 1, m, j);
      OfModuleConcat(Flatten(shards[..n - 1]), shards[n - 1], m);
    }
  }

  lemma {:induction false} CountOfModule(tests: seq<Test>, t: Test)
    ensures multiset(OfModule(tests, t.mod))[t] == multiset(tests)[t]
  {
    if tests != [] {
      var n := |tests| - 1;
      hide OfModule;
      CountOfModule(tests[..n], t);
      OfModuleStep(tests, t.mod);
      assert tests == tests[..n] + [tests[n]];
    } else {
      OfModuleNone(t.mod);
    }
  }

  lemma OfModuleStep(tests: seq<Test>, m: string)
    requires tests != []
    ensures var last := tests[|tests| - 1];
      OfModule(tests, m) == OfModule(tests[..|tests| - 1], m) + (if last.mod == m then [last] else [])
  {
  }

  // The same tests of every module, in the same order.
  ghost predicate SameByModule(a: seq<Test>, b: seq<Test>) {
    forall m :: OfModule(a, m) == OfModule(b, m)
  }

  // The shards together hold every module with all its tests in their order.
  lemma ModulesAreConserved(tests: seq<Test>, sizes: Sizes, count: int, p: Plan)
    requires IsPlan(tests, sizes, count, p)
    ensures SameByModule(Flatten(NonEmpty(p.shards)), tests)
  {
    FlattenNonEmpty(p.shards);
    assert p.shards[..|p.shards|] == p.shards;
    forall m
      ensures OfModule(Flatten(p.shards), m) == OfModule(tests, m)
    {
      var j := ModulesStayWhole(tests, sizes, count, p, m);
      FlattenModule(tests, p.shards, |p.shards|, m, j);
    }
  }

  // So every test is run once: the shards hold the tests that were given, each as often as it was given.
  lemma TestsAreConserved(a: seq<Test>, b: seq<Test>)
    requires SameByModule(a, b)
    ensures multiset(a) == multiset(b)
  {
    forall t: Test
      ensures multiset(a)[t] == multiset(b)[t]
    {
      CountOfModule(a, t);
      CountOfModule(b, t);
      assert OfModule(a, t.mod) == OfModule(b, t.mod);
    }
  }

  lemma WeightsDescend(weight: map<string, nat>, order: seq<string>)
    requires Sorted(weight, order)
    ensures Descending(Weights(order, weight))
  {
    forall i, j | 0 <= i < j < |order|
      ensures weight[order[i]] >= weight[order[j]]
    {
      assert Before(weight, order[i], order[j]);
    }
  }

  ghost function ModulesOf(tests: seq<Test>): set<string> {
    set t | t in tests :: t.mod
  }

  lemma {:induction false} DistinctMembers(weight: map<string, nat>, order: seq<string>, all: set<string>)
    requires Sorted(weight, order) && forall m :: m in order <==> m in all
    ensures |order| == |all|
  {
    if order == [] {
      assert all == {};
    } else {
      forall m
        ensures m in order[1..] <==> m in all - {order[0]}
      {
        FirstIsGone(weight, order, m);
      }
      DistinctMembers(weight, order[1..], all - {order[0]});
    }
  }

  lemma {:induction false} HasModule(tests: seq<Test>, m: string)
    ensures OfModule(tests, m) != [] <==> m in ModulesOf(tests)
  {
    if tests != [] {
      var n := |tests| - 1;
      HasModule(tests[..n], m);
      assert forall t :: t in tests <==> t in tests[..n] || t == tests[n];
    }
  }

  // Every module has one place in the order.
  lemma ModulesAreCounted(tests: seq<Test>, sizes: Sizes, p: Plan)
    requires Weighed(tests, sizes, p.weight) && IsOrder(p.weight, p.order)
    ensures |p.order| == |ModulesOf(tests)| && (tests == [] <==> p.order == [])
  {
    forall m
      ensures m in p.order <==> m in ModulesOf(tests)
    {
      HasModule(tests, m);
    }
    DistinctMembers(p.weight, p.order, ModulesOf(tests));
    if tests != [] {
      assert tests[0].mod in ModulesOf(tests);
    }
  }

  // There are as many shards as were asked for, but no more than there are modules, and always one.
  lemma ShardsAreCounted(tests: seq<Test>, sizes: Sizes, count: int, p: Plan)
    requires IsPlan(tests, sizes, count, p)
    ensures count < 1 || tests == [] ==> |p.shards| == 1
    ensures 1 <= count <= |ModulesOf(tests)| ==> |p.shards| == count
    ensures 1 <= |ModulesOf(tests)| <= count ==> |p.shards| == |ModulesOf(tests)|
  {
    ModulesAreCounted(tests, sizes, p);
  }

  // How far the plan is from the best one: against any assignment `g` of whole modules to as many
  // shards as were asked for, or as there are modules, none of them heavier than `best`.
  lemma PlanIsNearBest(tests: seq<Test>, sizes: Sizes, count: int, p: Plan, m: nat, g: seq<nat>, best: nat, j: nat)
    requires IsPlan(tests, sizes, count, p) && j < m
    requires m == if count < 1 || tests == [] then 1
                  else if count <= |ModulesOf(tests)| then count else |ModulesOf(tests)|
    requires IsAssignment(g, |p.order|, m)
    requires Within(Weights(p.order, p.weight), g, |p.order|, m, best)
    ensures |p.shards| == m
    ensures 3 * m * LoadOn(Weights(p.order, p.weight), p.placed, |p.order|, j) <= (4 * m - 1) * best
  {
    hide ModulesOf, LoadOn, Weights;
    ShardsAreCounted(tests, sizes, count, p);
    ModulesAreCounted(tests, sizes, p);
    WeightsDescend(p.weight, p.order);
    LongestFirstBound(Weights(p.order, p.weight), p.placed, g, |p.order|, |p.shards|, best, j);
  }

  // The load of a shard is the size of the files of its modules: the weight of a module is that of
  // the file of its last test.
  lemma LastFileCounts(before: seq<Test>, t: Test, after: seq<Test>, sizes: Sizes)
    requires forall x :: x in after ==> x.mod != t.mod
    ensures WeightOf(before + [t] + after, sizes, t.mod) == sizes(t.path)
  {
    HasModule(after, t.mod);
    OfModuleConcat(before + [t], after, t.mod);
    OfModuleConcat(before, [t], t.mod);
    assert [t][..0] == [];
    assert OfModule([t], t.mod) == [t];
  }

  // The modules are planned heaviest first, and those of one weight by their names, ascending.
  lemma OrderMeans(weight: map<string, nat>, order: seq<string>, i: nat, j: nat)
    requires IsOrder(weight, order) && i < j < |order|
    ensures weight[order[i]] >= weight[order[j]]
    ensures weight[order[i]] == weight[order[j]] ==> exists k: nat :: IsLessAt(order[i], order[j], k)
  {
    assert Before(weight, order[i], order[j]);
    LessMeans(order[i], order[j]);
  }

  // On a shard the modules stand heaviest first, and by name among equals.
  ghost predicate InPlanOrder(weight: map<string, nat>, shard: seq<Test>) {
    forall x, y :: 0 <= x < y < |shard| ==> NotAfter(weight, shard[x].mod, shard[y].mod)
  }

  ghost predicate NotAfter(weight: map<string, nat>, a: string, b: string) {
    && a in weight && b in weight
    && (a == b || weight[a] > weight[b] || (weight[a] == weight[b] && Less(a, b)))
  }

  lemma {:induction false} GatheredInOrder(tests: seq<Test>, weight: map<string, nat>, order: seq<string>,
                                           f: seq<nat>, n: nat, j: nat)
    requires Sorted(weight, order) && n <= |order| && n <= |f|
    ensures InPlanOrder(weight, Gathered(tests, order, f, n, j))
    ensures forall t :: t in Gathered(tests, order, f, n, j) ==> t.mod in order[..n]
  {
    if n > 0 {
      GatheredInOrder(tests, weight, order, f, n - 1, j);
      var m := order[n - 1];
      OnlyOfModule(tests, m);
      var before := Gathered(tests, order, f, n - 1, j);
      assert order[..n] == order[..n - 1] + [m];
      forall t | t in before
        ensures NotAfter(weight, t.mod, m)
      {
        var i :| 0 <= i < n - 1 && order[i] == t.mod;
        assert Before(weight, order[i], order[n - 1]);
      }
      OrderJoins(weight, before, OfModule(tests, m), m);
    }
  }

  lemma {:induction false} OnlyOfModule(tests: seq<Test>, m: string)
    ensures forall t :: t in OfModule(tests, m) <==> t in tests && t.mod == m
  {
    if tests != [] {
      var n := |tests| - 1;
      OnlyOfModule(tests[..n], m);
      assert forall t :: t in tests <==> t in tests[..n] || t == tests[n];
    }
  }

  lemma OrderJoins(weight: map<string, nat>, before: seq<Test>, own: seq<Test>, m: string)
    requires InPlanOrder(weight, before) && m in weight && forall t :: t in own ==> t.mod == m
    requires forall t :: t in before ==> NotAfter(weight, t.mod, m)
    ensures InPlanOrder(weight, before) && InPlanOrder(weight, before + own)
  {
    var all := before + own;
    forall x, y | 0 <= x < y < |all|
      ensures NotAfter(weight, all[x].mod, all[y].mod)
    {
      if y >= |before| {
        assert own[y - |before|] in own;
        assert x >= |before| ==> own[x - |before|] in own;
        assert x < |before| ==> before[x] in before;
      }
    }
  }

  lemma ShardsAreInOrder(tests: seq<Test>, sizes: Sizes, count: int, p: Plan, j: nat)
    requires IsPlan(tests, sizes, count, p) && j < |p.shards|
    ensures InPlanOrder(p.weight, p.shards[j])
  {
    GatheredInOrder(tests, p.weight, p.order, p.placed, |p.order|, j);
  }

  lemma {:induction false} PlacedIsNonEmpty(tests: seq<Test>, order: seq<string>, f: seq<nat>, n: nat, j: nat)
    requires n <= |order| && n <= |f| && Count(f, n, j) >= 1
    requires forall i :: 0 <= i < n ==> OfModule(tests, order[i]) != []
    ensures Gathered(tests, order, f, n, j) != []
  {
    if f[n - 1] != j {
      PlacedIsNonEmpty(tests, order, f, n - 1, j);
    }
  }

  lemma {:induction false} NothingDropped(shards: seq<seq<Test>>)
    requires forall j :: 0 <= j < |shards| ==> shards[j] != []
    ensures NonEmpty(shards) == shards
  {
    if shards != [] {
      NothingDropped(shards[..|shards| - 1]);
    }
  }

  // When no file is empty no shard is dropped, so there are as many as were asked for, or as there are
  // modules.
  lemma NoShardIsEmpty(tests: seq<Test>, sizes: Sizes, count: int, p: Plan)
    requires IsPlan(tests, sizes, count, p) && tests != []
    requires forall m :: m in p.weight ==> p.weight[m] > 0
    ensures NonEmpty(p.shards) == p.shards
    ensures |NonEmpty(p.shards)| ==
      if count < 1 then 1 else if count <= |ModulesOf(tests)| then count else |ModulesOf(tests)|
  {
    hide ModulesOf;
    var w := Weights(p.order, p.weight);
    ModulesAreCounted(tests, sizes, p);
    ShardsAreCounted(tests, sizes, count, p);
    forall j | 0 <= j < |p.shards|
      ensures p.shards[j] != []
    {
      EveryMachineIsUsed(w, p.placed, |p.shards|, j);
      PlacedIsNonEmpty(tests, p.order, p.placed, |p.order|, j);
    }
    NothingDropped(p.shards);
  }
}
