/** The weighted populations of test.py: a dictionary from entities to real
    weights, iterated in insertion order. `sample` assigns sorted draws to
    entries by cumulative weight; the generation loop decays, renews and
    prunes the weights in place. A dictionary is modelled as a map together
    with the sequence of its keys in insertion order. */
module Populations {
  import opened Bits
  import opened Options

  // ---------------------------------------------------------------------
  // Dictionaries with an insertion order
  // ---------------------------------------------------------------------

  predicate Distinct<K(==,!new)>(s: seq<K>)
  {
    forall i, j :: 0 <= i < j < |s| ==> s[i] != s[j]
  }

  /** `order` lists the keys of `pop` as a Python dict iterates them: each
      key exactly once. */
  ghost predicate IsOrder<K(!new)>(order: seq<K>, pop: map<K, real>)
  {
    Distinct(order) && forall k :: k in order <==> k in pop
  }

  /** `population.items()`. */
  function Items<K(==,!new)>(pop: map<K, real>, order: seq<K>): (r: seq<(K, real)>)
    requires forall k :: k in order ==> k in pop
    ensures |r| == |order|
    ensures forall i :: 0 <= i < |order| ==> r[i] == (order[i], pop[order[i]])
  {
    if order == [] then [] else [(order[0], pop[order[0]])] + Items(pop, order[1..])
  }

  // ---------------------------------------------------------------------
  // sample
  // ---------------------------------------------------------------------

  predicate Sorted(s: seq<int>)
  {
    forall i, j :: 0 <= i < j < |s| ==> s[i] <= s[j]
  }

  /** The sum of the first `j` weights. */
  function Cum<K(==,!new)>(items: seq<(K, real)>, j: nat): real
    requires j <= |items|
  {
    if j == 0 then 0.0 else Cum(items, j - 1) + items[j - 1].1
  }

  /** `pacc` once entry `i` has been added: the weights of entries `0..i`. */
  function Upper<K(==,!new)>(items: seq<(K, real)>, i: nat): real
    requires i < |items|
  {
    Cum(items, i + 1)
  }

  /** `sum(population.values())`. */
  function Total<K(==,!new)>(items: seq<(K, real)>): real
  {
    Cum(items, |items|)
  }

  /** The first entry from `j` on whose running total exceeds the draw `x`. */
  function OwnerFrom<K(==,!new)>(items: seq<(K, real)>, x: int, j: nat): (r: Option<nat>)
    requires j <= |items|
    ensures r.Some? ==>
      && j <= r.value < |items|
      && (x as real) < Upper(items, r.value)
      && forall i :: j <= i < r.value ==> Upper(items, i) <= x as real
    ensures r.None? ==> forall i :: j <= i < |items| ==> Upper(items, i) <= x as real
    decreases |items| - j
  {
    if j == |items| then None
    else if (x as real) < Upper(items, j) then Some(j)
    else OwnerFrom(items, x, j + 1)
  }

  /** The entry a draw is assigned to, if any. */
  function Owner<K(==,!new)>(items: seq<(K, real)>, x: int): Option<nat>
  {
    OwnerFrom(items, x, 0)
  }

  /** What `sample` returns before the shuffle: the owner of each draw in
      turn, up to the first draw that no entry owns. */
  function Assigned<K(==,!new)>(items: seq<(K, real)>, draws: seq<int>): seq<K>
  {
    if draws == [] then []
    else
      match Owner(items, draws[0])
      case None => []
      case Some(i) => [items[i].0] + Assigned(items, draws[1..])
  }

  /** The sample holds, for each draw in turn, the entity of the entry
      owning it, and stops exactly at the first draw no entry owns. */
  lemma {:induction false} AssignedOwners<K(!new)>(items: seq<(K, real)>, draws: seq<int>)
    ensures var r := Assigned(items, draws);
      && |r| <= |draws|
      && (forall k :: 0 <= k < |r| ==>
            Owner(items, draws[k]).Some? && r[k] == items[Owner(items, draws[k]).value].0)
      && (|r| < |draws| ==> Owner(items, draws[|r|]).None?)
  {
    if draws != [] && Owner(items, draws[0]).Some? {
      var rest := draws[1..];
      AssignedOwners(items, rest);
      var r := Assigned(items, draws);
      assert forall k :: 1 <= k < |r| ==> draws[k] == rest[k - 1] && r[k] == Assigned(items, rest)[k - 1];
    }
  }

  /** No entry before `i` owns the draw at the front of `idxs`. */
  ghost predicate Passed<K(!new)>(items: seq<(K, real)>, idxs: seq<int>, i: nat)
    requires i <= |items|
  {
    |idxs| == 0 || forall j :: 0 <= j < i ==> Upper(items, j) <= idxs[0] as real
  }

  /** A draw that no entry before `i` owns is owned, if at all, from `i` on. */
  lemma {:induction false} OwnerSkips<K(!new)>(items: seq<(K, real)>, x: int, i: nat)
    requires i <= |items|
    requires forall j :: 0 <= j < i ==> Upper(items, j) <= x as real
    ensures Owner(items, x) == OwnerFrom(items, x, i)
  {
    if i > 0 {
      OwnerSkips(items, x, i - 1);
    }
  }

  /** The front draw, passed by the entries before `i` and below the
      running total of entry `i`, goes to entry `i`; the remaining draws are
      still passed by the entries before `i`. */
  lemma TakeFront<K(!new)>(items: seq<(K, real)>, idxs: seq<int>, i: nat)
    requires i < |items| && |idxs| > 0 && Sorted(idxs)
    requires Passed(items, idxs, i)
    requires (idxs[0] as real) < Upper(items, i)
    ensures Assigned(items, idxs) == [items[i].0] + Assigned(items, idxs[1..])
    ensures Sorted(idxs[1..]) && Passed(items, idxs[1..], i)
  {
    OwnerSkips(items, idxs[0], i);
    if |idxs| > 1 {
      assert idxs[0] <= idxs[1];
    }
  }

  /** Once every entry has passed the front draw, no draw is assigned. */
  lemma NoneLeft<K(!new)>(items: seq<(K, real)>, idxs: seq<int>)
    requires |idxs| > 0 && Passed(items, idxs, |items|)
    ensures Assigned(items, idxs) == []
  {
    OwnerSkips(items, idxs[0], |items|);
  }

  /** `sample(population, nsample)` with the sorted result of
      `np.random.randint` given as `draws`: one pass over the entries keeps
      the running total `pacc` and hands out the draws below it. */
  method Sample<K(==,!new)>(items: seq<(K, real)>, draws: seq<int>) returns (samples: seq<K>)
    requires Sorted(draws)
    ensures samples == Assigned(items, draws)
  {
    var idxs := draws;
    samples := [];
    var pacc := 0.0;
    var i := 0;
    while i < |items|
      invariant 0 <= i <= |items|
      invariant pacc == Cum(items, i)
      invariant Sorted(idxs) && Passed(items, idxs, i)
      invariant samples + Assigned(items, idxs) == Assigned(items, draws)
    {
      if |idxs| == 0 {
        break;
      }
      pacc := pacc + items[i].1;
      while |idxs| > 0
        invariant pacc == Upper(items, i)
        invariant Sorted(idxs) && Passed(items, idxs, i)
        invariant samples + Assigned(items, idxs) == Assigned(items, draws)
        decreases |idxs|
      {
        if (idxs[0] as real) < pacc {
          TakeFront(items, idxs, i);
          assert (samples + [items[i].0]) + Assigned(items, idxs[1..]) == samples + Assigned(items, idxs);
          samples := samples + [items[i].0];
          idxs := idxs[1..];
        } else {
          break;
        }
      }
      i := i + 1;
    }
    if |idxs| > 0 {
      NoneLeft(items, idxs);
    }
    assert samples + Assigned(items, idxs) == samples;
  }

  /** A draw owned by entry `i` lies in `[pacc - p, pacc)` for that entry. */
  lemma OwnerInterval<K(!new)>(items: seq<(K, real)>, x: int)
    requires 0 <= x
    requires Owner(items, x).Some?
    ensures var i := Owner(items, x).value;
      Cum(items, i) <= x as real < Cum(items, i) + items[i].1
  {
    var i := Owner(items, x).value;
    if i > 0 {
      assert Upper(items, i - 1) <= x as real;
    }
  }

  /** Every sampled entity is a key of the population. */
  lemma SampleFromPopulation<K(!new)>(pop: map<K, real>, order: seq<K>, draws: seq<int>)
    requires IsOrder(order, pop)
    ensures forall s :: s in Assigned(Items(pop, order), draws) ==> s in pop
  {
    var items := Items(pop, order);
    var r := Assigned(items, draws);
    AssignedOwners(items, draws);
    forall s | s in r
      ensures s in pop
    {
      var k :| 0 <= k < |r| && r[k] == s;
      assert s == order[Owner(items, draws[k]).value];
    }
  }

  /** A draw in `[0, sum)` is owned by some entry. */
  lemma OwnedBelowTotal<K(!new)>(items: seq<(K, real)>, x: int)
    requires 0 <= x && (x as real) < Total(items)
    ensures Owner(items, x).Some?
  {
    if |items| > 0 {
      var last := Upper(items, |items| - 1);
    }
  }

  /** When every draw is in `[0, sum)`, each one is assigned: the sample has
      exactly `nsample` entities. */
  lemma {:induction false} AllDrawsServed<K(!new)>(items: seq<(K, real)>, draws: seq<int>)
    requires forall k :: 0 <= k < |draws| ==> 0 <= draws[k] && (draws[k] as real) < Total(items)
    ensures |Assigned(items, draws)| == |draws|
  {
    if draws != [] {
      OwnedBelowTotal(items, draws[0]);
      AllDrawsServed(items, draws[1..]);
    }
  }

  // ---------------------------------------------------------------------
  // Decay: `for m in population: population[m] *= factor`
  // ---------------------------------------------------------------------

  /** Every weight multiplied by `factor`. */
  function Scaled<K(==,!new)>(pop: map<K, real>, factor: real): map<K, real>
  {
    map k | k in pop :: pop[k] * factor
  }

  /** The decay loop, visiting the keys in insertion order. */
  method Decay<K(==,!new)>(pop: map<K, real>, order: seq<K>, factor: real) returns (r: map<K, real>)
    requires IsOrder(order, pop)
    ensures r == Scaled(pop, factor)
  {
    r := pop;
    for i := 0 to |order|
      invariant r.Keys == pop.Keys
      invariant forall k :: k in r ==> r[k] == if k in order[..i] then pop[k] * factor else pop[k]
    {
      var k := order[i];
      assert k !in order[..i];
      assert order[..i + 1] == order[..i] + [k];
      r := r[k := r[k] * factor];
    }
    assert order[..|order|] == order;
  }

  /** Decay keeps the keys and their order, and with a factor in `(0, 1]`
      keeps every positive weight positive and no larger. */
  lemma DecayFacts<K(!new)>(pop: map<K, real>, order: seq<K>, factor: real)
    requires IsOrder(order, pop)
    ensures IsOrder(order, Scaled(pop, factor))
    ensures 0.0 < factor <= 1.0 ==>
      forall k :: k in pop && 0.0 < pop[k] ==> 0.0 < Scaled(pop, factor)[k] <= pop[k]
  {
    if 0.0 < factor <= 1.0 {
      forall k | k in pop && 0.0 < pop[k]
        ensures 0.0 < Scaled(pop, factor)[k] <= pop[k]
      {
        var w := pop[k];
        assert w * factor <= w * 1.0;
        assert 0.0 < w * factor;
      }
    }
  }

  // ---------------------------------------------------------------------
  // Renewal: `if m not in population: population[m] = 0`, then `+= 1`
  // ---------------------------------------------------------------------

  /** The weights after the renewal loop has visited every entity of
      `news`: each visit adds 1, starting from 0 for an entity not yet
      present. */
  function Renewed<K(==,!new)>(pop: map<K, real>, news: seq<K>): map<K, real>
    decreases |news|
  {
    if news == [] then pop
    else
      var prev, k := Renewed(pop, news[..|news| - 1]), news[|news| - 1];
      prev[k := (if k in prev then prev[k] else 0.0) + 1.0]
  }

  /** Renewal adds to each entity's weight its number of occurrences in
      `news`, entities not yet present starting from 0, and adds exactly the
      entities of `news` as keys. */
  lemma {:induction false} RenewedCounts<K(!new)>(pop: map<K, real>, news: seq<K>)
    ensures forall k :: k in Renewed(pop, news) <==> k in pop || k in news
    ensures forall k :: k in Renewed(pop, news) ==>
      Renewed(pop, news)[k] == (if k in pop then pop[k] else 0.0) + multiset(news)[k] as real
    decreases |news|
  {
    if news != [] {
      var front, x := news[..|news| - 1], news[|news| - 1];
      RenewedCounts(pop, front);
      assert news == front + [x];
      assert multiset(news) == multiset(front) + multiset{x};
      forall k
        ensures k in news <==> k in front || k == x
      {
      }
    }
  }

  /** The insertion order after inserting the entities of `news` that are
      not yet keys, in order of first occurrence. */
  function Appended<K(==,!new)>(order: seq<K>, news: seq<K>): seq<K>
    decreases |news|
  {
    if news == [] then order
    else Appended(if news[0] in order then order else order + [news[0]], news[1..])
  }

  /** Renewal by one more offspring adds 1 to its weight, starting from 0
      for a new entity. */
  lemma RenewedStep<K(!new)>(pop: map<K, real>, news: seq<K>, i: nat)
    requires i < |news|
    ensures var r, k := Renewed(pop, news[..i]), news[i];
      Renewed(pop, news[..i + 1]) == r[k := (if k in r then r[k] else 0.0) + 1.0]
  {
    assert news[..i + 1][..i] == news[..i];
  }

  /** Updating a key twice keeps the second value only. */
  lemma UpdateTwice<K(!new)>(m: map<K, real>, k: K, a: real, b: real)
    ensures m[k := a][k := b] == m[k := b]
  {
  }

  /** The renewal loop over the offspring list. */
  method Renew<K(==,!new)>(pop: map<K, real>, order: seq<K>, news: seq<K>) returns (r: map<K, real>, rOrder: seq<K>)
    requires IsOrder(order, pop)
    ensures r == Renewed(pop, news)
    ensures rOrder == Appended(order, news)
  {
    r, rOrder := pop, order;
    assert news[..0] == [];
    for i := 0 to |news|
      invariant r == Renewed(pop, news[..i])
      invariant forall k :: k in rOrder <==> k in r
      invariant Appended(rOrder, news[i..]) == Appended(order, news)
    {
      var k := news[i];
      RenewedStep(pop, news, i);
      UpdateTwice(r, k, 0.0, 1.0);
      ghost var target := r[k := (if k in r then r[k] else 0.0) + 1.0];
      assert news[i..] == [k] + news[i + 1..];
      if k !in r {
        r := r[k := 0.0];
        rOrder := rOrder + [k];
      }
      r := r[k := r[k] + 1.0];
      assert r == target;
    }
    assert news[..|news|] == news;
  }

  lemma {:induction false} AppendedFacts<K(!new)>(order: seq<K>, news: seq<K>)
    requires Distinct(order)
    ensures Distinct(Appended(order, news))
    ensures forall k :: k in Appended(order, news) <==> k in order || k in news
    decreases |news|
  {
    if news != [] {
      var next := if news[0] in order then order else order + [news[0]];
      AppendedFacts(next, news[1..]);
      assert forall k :: k in news <==> k == news[0] || k in news[1..];
    }
  }

  /** Renewal adds exactly the new entities, keeps the insertion order
      consistent with the keys, and leaves the entities that were not
      produced untouched. */
  lemma RenewFacts<K(!new)>(pop: map<K, real>, order: seq<K>, news: seq<K>)
    requires IsOrder(order, pop)
    ensures IsOrder(Appended(order, news), Renewed(pop, news))
    ensures forall k :: k in Renewed(pop, news) <==> k in pop || k in news
    ensures forall k :: k in pop && k !in news ==> Renewed(pop, news)[k] == pop[k]
  {
    AppendedFacts(order, news);
    RenewedCounts(pop, news);
  }

  // ---------------------------------------------------------------------
  // Pruning: `if population[m] < 1: population.pop(m)`
  // ---------------------------------------------------------------------

  /** The entries of weight at least 1. */
  function Pruned<K(==,!new)>(pop: map<K, real>): map<K, real>
  {
    map k | k in pop && pop[k] >= 1.0 :: pop[k]
  }

  /** The keys of `order` that survive pruning, in the same order. */
  function Survivors<K(==,!new)>(order: seq<K>, pop: map<K, real>): seq<K>
  {
    if order == [] then []
    else if order[0] in pop && pop[order[0]] >= 1.0 then [order[0]] + Survivors(order[1..], pop)
    else Survivors(order[1..], pop)
  }

  /** The sequence with every occurrence of `k` removed: `dict.pop` on the
      insertion order. */
  function Without<K(==,!new)>(s: seq<K>, k: K): seq<K>
  {
    if s == [] then []
    else if s[0] == k then Without(s[1..], k)
    else [s[0]] + Without(s[1..], k)
  }

  lemma {:induction false} WithoutAbsent<K(!new)>(s: seq<K>, k: K)
    requires k !in s
    ensures Without(s, k) == s
  {
    if s != [] {
      WithoutAbsent(s[1..], k);
    }
  }

  lemma {:induction false} WithoutConcat<K(!new)>(a: seq<K>, b: seq<K>, k: K)
    ensures Without(a + b, k) == Without(a, k) + Without(b, k)
  {
    if a == [] {
      assert a + b == b;
    } else {
      assert (a + b)[0] == a[0];
      assert (a + b)[1..] == a[1..] + b;
      WithoutConcat(a[1..], b, k);
      if a[0] != k {
        assert [a[0]] + (Without(a[1..], k) + Without(b, k)) == ([a[0]] + Without(a[1..], k)) + Without(b, k);
      }
    }
  }

  lemma {:induction false} SurvivorsSnoc<K(!new)>(s: seq<K>, x: K, pop: map<K, real>)
    requires forall k :: k in s ==> k in pop
    requires x in pop
    ensures Survivors(s + [x], pop) == Survivors(s, pop) + (if pop[x] >= 1.0 then [x] else [])
  {
    if s != [] {
      SurvivorsSnoc(s[1..], x, pop);
      assert (s + [x])[1..] == s[1..] + [x];
    }
  }

  lemma {:induction false} SurvivorsIn<K(!new)>(s: seq<K>, pop: map<K, real>)
    requires forall k :: k in s ==> k in pop
    ensures forall k :: k in Survivors(s, pop) <==> k in s && pop[k] >= 1.0
    ensures Distinct(s) ==> Distinct(Survivors(s, pop))
  {
    if s != [] {
      SurvivorsIn(s[1..], pop);
      assert forall k :: k in s <==> k == s[0] || k in s[1..];
      if Distinct(s) {
        assert Distinct(s[1..]);
      }
    }
  }

  /** The dictionary once the pruning loop has visited the first `i` keys
      of `keys`: each visited key whose weight is below 1 has been popped. */
  function PrunedUpTo<K(==,!new)>(pop: map<K, real>, keys: seq<K>, i: nat): map<K, real>
    requires i <= |keys|
  {
    if i == 0 then pop
    else
      var prev, k := PrunedUpTo(pop, keys, i - 1), keys[i - 1];
      if k in prev && prev[k] < 1.0 then prev - {k} else prev
  }

  /** After `i` visits exactly the unvisited keys and the visited keys of
      weight at least 1 are left, with their weights. */
  lemma {:induction false} PrunedUpToKeys<K(!new)>(pop: map<K, real>, keys: seq<K>, i: nat)
    requires IsOrder(keys, pop) && i <= |keys|
    ensures forall k :: k in PrunedUpTo(pop, keys, i) <==> k in pop && (k !in keys[..i] || pop[k] >= 1.0)
    ensures forall k :: k in PrunedUpTo(pop, keys, i) ==> PrunedUpTo(pop, keys, i)[k] == pop[k]
  {
    if i > 0 {
      PrunedUpToKeys(pop, keys, i - 1);
      assert keys[..i] == keys[..i - 1] + [keys[i - 1]];
    }
  }

  /** The insertion order once the pruning loop has visited the first `i`
      keys: each visited key of weight below 1 has been taken out. */
  function OrderUpTo<K(==,!new)>(pop: map<K, real>, keys: seq<K>, i: nat): seq<K>
    requires i <= |keys|
    requires forall k :: k in keys ==> k in pop
  {
    if i == 0 then keys
    else
      var prev, k := OrderUpTo(pop, keys, i - 1), keys[i - 1];
      if pop[k] < 1.0 then Without(prev, k) else prev
  }

  /** The key visited next is still present with its original weight. */
  lemma PruneStep<K(!new)>(pop: map<K, real>, keys: seq<K>, i: nat)
    requires IsOrder(keys, pop) && i < |keys|
    ensures keys[i] in PrunedUpTo(pop, keys, i)
    ensures PrunedUpTo(pop, keys, i)[keys[i]] == pop[keys[i]]
  {
    PrunedUpToKeys(pop, keys, i);
    assert keys[i] !in keys[..i];
  }

  lemma WithoutMiddle<K(!new)>(front: seq<K>, k: K, rest: seq<K>)
    requires k !in front && k !in rest
    ensures Without(front + ([k] + rest), k) == front + rest
  {
    calc {
      Without(front + ([k] + rest), k);
    ==  { WithoutConcat(front, [k] + rest, k); }
      Without(front, k) + Without([k] + rest, k);
    ==  { WithoutConcat([k], rest, k); WithoutAbsent(front, k); }
      front + (Without([k], k) + Without(rest, k));
    ==  { assert [k][1..] == []; WithoutAbsent(rest, k); }
      front + ([] + rest);
    ==  { assert [] + rest == rest; }
      front + rest;
    }
  }

  /** After `i` visits the order holds the surviving visited keys, in
      their order, followed by the keys not yet visited. */
  lemma {:induction false} OrderUpToSplit<K(!new)>(pop: map<K, real>, keys: seq<K>, i: nat)
    requires IsOrder(keys, pop) && i <= |keys|
    ensures OrderUpTo(pop, keys, i) == Survivors(keys[..i], pop) + keys[i..]
  {
    if i == 0 {
      assert keys[..0] == [] && keys[0..] == keys;
    } else {
      OrderUpToSplit(pop, keys, i - 1);
      OrderStep(pop, keys, i - 1);
    }
  }

  /** Visiting key `j` takes it out of the order exactly when its weight is
      below 1. */
  lemma OrderStep<K(!new)>(pop: map<K, real>, keys: seq<K>, j: nat)
    requires IsOrder(keys, pop) && j < |keys|
    requires OrderUpTo(pop, keys, j) == Survivors(keys[..j], pop) + keys[j..]
    ensures OrderUpTo(pop, keys, j + 1) == Survivors(keys[..j + 1], pop) + keys[j + 1..]
  {
    var k, front, rest := keys[j], Survivors(keys[..j], pop), keys[j + 1..];
    assert keys[..j + 1] == keys[..j] + [k];
    assert keys[j..] == [k] + rest;
    SurvivorsSnoc(keys[..j], k, pop);
    if pop[k] < 1.0 {
      DistinctAround(keys, j);
      SurvivorsNotIn(keys[..j], pop, k);
      WithoutMiddle(front, k, rest);
      assert OrderUpTo(pop, keys, j + 1) == Without(front + ([k] + rest), k);
    } else {
      assert OrderUpTo(pop, keys, j + 1) == front + ([k] + rest);
      assert front + [k] + rest == front + ([k] + rest);
    }
  }

  /** Pruning keeps only elements of the sequence pruned. */
  lemma {:induction false} SurvivorsNotIn<K(!new)>(s: seq<K>, pop: map<K, real>, x: K)
    requires x !in s
    ensures x !in Survivors(s, pop)
  {
    if s != [] {
      SurvivorsNotIn(s[1..], pop, x);
    }
  }

  /** In a sequence without repetitions an element occurs neither before
      nor after its position. */
  lemma DistinctAround<K(!new)>(s: seq<K>, j: nat)
    requires Distinct(s) && j < |s|
    ensures s[j] !in s[..j] && s[j] !in s[j + 1..]
  {
  }

  /** The pruning loop over `list(population.keys())`. */
  method Prune<K(==,!new)>(pop: map<K, real>, order: seq<K>) returns (r: map<K, real>, rOrder: seq<K>)
    requires IsOrder(order, pop)
    ensures r == Pruned(pop)
    ensures rOrder == Survivors(order, pop)
  {
    var keys := order;
    r, rOrder := pop, order;
    for i := 0 to |keys|
      invariant r == PrunedUpTo(pop, keys, i)
      invariant rOrder == OrderUpTo(pop, keys, i)
    {
      var k := keys[i];
      PruneStep(pop, keys, i);
      if r[k] < 1.0 {
        r := r - {k};
        rOrder := Without(rOrder, k);
      }
    }
    assert keys[..|keys|] == keys;
    PrunedUpToKeys(pop, keys, |keys|);
    OrderUpToSplit(pop, keys, |keys|);
    assert rOrder == Survivors(keys, pop) + [];
  }

  /** After pruning every weight is at least 1, the survivors keep their
      weights, nothing is added, and the order still lists the keys. */
  lemma PruneFacts<K(!new)>(pop: map<K, real>, order: seq<K>)
    requires IsOrder(order, pop)
    ensures forall k :: k in Pruned(pop) ==> Pruned(pop)[k] >= 1.0
    ensures forall k :: k in Pruned(pop) <==> k in pop && pop[k] >= 1.0
    ensures forall k :: k in Pruned(pop) ==> Pruned(pop)[k] == pop[k]
    ensures IsOrder(Survivors(order, pop), Pruned(pop))
  {
    SurvivorsIn(order, pop);
  }

  // ---------------------------------------------------------------------
  // One generation of one population
  // ---------------------------------------------------------------------

  /** The weights after decay by `1 - rate`, renewal by the offspring
      `news` and pruning. */
  function Next<K(==,!new)>(pop: map<K, real>, rate: real, news: seq<K>): map<K, real>
  {
    Pruned(Renewed(Scaled(pop, 1.0 - rate), news))
  }

  /** The insertion order after the same three passes. */
  function NextOrder<K(==,!new)>(order: seq<K>, pop: map<K, real>, rate: real, news: seq<K>): seq<K>
  {
    Survivors(Appended(order, news), Renewed(Scaled(pop, 1.0 - rate), news))
  }

  /** Decay, renewal and pruning of one population, in that order, as the
      loop body does them. */
  method Generation<K(==,!new)>(pop: map<K, real>, order: seq<K>, rate: real, news: seq<K>)
    returns (r: map<K, real>, rOrder: seq<K>)
    requires IsOrder(order, pop)
    ensures r == Next(pop, rate, news)
    ensures rOrder == NextOrder(order, pop, rate, news)
  {
    DecayFacts(pop, order, 1.0 - rate);
    var decayed := Decay(pop, order, 1.0 - rate);
    RenewFacts(decayed, order, news);
    var grown, grownOrder := Renew(decayed, order, news);
    r, rOrder := Prune(grown, grownOrder);
  }

  /** After a generation every weight left is at least 1; each entry holds
      its decayed old weight (0 if new) plus one unit per copy among the
      offspring; nothing but old entries and offspring is present; and an
      old entry with no offspring whose decayed weight is still at least 1
      survives with that weight. */
  lemma NextWeights<K(!new)>(pop: map<K, real>, rate: real, news: seq<K>)
    ensures var next := Next(pop, rate, news);
      && (forall k :: k in next ==> next[k] >= 1.0)
      && (forall k :: k in next ==> k in pop || k in news)
      && (forall k :: k in next ==>
            next[k] == (if k in pop then pop[k] * (1.0 - rate) else 0.0) + multiset(news)[k] as real)
      && (forall k :: k in pop && k !in news && pop[k] * (1.0 - rate) >= 1.0 ==>
            k in next && next[k] == pop[k] * (1.0 - rate))
  {
    var grown := Renewed(Scaled(pop, 1.0 - rate), news);
    var next := Next(pop, rate, news);
    RenewedCounts(Scaled(pop, 1.0 - rate), news);
    forall k | k in next
      ensures next[k] == (if k in pop then pop[k] * (1.0 - rate) else 0.0) + multiset(news)[k] as real
    {
      assert next[k] == grown[k];
    }
    forall k | k in pop && k !in news && pop[k] * (1.0 - rate) >= 1.0
      ensures k in next && next[k] == pop[k] * (1.0 - rate)
    {
      assert multiset(news)[k] == 0;
      assert grown[k] == pop[k] * (1.0 - rate);
    }
  }

  /** The insertion order after a generation lists exactly the keys left,
      each once. */
  lemma NextKeepsOrder<K(!new)>(pop: map<K, real>, order: seq<K>, rate: real, news: seq<K>)
    requires IsOrder(order, pop)
    ensures IsOrder(NextOrder(order, pop, rate, news), Next(pop, rate, news))
  {
    var decayed := Scaled(pop, 1.0 - rate);
    DecayFacts(pop, order, 1.0 - rate);
    RenewFacts(decayed, order, news);
    PruneFacts(Renewed(decayed, news), Appended(order, news));
  }
}
