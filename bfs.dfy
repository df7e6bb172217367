/**
 * bfs.py: the reverse recipe index (`reverse_elmap`) and the recursive count
 * of the elements that still have to be produced before a goal (`bfs`).
 */
module Prerequisites {
  import opened Names
  import opened Recipes

  /** `reverse_elmap()`: product name to the inputs of its recipes, flattened. */
  type Index = map<string, seq<string>>

  /** `idx[x]` on the `defaultdict(list)`: no entry reads as the empty list. */
  function Inputs(idx: Index, x: string): seq<string>
  {
    if x in idx then idx[x] else []
  }

  /**
   * The inputs of the recipes listed in `order` that produce `c`, recipe by
   * recipe, both names of each.
   */
  function InputsOf(t: Table, order: seq<Pair>, c: string): seq<string>
    decreases |order|
  {
    if order == [] then []
    else
      var k := order[|order| - 1];
      InputsOf(t, order[..|order| - 1], c) + (if k in t && t[k] == c then [k.0, k.1] else [])
  }

  /** The products of the recipes listed in `order`. */
  function ProductsOf(t: Table, order: seq<Pair>): set<string>
  {
    set k | k in order && k in t :: t[k]
  }

  /** `a` is an input of some recipe of `t` that produces `c`. */
  ghost predicate Feeds(t: Table, a: string, c: string)
  {
    exists k :: k in t && t[k] == c && (k.0 == a || k.1 == a)
  }

  /** The recipes of `t` producing `c`. */
  function RecipesFor(t: Table, c: string): set<Pair>
  {
    set k | k in t && t[k] == c
  }

  /** A product not yet seen in `order` has no inputs listed. */
  lemma {:induction false} InputsOfAbsent(t: Table, order: seq<Pair>, c: string)
    requires c !in ProductsOf(t, order)
    ensures InputsOf(t, order, c) == []
    decreases |order|
  {
    if order != [] {
      var pre := order[..|order| - 1];
      assert ProductsOf(t, pre) <= ProductsOf(t, order) by {
        forall k | k in pre ensures k in order {
          var i :| 0 <= i < |pre| && pre[i] == k;
          assert order[i] == k;
        }
      }
      InputsOfAbsent(t, pre, c);
      assert order[|order| - 1] in order;
    }
  }

  /**
   * `reverse_elmap()` over the table `t`, iterated in its insertion order
   * `order`: every product gets the inputs of its recipes, in that order.
   */
  method ReverseElmap(t: Table, order: seq<Pair>) returns (idx: Index)
    requires Enumerates(t, order)
    ensures idx.Keys == t.Values
    ensures Indexes(idx, t, order)
  {
    idx := map[];
    var i := 0;
    while i < |order|
      invariant 0 <= i <= |order|
      invariant Indexes(idx, t, order[..i])
    {
      var k := order[i];
      var c := t[k];
      var inputs := Inputs(idx, c);
      inputs := inputs + [k.0];
      inputs := inputs + [k.1];
      assert inputs == Inputs(idx, c) + [k.0, k.1];
      IndexesStep(idx, t, order, i);
      idx := idx[c := inputs];
      i := i + 1;
    }
    assert order[..i] == order;
    ProductsOfAll(t, order);
  }

  /** Every product of the table is the product of a listed recipe. */
  lemma ProductsOfAll(t: Table, order: seq<Pair>)
    requires Enumerates(t, order)
    ensures ProductsOf(t, order) == t.Values
  {
    forall c | c in t.Values ensures c in ProductsOf(t, order) {
      var k :| k in t && t[k] == c;
      assert k in order;
    }
  }

  /** `idx` is the reverse index of the recipes listed in `order`. */
  ghost predicate Indexes(idx: Index, t: Table, order: seq<Pair>)
  {
    && idx.Keys == ProductsOf(t, order)
    && forall c :: c in idx ==> idx[c] == InputsOf(t, order, c)
  }

  /** One iteration of the loop of `reverse_elmap`. */
  lemma IndexesStep(idx: Index, t: Table, order: seq<Pair>, i: nat)
    requires i < |order| && order[i] in t && Indexes(idx, t, order[..i])
    ensures var k := order[i];
      Indexes(idx[t[k] := Inputs(idx, t[k]) + [k.0, k.1]], t, order[..i + 1])
  {
    assert order[..i + 1] == order[..i] + [order[i]];
    IndexesAppend(idx, t, order[..i], order[i]);
  }

  /** Listing one more recipe `k` appends its inputs under its product. */
  lemma IndexesAppend(idx: Index, t: Table, pre: seq<Pair>, k: Pair)
    requires k in t && Indexes(idx, t, pre)
    ensures Indexes(idx[t[k] := Inputs(idx, t[k]) + [k.0, k.1]], t, pre + [k])
  {
    var c := t[k];
    var order := pre + [k];
    assert order[..|order| - 1] == pre;
    if c !in idx {
      InputsOfAbsent(t, pre, c);
    }
    assert ProductsOf(t, order) == ProductsOf(t, pre) + {c} by {
      assert forall k' :: k' in order <==> k' in pre || k' == k;
    }
  }

  /** The recipes listed in `order` that produce `c`. */
  function ListedFor(t: Table, order: seq<Pair>, c: string): set<Pair>
  {
    set k | k in order && k in t && t[k] == c
  }

  /** Each listed recipe for `c` contributes two inputs. */
  lemma {:induction false} InputsOfLength(t: Table, order: seq<Pair>, c: string)
    requires forall i, j :: 0 <= i < j < |order| ==> order[i] != order[j]
    ensures |InputsOf(t, order, c)| == 2 * |ListedFor(t, order, c)|
    decreases |order|
  {
    if order == [] {
      assert ListedFor(t, order, c) == {};
    } else {
      var pre := order[..|order| - 1];
      var k := order[|order| - 1];
      InputsOfLength(t, pre, c);
      assert forall k' :: k' in order <==> k' in pre || k' == k;
      assert k !in pre by {
        forall i | 0 <= i < |pre| ensures pre[i] != k {
          assert pre[i] == order[i];
        }
      }
      if k in t && t[k] == c {
        assert ListedFor(t, order, c) == ListedFor(t, pre, c) + {k};
      } else {
        assert ListedFor(t, order, c) == ListedFor(t, pre, c);
      }
    }
  }

  /**
   * `reverse_elmap()[c]` has exactly two entries per recipe producing `c`.
   */
  lemma InputsCount(t: Table, order: seq<Pair>, c: string)
    requires Enumerates(t, order)
    ensures |InputsOf(t, order, c)| == 2 * |RecipesFor(t, c)|
  {
    InputsOfLength(t, order, c);
    assert ListedFor(t, order, c) == RecipesFor(t, c);
  }

  /** The inputs listed for `c` are the inputs of the listed recipes producing `c`. */
  lemma {:induction false} InputsOfMember(t: Table, order: seq<Pair>, c: string, a: string)
    ensures a in InputsOf(t, order, c) <==>
      exists k :: k in order && k in t && t[k] == c && (k.0 == a || k.1 == a)
    decreases |order|
  {
    if order != [] {
      var pre := order[..|order| - 1];
      var k := order[|order| - 1];
      InputsOfMember(t, pre, c, a);
      assert forall k' :: k' in order <==> k' in pre || k' == k;
    }
  }

  /** `a` is listed under `c` exactly when it is an input of a recipe for `c`. */
  lemma InputsMember(t: Table, order: seq<Pair>, c: string, a: string)
    requires Enumerates(t, order)
    ensures a in InputsOf(t, order, c) <==> Feeds(t, a, c)
  {
    InputsOfMember(t, order, c, a);
  }

  /** The rank of a name; names without one rank 0. */
  function Depth(rank: map<string, nat>, x: string): nat
  {
    if x in rank then rank[x] else 0
  }

  /** Every input of a recipe ranks below its product: the recipes have no cycle. */
  ghost predicate RankedTable(t: Table, rank: map<string, nat>)
  {
    forall k :: k in t ==> Depth(rank, k.0) < Depth(rank, t[k]) && Depth(rank, k.1) < Depth(rank, t[k])
  }

  /** Every name listed under `x` ranks below `x`. */
  ghost predicate Ranked(idx: Index, rank: map<string, nat>)
  {
    forall x, i :: 0 <= i < |Inputs(idx, x)| ==> Depth(rank, Inputs(idx, x)[i]) < Depth(rank, x)
  }

  /** The reverse index of a table without cycles has none either. */
  lemma IndexRanked(idx: Index, t: Table, order: seq<Pair>, rank: map<string, nat>)
    requires Enumerates(t, order) && Indexes(idx, t, order) && RankedTable(t, rank)
    ensures Ranked(idx, rank)
  {
    forall x, i | 0 <= i < |Inputs(idx, x)| ensures Depth(rank, Inputs(idx, x)[i]) < Depth(rank, x) {
      InputsMember(t, order, x, Inputs(idx, x)[i]);
    }
  }

  /**
   * The names one call `bfs(known, x)` counts, with `K` the contents of
   * `known` when it starts: `x` itself and what its inputs add.
   */
  ghost function Reach(idx: Index, rank: map<string, nat>, K: set<string>, x: string): set<string>
    requires Ranked(idx, rank)
    decreases Depth(rank, x), 1, 0
  {
    {x} + Below(idx, rank, K, x, |Inputs(idx, x)|)
  }

  /**
   * What the first `i` inputs of `x` add: every one not in `K` brings the
   * names it reaches.
   */
  ghost function Below(idx: Index, rank: map<string, nat>, K: set<string>, x: string, i: nat): set<string>
    requires Ranked(idx, rank) && i <= |Inputs(idx, x)|
    decreases Depth(rank, x), 0, i
  {
    if i == 0 then {}
    else
      var e := Inputs(idx, x)[i - 1];
      Below(idx, rank, K, x, i - 1) + (if e in K then {} else Reach(idx, rank, K, e))
  }

  /** Every input of a name in `U` is in `K` or in `U`. */
  ghost predicate Closed(idx: Index, K: set<string>, U: set<string>)
  {
    forall y, j :: y in U && 0 <= j < |Inputs(idx, y)| ==> Inputs(idx, y)[j] in K || Inputs(idx, y)[j] in U
  }

  /** Everything reached from `x`, other than `x`, ranks below `x`. */
  lemma {:induction false} ReachDepth(idx: Index, rank: map<string, nat>, K: set<string>, x: string)
    requires Ranked(idx, rank)
    ensures forall y :: y in Reach(idx, rank, K, x) ==> y == x || Depth(rank, y) < Depth(rank, x)
    decreases Depth(rank, x), 1, 0
  {
    BelowDepth(idx, rank, K, x, |Inputs(idx, x)|);
  }

  lemma {:induction false} BelowDepth(idx: Index, rank: map<string, nat>, K: set<string>, x: string, i: nat)
    requires Ranked(idx, rank) && i <= |Inputs(idx, x)|
    ensures forall y :: y in Below(idx, rank, K, x, i) ==> Depth(rank, y) < Depth(rank, x)
    decreases Depth(rank, x), 0, i
  {
    if i > 0 {
      BelowDepth(idx, rank, K, x, i - 1);
      var e := Inputs(idx, x)[i - 1];
      if e !in K {
        ReachDepth(idx, rank, K, e);
      }
    }
  }

  /** The names reached from `x` are closed: their inputs are known or reached. */
  lemma {:induction false} ReachClosed(idx: Index, rank: map<string, nat>, K: set<string>, x: string)
    requires Ranked(idx, rank)
    ensures Closed(idx, K, Reach(idx, rank, K, x))
    decreases Depth(rank, x), 1, 0
  {
    BelowClosed(idx, rank, K, x, |Inputs(idx, x)|);
  }

  lemma {:induction false} BelowClosed(idx: Index, rank: map<string, nat>, K: set<string>, x: string, i: nat)
    requires Ranked(idx, rank) && i <= |Inputs(idx, x)|
    ensures Closed(idx, K, Below(idx, rank, K, x, i))
    ensures forall j :: 0 <= j < i ==> Inputs(idx, x)[j] in K || Inputs(idx, x)[j] in Below(idx, rank, K, x, i)
    decreases Depth(rank, x), 0, i
  {
    if i > 0 {
      BelowClosed(idx, rank, K, x, i - 1);
      var e := Inputs(idx, x)[i - 1];
      if e !in K {
        ReachClosed(idx, rank, K, e);
      }
    }
  }

  /** From a name inside a closed set, nothing outside it is reached. */
  lemma {:induction false} ReachInClosed(idx: Index, rank: map<string, nat>, K: set<string>, U: set<string>, x: string)
    requires Ranked(idx, rank) && Closed(idx, K, U) && x in U
    ensures Reach(idx, rank, K, x) <= U
    decreases Depth(rank, x), 1, 0
  {
    BelowInClosed(idx, rank, K, U, x, |Inputs(idx, x)|);
  }

  lemma {:induction false} BelowInClosed(idx: Index, rank: map<string, nat>, K: set<string>, U: set<string>, x: string, i: nat)
    requires Ranked(idx, rank) && Closed(idx, K, U) && x in U && i <= |Inputs(idx, x)|
    ensures Below(idx, rank, K, x, i) <= U
    decreases Depth(rank, x), 0, i
  {
    if i > 0 {
      BelowInClosed(idx, rank, K, U, x, i - 1);
      var e := Inputs(idx, x)[i - 1];
      if e !in K {
        ReachInClosed(idx, rank, K, U, e);
      }
    }
  }

  /**
   * Starting with a closed set `U` already known removes exactly `U` from
   * what is reached.
   */
  lemma {:induction false} ReachShrinks(idx: Index, rank: map<string, nat>, K: set<string>, U: set<string>, x: string)
    requires Ranked(idx, rank) && Closed(idx, K, U) && x !in U
    ensures Reach(idx, rank, K + U, x) == Reach(idx, rank, K, x) - U
    decreases Depth(rank, x), 1, 0
  {
    BelowShrinks(idx, rank, K, U, x, |Inputs(idx, x)|);
  }

  lemma {:induction false} BelowShrinks(idx: Index, rank: map<string, nat>, K: set<string>, U: set<string>, x: string, i: nat)
    requires Ranked(idx, rank) && Closed(idx, K, U) && i <= |Inputs(idx, x)|
    ensures Below(idx, rank, K + U, x, i) == Below(idx, rank, K, x, i) - U
    decreases Depth(rank, x), 0, i
  {
    if i > 0 {
      BelowShrinks(idx, rank, K, U, x, i - 1);
      var e := Inputs(idx, x)[i - 1];
      if e in U && e !in K {
        ReachInClosed(idx, rank, K, U, e);
      } else if e !in U && e !in K {
        ReachShrinks(idx, rank, K, U, e);
      }
    }
  }

  /** Two sequences without repeats and without common names join into one without repeats. */
  lemma DistinctJoin(a: seq<string>, b: seq<string>)
    requires Distinct(a) && Distinct(b) && forall y :: y in a ==> y !in b
    ensures Distinct(a + b)
  {
    forall i, j | 0 <= i < j < |a + b| ensures (a + b)[i] != (a + b)[j] {
      if j >= |a| && i < |a| {
        assert (a + b)[i] in a && (a + b)[j] in b;
      }
    }
  }

  /** The sets after one recursive call of `bfs` and `known.add(e)`. */
  lemma JoinKnown(K: set<string>, U: set<string>, R: set<string>, S: set<string>, e: string)
    requires S == R - U && e in S
    ensures (K + U) + (S - {e}) + {e} == K + (U + R)
    ensures |U + R| == |U| + |S|
  {
    assert U + R == U + S;
    assert U * S == {};
  }

  /**
   * The state of the loop of `bfs(known, end)` after `i` inputs: `U` is what
   * they added to `known`, `ret` counts `end` and `U`, and `trace` lists the
   * names called on so far, each once.
   */
  ghost predicate Progress(idx: Index, rank: map<string, nat>, K: set<string>, end: string, i: nat,
                           U: set<string>, elems: set<string>, ret: nat, trace: seq<string>)
    requires Ranked(idx, rank)
  {
    && i <= |Inputs(idx, end)|
    && U == Below(idx, rank, K, end, i) && Closed(idx, K, U) && end !in U
    && elems == K + U
    && ret == 1 + |U| && |trace| == ret && TraceOf(trace, end, U)
  }

  /** `trace` lists `end` first and then the names of `U`, each once. */
  ghost predicate TraceOf(trace: seq<string>, end: string, U: set<string>)
  {
    && |trace| > 0 && trace[0] == end && Distinct(trace)
    && (forall y :: y in trace <==> y == end || y in U)
  }

  /** Appending the calls made on the names of `S`, each once, to a trace. */
  lemma TraceStep(trace: seq<string>, sub: seq<string>, end: string, U: set<string>, S: set<string>)
    requires TraceOf(trace, end, U) && Distinct(sub) && (forall y :: y in sub <==> y in S)
    requires end !in S && U * S == {}
    ensures TraceOf(trace + sub, end, U + S)
  {
    forall y | y in trace ensures y !in sub {
      assert y == end || y in U;
      assert y !in U * S;
    }
    DistinctJoin(trace, sub);
    assert trace[0] in trace;
    forall y ensures y in trace + sub <==> y == end || y in U + S {
      assert y in trace + sub <==> y in trace || y in sub;
      assert y in trace <==> y == end || y in U;
      assert y in sub <==> y in S;
    }
    assert (trace + sub)[0] == trace[0];
  }

  /**
   * The sets at the `i`-th input `e` of `end` when `e` is neither in `K`
   * nor added yet: the recursive call reaches `S`, what `e` reaches from
   * `K` less what the earlier inputs added, and afterwards the added names
   * are those of the first `i + 1` inputs.
   */
  lemma SetStep(idx: Index, rank: map<string, nat>, K: set<string>, end: string, i: nat, U: set<string>)
    requires Ranked(idx, rank) && i < |Inputs(idx, end)|
    requires U == Below(idx, rank, K, end, i) && Closed(idx, K, U) && end !in U
    requires Inputs(idx, end)[i] !in K + U
    ensures var e := Inputs(idx, end)[i];
      var R := Reach(idx, rank, K, e);
      var S := Reach(idx, rank, K + U, e);
      && U + R == Below(idx, rank, K, end, i + 1) && Closed(idx, K, U + R) && end !in U + R
      && (K + U) + (S - {e}) + {e} == K + (U + R)
      && |U + R| == |U| + |S| && U + R == U + S && end !in S && U * S == {}
  {
    var e := Inputs(idx, end)[i];
    var R := Reach(idx, rank, K, e);
    var S := Reach(idx, rank, K + U, e);
    assert Depth(rank, e) < Depth(rank, end);
    ReachShrinks(idx, rank, K, U, e);
    ReachClosed(idx, rank, K, e);
    ReachDepth(idx, rank, K, e);
    JoinKnown(K, U, R, S, e);
    assert end !in R;
  }

  /**
   * The loop of `bfs` at the `i`-th input `e` of `end`, when `e` is not yet
   * known: the recursive call on `e` reaches what `e` reaches from `K`,
   * minus what the earlier inputs already added, and `known.add(e)` follows.
   */
  lemma RecursionStep(idx: Index, rank: map<string, nat>, K: set<string>, end: string, i: nat,
                      U: set<string>, elems: set<string>, ret: nat, trace: seq<string>,
                      r: nat, sub: seq<string>, after: set<string>)
    returns (U': set<string>)
    requires Ranked(idx, rank) && i < |Inputs(idx, end)|
    requires Progress(idx, rank, K, end, i, U, elems, ret, trace)
    requires Inputs(idx, end)[i] !in elems
    requires var S := Reach(idx, rank, elems, Inputs(idx, end)[i]);
      && r == |S| && after == elems + (S - {Inputs(idx, end)[i]})
      && |sub| == r && Distinct(sub) && (forall y :: y in sub <==> y in S)
    ensures Progress(idx, rank, K, end, i + 1, U', after + {Inputs(idx, end)[i]}, ret + r, trace + sub)
  {
    var e := Inputs(idx, end)[i];
    U' := U + Reach(idx, rank, K, e);
    var S := Reach(idx, rank, K + U, e);
    SetStep(idx, rank, K, end, i, U);
    TraceStep(trace, sub, end, U, S);
  }

  /** Before the loop of `bfs`: only `end` is counted. */
  lemma StartStep(idx: Index, rank: map<string, nat>, K: set<string>, end: string)
    requires Ranked(idx, rank)
    ensures Progress(idx, rank, K, end, 0, {}, K, 1, [end])
  {
    assert [end][0] in [end];
  }

  /** After the loop of `bfs`: the count and the added names are those of `Reach`. */
  lemma FinishStep(idx: Index, rank: map<string, nat>, K: set<string>, end: string,
                   U: set<string>, elems: set<string>, ret: nat, trace: seq<string>)
    requires Ranked(idx, rank)
    requires Progress(idx, rank, K, end, |Inputs(idx, end)|, U, elems, ret, trace)
    ensures var R := Reach(idx, rank, K, end);
      && ret == |R| && elems == K + (R - {end})
      && |trace| == ret && trace[0] == end && Distinct(trace)
      && forall y :: y in trace <==> y in R
  {
    var R := Reach(idx, rank, K, end);
    assert R == {end} + U;
    assert R - {end} == U;
  }

  /** The loop of `bfs` at an input that is already known changes nothing. */
  lemma SkipStep(idx: Index, rank: map<string, nat>, K: set<string>, end: string, i: nat,
                 U: set<string>, elems: set<string>, ret: nat, trace: seq<string>)
    requires Ranked(idx, rank) && i < |Inputs(idx, end)|
    requires Progress(idx, rank, K, end, i, U, elems, ret, trace)
    requires Inputs(idx, end)[i] in elems
    ensures Progress(idx, rank, K, end, i + 1, U, elems, ret, trace)
  {
    var e := Inputs(idx, end)[i];
    if e !in K {
      ReachInClosed(idx, rank, K, U, e);
    }
  }

  /** The Python set `known`, shared by all the calls of one top-level `bfs`. */
  class KnownSet {
    var elems: set<string>

    /** `known.copy()` */
    constructor (elems: set<string>)
      ensures this.elems == elems
    {
      this.elems := elems;
    }

    /** `known.add(e)` */
    method Add(e: string)
      modifies this
      ensures elems == old(elems) + {e}
    {
      elems := elems + {e};
    }
  }

  /**
   * A call `bfs(known, end, pamle)` with the reverse index `idx`: returns
   * how many names `Reach` gives and leaves them all, but `end`, in
   * `known`.  `trace` lists the names the call and its recursive calls
   * were made on, in call order: each once.
   */
  method Expand(idx: Index, ghost rank: map<string, nat>, known: KnownSet, end: string)
    returns (ret: nat, ghost trace: seq<string>)
    requires Ranked(idx, rank)
    modifies known
    ensures ret == |Reach(idx, rank, old(known.elems), end)|
    ensures known.elems == old(known.elems) + (Reach(idx, rank, old(known.elems), end) - {end})
    ensures |trace| == ret && trace[0] == end && Distinct(trace)
    ensures forall y :: y in trace <==> y in Reach(idx, rank, old(known.elems), end)
    decreases Depth(rank, end), 1
  {
    ghost var K := known.elems;
    ghost var U: set<string> := {};
    trace := [end];
    ret := 1;
    StartStep(idx, rank, K, end);
    var inputs := Inputs(idx, end);
    var i := 0;
    while i < |inputs|
      invariant Progress(idx, rank, K, end, i, U, known.elems, ret, trace)
    {
      ret, trace, U := Visit(idx, rank, known, end, i, K, U, ret, trace);
      i := i + 1;
    }
    FinishStep(idx, rank, K, end, U, known.elems, ret, trace);
  }

  /**
   * One pass of the loop of `bfs(known, end)`, at its `i`-th input `e`:
   * unless `e` is known, add the count of `bfs(known, e)` and then add `e`
   * to `known`.
   */
  method Visit(idx: Index, ghost rank: map<string, nat>, known: KnownSet, end: string, i: nat,
               ghost K: set<string>, ghost U: set<string>, ret: nat, ghost trace: seq<string>)
    returns (ret': nat, ghost trace': seq<string>, ghost U': set<string>)
    requires Ranked(idx, rank) && i < |Inputs(idx, end)|
    requires Progress(idx, rank, K, end, i, U, known.elems, ret, trace)
    modifies known
    ensures Progress(idx, rank, K, end, i + 1, U', known.elems, ret', trace')
    decreases Depth(rank, end), 0
  {
    var e := Inputs(idx, end)[i];
    if e !in known.elems {
      ghost var elems := known.elems;
      var r;
      ghost var sub;
      r, sub := Expand(idx, rank, known, e);
      U' := RecursionStep(idx, rank, K, end, i, U, elems, ret, trace, r, sub, known.elems);
      ret' := ret + r;
      known.Add(e);
      trace' := trace + sub;
    } else {
      SkipStep(idx, rank, K, end, i, U, known.elems, ret, trace);
      ret', trace', U' := ret, trace, U;
    }
  }

  /**
   * The top-level call `bfs(known, end)`: builds the reverse index of the
   * loaded table `t` (listed in insertion order by `order`) and counts on a
   * copy of `known`, so the caller's set is left as it was.  The count is
   * the number of names reached from `end` by going from a name to an
   * input of one of its recipes, without entering names of `known`; each
   * of them is called on exactly once.  `rank` witnesses that the whole
   * table has no cycle.  That is more than the recursion needs: it only
   * fails to end on a cycle reachable from `end` outside `known`.
   */
  method Bfs(t: Table, order: seq<Pair>, ghost rank: map<string, nat>, known: KnownSet, end: string)
    returns (ret: nat, ghost trace: seq<string>)
    requires Enumerates(t, order) && RankedTable(t, rank)
    ensures ret == |Reachable(t, known.elems, end)| && ret >= 1
    ensures |trace| == ret && trace[0] == end && Distinct(trace)
    ensures forall y :: y in trace <==> y in Reachable(t, known.elems, end)
  {
    var idx := ReverseElmap(t, order);
    IndexRanked(idx, t, order, rank);
    var copy := new KnownSet(known.elems);
    ret, trace := Expand(idx, rank, copy, end);
    ReachIsReachable(t, order, idx, rank, known.elems, end);
  }

  /** `p` goes from each name to an input of the name listed in `idx`, never into `K`. */
  ghost predicate IsWalk(idx: Index, K: set<string>, p: seq<string>)
  {
    |p| > 0 && forall j :: 0 < j < |p| ==> p[j] in Inputs(idx, p[j - 1]) && p[j] !in K
  }

  /** `p` goes from each name to an input of one of its recipes in `t`, never into `K`. */
  ghost predicate IsRecipeWalk(t: Table, K: set<string>, p: seq<string>)
  {
    |p| > 0 && forall j :: 0 < j < |p| ==> Feeds(t, p[j], p[j - 1]) && p[j] !in K
  }

  /** The names used as an input by some recipe. */
  function InputNames(t: Table): (ns: set<string>)
    ensures forall a, c :: Feeds(t, a, c) ==> a in ns
  {
    (set k | k in t :: k.0) + (set k | k in t :: k.1)
  }

  /** The names a walk of recipe inputs from `x` ends at, `x` included. */
  ghost function Reachable(t: Table, K: set<string>, x: string): set<string>
  {
    set y | y in {x} + InputNames(t) && exists p :: IsRecipeWalk(t, K, p) && p[0] == x && p[|p| - 1] == y
  }

  /** The `j`-th input of `x`, when not in `K`, brings all it reaches into `Below`. */
  lemma {:induction false} BelowContains(idx: Index, rank: map<string, nat>, K: set<string>, x: string, i: nat, j: nat)
    requires Ranked(idx, rank) && j < i <= |Inputs(idx, x)| && Inputs(idx, x)[j] !in K
    ensures Reach(idx, rank, K, Inputs(idx, x)[j]) <= Below(idx, rank, K, x, i)
    decreases i
  {
    if j < i - 1 {
      BelowContains(idx, rank, K, x, i - 1, j);
    }
  }

  /** The end of every walk from `p[0]` is counted by `Reach`. */
  lemma {:induction false} ReachedByWalk(idx: Index, rank: map<string, nat>, K: set<string>, p: seq<string>)
    requires Ranked(idx, rank) && IsWalk(idx, K, p)
    ensures p[|p| - 1] in Reach(idx, rank, K, p[0])
    decreases |p|
  {
    if |p| > 1 {
      var q := p[1..];
      assert forall j :: 0 <= j < |q| ==> q[j] == p[j + 1];
      assert IsWalk(idx, K, q) by {
        forall j | 0 < j < |q| ensures q[j] in Inputs(idx, q[j - 1]) && q[j] !in K {
          assert q[j] == p[j + 1] && q[j - 1] == p[j];
        }
      }
      assert p[1] in Inputs(idx, p[0]);
      ReachedByWalk(idx, rank, K, q);
      var j :| 0 <= j < |Inputs(idx, p[0])| && Inputs(idx, p[0])[j] == p[1];
      BelowContains(idx, rank, K, p[0], |Inputs(idx, p[0])|, j);
    }
  }

  /** Every name `Reach` counts is the end of a walk from `x`. */
  lemma {:induction false} WalkToReached(idx: Index, rank: map<string, nat>, K: set<string>, x: string, y: string)
    returns (p: seq<string>)
    requires Ranked(idx, rank) && y in Reach(idx, rank, K, x)
    ensures IsWalk(idx, K, p) && p[0] == x && p[|p| - 1] == y
    decreases Depth(rank, x), 1, 0
  {
    if y == x {
      p := [x];
    } else {
      p := WalkInBelow(idx, rank, K, x, |Inputs(idx, x)|, y);
    }
  }

  lemma {:induction false} WalkInBelow(idx: Index, rank: map<string, nat>, K: set<string>, x: string, i: nat, y: string)
    returns (p: seq<string>)
    requires Ranked(idx, rank) && i <= |Inputs(idx, x)| && y in Below(idx, rank, K, x, i)
    ensures IsWalk(idx, K, p) && p[0] == x && p[|p| - 1] == y
    decreases Depth(rank, x), 0, i
  {
    var e := Inputs(idx, x)[i - 1];
    if y in Below(idx, rank, K, x, i - 1) {
      p := WalkInBelow(idx, rank, K, x, i - 1, y);
    } else {
      assert e !in K && y in Reach(idx, rank, K, e);
      var q := WalkToReached(idx, rank, K, e, y);
      p := [x] + q;
      assert forall j :: 0 < j < |p| ==> p[j] == q[j - 1];
    }
  }

  /** Over a reverse index of `t`, walks of the index are walks of the recipes. */
  lemma WalksAgree(t: Table, order: seq<Pair>, idx: Index, K: set<string>, p: seq<string>)
    requires Enumerates(t, order) && Indexes(idx, t, order)
    ensures IsWalk(idx, K, p) <==> IsRecipeWalk(t, K, p)
  {
    forall j | 0 < j < |p| ensures p[j] in Inputs(idx, p[j - 1]) <==> Feeds(t, p[j], p[j - 1]) {
      IndexInputs(t, order, idx, p[j - 1]);
      InputsMember(t, order, p[j - 1], p[j]);
    }
  }

  /** The reverse index lists under `c` exactly the inputs of the recipes for `c`. */
  lemma IndexInputs(t: Table, order: seq<Pair>, idx: Index, c: string)
    requires Enumerates(t, order) && Indexes(idx, t, order)
    ensures Inputs(idx, c) == InputsOf(t, order, c)
  {
    if c !in idx {
      InputsOfAbsent(t, order, c);
    }
  }

  /**
   * What the recursion counts is what the walks reach: on an acyclic table,
   * `bfs` counts exactly the names reachable backwards from `end` without
   * entering `known`.
   */
  lemma ReachIsReachable(t: Table, order: seq<Pair>, idx: Index, rank: map<string, nat>, K: set<string>, x: string)
    requires Enumerates(t, order) && Indexes(idx, t, order) && Ranked(idx, rank)
    ensures Reach(idx, rank, K, x) == Reachable(t, K, x)
  {
    forall y | y in Reach(idx, rank, K, x) ensures y in Reachable(t, K, x) {
      var p := WalkToReached(idx, rank, K, x, y);
      WalksAgree(t, order, idx, K, p);
      if |p| > 1 {
        assert Feeds(t, p[|p| - 1], p[|p| - 1 - 1]);
      }
    }
    forall y | y in Reachable(t, K, x) ensures y in Reach(idx, rank, K, x) {
      var p :| IsRecipeWalk(t, K, p) && p[0] == x && p[|p| - 1] == y;
      WalksAgree(t, order, idx, K, p);
      ReachedByWalk(idx, rank, K, p);
    }
  }

  /** The first step of a walk from `end` goes to an input of a recipe for `end`. */
  lemma FirstStep(t: Table, K: set<string>, end: string, q: seq<string>)
    requires IsRecipeWalk(t, K, q) && q[0] == end && |q| > 1
    ensures Feeds(t, q[1], end) && q[1] !in K && RecipesFor(t, end) != {}
  {
    assert Feeds(t, q[1], q[0]);
    var k :| k in t && t[k] == end && (k.0 == q[1] || k.1 == q[1]);
    assert k in RecipesFor(t, end);
  }

  /**
   * When no recipe produces `end`, or every input of every recipe for `end`
   * is known, only `end` is reached: `bfs` returns 1.
   */
  lemma AllInputsKnown(t: Table, K: set<string>, end: string)
    requires RecipesFor(t, end) == {} || forall a :: Feeds(t, a, end) ==> a in K
    ensures Reachable(t, K, end) == {end}
  {
    assert IsRecipeWalk(t, K, [end]);
    forall y | y in Reachable(t, K, end) ensures y == end {
      var q :| IsRecipeWalk(t, K, q) && q[0] == end && q[|q| - 1] == y;
      if |q| > 1 {
        FirstStep(t, K, end, q);
        assert false;
      }
    }
  }
}
