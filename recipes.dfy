/**
 * The recipe table of element.py: `load_elmap` reads `c = a + b` lines into a
 * cached dictionary keyed by the sorted input pair, and `combine_elements`
 * looks an unordered pair up in it.
 */
module Recipes {
  import opened Wrappers
  import opened Names
  import opened LineSyntax

  /** The recipe table: normalised input pair to product name. */
  type Table = map<Pair, string>

  /** `order` lists every key of `t` exactly once: the dictionary's insertion order. */
  predicate Enumerates(t: Table, order: seq<Pair>)
  {
    && (forall i, j :: 0 <= i < j < |order| ==> order[i] != order[j])
    && (forall k :: k in order ==> k in t)
    && (forall k :: k in t ==> k in order)
  }

  /** Inserting a new key appends it to the insertion order. */
  lemma EnumeratesAdd(t: Table, order: seq<Pair>, k: Pair, v: string)
    requires Enumerates(t, order) && k !in t
    ensures Enumerates(t[k := v], order + [k])
  {
  }

  /** A non-empty sequence holds its first element. */
  lemma HeadIn<T>(s: seq<T>)
    ensures s == [] || s[0] in s
  {
  }

  /** Every key of `t` is a sorted pair. */
  predicate KeysSorted(t: Table)
  {
    forall k :: k in t ==> IsSorted(k)
  }

  /** The recipe a matching line contributes: its normalised key and its product. */
  function Entry(l: RecipeLine): (Pair, string)
  {
    (SortedPair(l.left, l.right), l.product)
  }

  /** Each line of the file, parsed. */
  function Parsed(lines: seq<string>): (ps: seq<Option<RecipeLine>>)
    ensures |ps| == |lines| && forall i :: 0 <= i < |lines| ==> ps[i] == ParseLine(lines[i])
  {
    seq(|lines|, i requires 0 <= i < |lines| => ParseLine(lines[i]))
  }

  /** The recipes of the matching lines, in file order; other lines contribute nothing. */
  function EntriesOf(ps: seq<Option<RecipeLine>>): (es: seq<(Pair, string)>)
    ensures |es| <= |ps|
  {
    if ps == [] then []
    else
      match ps[0]
      case None => EntriesOf(ps[1..])
      case Some(l) => [Entry(l)] + EntriesOf(ps[1..])
  }

  /** The key of every recipe is a sorted pair. */
  lemma {:induction false} EntriesSorted(ps: seq<Option<RecipeLine>>)
    ensures forall e :: e in EntriesOf(ps) ==> IsSorted(e.0)
  {
    if ps != [] {
      EntriesSorted(ps[1..]);
    }
  }

  /** The recipes of a file. */
  function Entries(lines: seq<string>): seq<(Pair, string)>
  {
    EntriesOf(Parsed(lines))
  }

  /** Each matching line contributes its own recipe. */
  lemma {:induction false} EntriesOfLine(ps: seq<Option<RecipeLine>>, i: nat)
    requires i < |ps| && ps[i].Some?
    ensures Entry(ps[i].value) in EntriesOf(ps)
  {
    if i > 0 {
      EntriesOfLine(ps[1..], i - 1);
    }
  }

  /** Every recipe comes from a matching line. */
  lemma {:induction false} EntryFromLine(ps: seq<Option<RecipeLine>>, e: (Pair, string))
    requires e in EntriesOf(ps)
    ensures exists i :: 0 <= i < |ps| && ps[i].Some? && Entry(ps[i].value) == e
  {
    if ps[0].Some? && e == Entry(ps[0].value) {
    } else {
      EntryFromLine(ps[1..], e);
      var i :| 0 <= i < |ps[1..]| && ps[1..][i].Some? && Entry(ps[1..][i].value) == e;
      assert ps[1..][i] == ps[i + 1];
    }
  }

  /**
   * Why loading stopped: the assertion on a repeated key.  As written, building
   * its message raises `TypeError` first; either way loading stops at that key.
   */
  datatype LoadError = DuplicateCombination(key: Pair)

  /** What the loading loop leaves behind: the table, its insertion order and the repeated key, if any. */
  datatype Loaded = Loaded(table: Table, order: seq<Pair>, duplicate: Option<Pair>)

  /** Adding the recipes `es` to `t` one by one, stopping at the first key already present. */
  function Fill(t: Table, order: seq<Pair>, es: seq<(Pair, string)>): (r: Loaded)
    ensures forall k :: k in t ==> k in r.table && r.table[k] == t[k]
    ensures r.duplicate.Some? ==> r.duplicate.value in r.table
    decreases |es|
  {
    if es == [] then Loaded(t, order, None)
    else if es[0].0 in t then Loaded(t, order, Some(es[0].0))
    else Fill(t[es[0].0 := es[0].1], order + [es[0].0], es[1..])
  }

  /** One iteration of the loading loop, on the parsed line `ps[i]`. */
  lemma FillStep(t: Table, order: seq<Pair>, ps: seq<Option<RecipeLine>>, i: nat)
    requires i < |ps|
    ensures Fill(t, order, EntriesOf(ps[i..])) ==
      match ps[i]
      case None => Fill(t, order, EntriesOf(ps[i + 1..]))
      case Some(l) =>
        if Entry(l).0 in t then Loaded(t, order, Some(Entry(l).0))
        else Fill(t[Entry(l).0 := Entry(l).1], order + [Entry(l).0], EntriesOf(ps[i + 1..]))
  {
    assert ps[i..][1..] == ps[i + 1..];
  }

  /** A line that does not match leaves the loading loop's state alone. */
  lemma LoadStepSkip(t: Table, order: seq<Pair>, ps: seq<Option<RecipeLine>>, i: nat)
    requires i < |ps| && ps[i].None?
    ensures Fill(t, order, EntriesOf(ps[i..])) == Fill(t, order, EntriesOf(ps[i + 1..]))
  {
    FillStep(t, order, ps, i);
  }

  /** A matching line whose key is present stops the loading loop. */
  lemma LoadStepStop(t: Table, order: seq<Pair>, ps: seq<Option<RecipeLine>>, i: nat)
    requires i < |ps| && ps[i].Some? && Entry(ps[i].value).0 in t
    ensures Fill(t, order, EntriesOf(ps[i..])) == Loaded(t, order, Some(Entry(ps[i].value).0))
  {
    FillStep(t, order, ps, i);
  }

  /** A matching line with a new key adds its recipe and keeps the table valid. */
  lemma LoadStepAdd(t: Table, order: seq<Pair>, ps: seq<Option<RecipeLine>>, i: nat)
    requires i < |ps| && ps[i].Some? && Entry(ps[i].value).0 !in t
    requires Enumerates(t, order) && KeysSorted(t)
    ensures var e := Entry(ps[i].value);
      && Fill(t, order, EntriesOf(ps[i..])) == Fill(t[e.0 := e.1], order + [e.0], EntriesOf(ps[i + 1..]))
      && Enumerates(t[e.0 := e.1], order + [e.0]) && KeysSorted(t[e.0 := e.1])
  {
    FillStep(t, order, ps, i);
    var e := Entry(ps[i].value);
    EnumeratesAdd(t, order, e.0, e.1);
  }

  /** The keys of `es` are pairwise distinct. */
  predicate DistinctKeys(es: seq<(Pair, string)>)
  {
    forall i, j :: 0 <= i < j < |es| ==> es[i].0 != es[j].0
  }

  /** Filling keeps the table sorted and its insertion order exact. */
  lemma {:induction false} FillValid(t: Table, order: seq<Pair>, es: seq<(Pair, string)>)
    requires Enumerates(t, order) && KeysSorted(t)
    requires forall e :: e in es ==> IsSorted(e.0)
    ensures var f := Fill(t, order, es); Enumerates(f.table, f.order) && KeysSorted(f.table)
    decreases |es|
  {
    if es != [] && es[0].0 !in t {
      var k := es[0].0;
      assert Enumerates(t[k := es[0].1], order + [k]);
      FillValid(t[k := es[0].1], order + [k], es[1..]);
    }
  }

  /**
   * Loading fails exactly when two recipes share a key (whatever their
   * products) or a recipe's key is already in the table.
   */
  lemma {:induction false} FillFailsIffRepeat(t: Table, order: seq<Pair>, es: seq<(Pair, string)>)
    ensures Fill(t, order, es).duplicate.None?
        <==> DistinctKeys(es) && forall e :: e in es ==> e.0 !in t
    decreases |es|
  {
    if es != [] {
      var k := es[0].0;
      FillFailsIffRepeat(t[k := es[0].1], order + [k], es[1..]);
      if k !in t && DistinctKeys(es[1..]) && (forall e :: e in es[1..] ==> e.0 !in t[k := es[0].1]) {
        forall i, j | 0 <= i < j < |es| ensures es[i].0 != es[j].0 {
          if i > 0 {
            assert es[i] == es[1..][i - 1] && es[j] == es[1..][j - 1];
          } else {
            assert es[j] in es[1..];
          }
        }
      }
      if DistinctKeys(es) && (forall e :: e in es ==> e.0 !in t) {
        forall e | e in es[1..] ensures e.0 !in t[k := es[0].1] {
          var j :| 0 <= j < |es[1..]| && es[1..][j] == e;
          assert es[j + 1] == e;
        }
        assert DistinctKeys(es[1..]) by {
          forall i, j | 0 <= i < j < |es[1..]| ensures es[1..][i].0 != es[1..][j].0 {
            assert es[1..][i] == es[i + 1] && es[1..][j] == es[j + 1];
          }
        }
      }
    }
  }

  /** After a load without repeats, the table holds exactly the old entries and every recipe, in order. */
  lemma FillContents(t: Table, order: seq<Pair>, es: seq<(Pair, string)>)
    requires Fill(t, order, es).duplicate.None?
    ensures var f := Fill(t, order, es);
      && f.table.Keys == t.Keys + (set e | e in es :: e.0)
      && (forall k :: k in t ==> f.table[k] == t[k])
      && (forall e :: e in es ==> f.table[e.0] == e.1)
      && f.order == order + seq(|es|, i requires 0 <= i < |es| => es[i].0)
  {
    FillKeys(t, order, es);
    FillValues(t, order, es);
    FillOrder(t, order, es);
  }

  /** A load without repeats adds the recipes' keys and keeps the old entries. */
  lemma {:induction false} FillKeys(t: Table, order: seq<Pair>, es: seq<(Pair, string)>)
    requires Fill(t, order, es).duplicate.None?
    ensures var f := Fill(t, order, es);
      && f.table.Keys == t.Keys + (set e | e in es :: e.0)
      && (forall k :: k in t ==> f.table[k] == t[k])
    decreases |es|
  {
    if es != [] {
      var k := es[0].0;
      FillKeys(t[k := es[0].1], order + [k], es[1..]);
      assert (set e | e in es :: e.0) == {k} + (set e | e in es[1..] :: e.0) by {
        assert forall e :: e in es <==> e == es[0] || e in es[1..];
      }
    }
  }

  /** A load without repeats maps every recipe's key to its product. */
  lemma {:induction false} FillValues(t: Table, order: seq<Pair>, es: seq<(Pair, string)>)
    requires Fill(t, order, es).duplicate.None?
    ensures var f := Fill(t, order, es); forall e :: e in es ==> e.0 in f.table && f.table[e.0] == e.1
    decreases |es|
  {
    if es != [] {
      var k := es[0].0;
      var t' := t[k := es[0].1];
      FillValues(t', order + [k], es[1..]);
      FillKeys(t', order + [k], es[1..]);
      FillFailsIffRepeat(t', order + [k], es[1..]);
      var f := Fill(t, order, es);
      assert f == Fill(t', order + [k], es[1..]);
      forall e | e in es ensures e.0 in f.table && f.table[e.0] == e.1 {
        if e != es[0] {
          assert e in es[1..];
        } else {
          assert k in t';
        }
      }
    }
  }

  /** A load without repeats appends the recipes' keys to the insertion order. */
  lemma {:induction false} FillOrder(t: Table, order: seq<Pair>, es: seq<(Pair, string)>)
    requires Fill(t, order, es).duplicate.None?
    ensures Fill(t, order, es).order == order + seq(|es|, i requires 0 <= i < |es| => es[i].0)
    decreases |es|
  {
    if es != [] {
      var k := es[0].0;
      FillOrder(t[k := es[0].1], order + [k], es[1..]);
      assert seq(|es|, i requires 0 <= i < |es| => es[i].0)
          == [k] + seq(|es[1..]|, i requires 0 <= i < |es[1..]| => es[1..][i].0);
    }
  }

  /**
   * A failed load keeps what it inserted before the offending recipe: the
   * table is the successful load of a prefix, and the repeated key is in it.
   */
  lemma {:induction false} FillStopsAtRepeat(t: Table, order: seq<Pair>, es: seq<(Pair, string)>)
    requires Fill(t, order, es).duplicate.Some?
    ensures var f := Fill(t, order, es);
      exists n :: 0 <= n < |es| && es[n].0 == f.duplicate.value && f.duplicate.value in f.table
        && Fill(t, order, es[..n]) == Loaded(f.table, f.order, None)
    decreases |es|
  {
    var k := es[0].0;
    if k in t {
      assert es[..0] == [];
    } else {
      var t' := t[k := es[0].1];
      FillStopsAtRepeat(t', order + [k], es[1..]);
      var f := Fill(t, order, es);
      var n :| 0 <= n < |es[1..]| && es[1..][n].0 == f.duplicate.value && f.duplicate.value in f.table
        && Fill(t', order + [k], es[1..][..n]) == Loaded(f.table, f.order, None);
      assert es[..n + 1][1..] == es[1..][..n];
      assert es[n + 1] == es[1..][n];
    }
  }

  /**
   * The module-level cache `load_elmap.data`.  `order` is the dictionary's
   * insertion order, which `reverse_elmap` iterates in.
   */
  class RecipeCache {
    var data: Table
    var order: seq<Pair>

    ghost predicate Valid()
      reads this
    {
      Enumerates(data, order) && KeysSorted(data)
    }

    /** `load_elmap.data = {}` */
    constructor ()
      ensures Valid() && data == map[] && order == []
    {
      data := map[];
      order := [];
    }

    /**
     * `load_elmap()` over the lines of the recipe file.  A non-empty cache is
     * returned without reading; otherwise the lines are added one by one and a
     * repeated key aborts, leaving the recipes inserted before it cached.
     */
    method Load(lines: seq<string>) returns (r: Result<Table, LoadError>)
      requires Valid()
      modifies this
      ensures Valid()
      ensures old(data) != map[] ==> r == Success(old(data)) && data == old(data) && order == old(order)
      ensures old(data) == map[] ==>
        var f := Fill(map[], [], Entries(lines));
        && data == f.table && order == f.order
        && r == (if f.duplicate.None? then Success(f.table) else Failure(DuplicateCombination(f.duplicate.value)))
    {
      if data != map[] {
        return Success(data);
      }
      HeadIn(order);
      ghost var ps := Parsed(lines);
      ghost var goal := Fill(map[], [], Entries(lines));
      assert ps[0..] == ps;
      assert order == [] && Fill(data, order, EntriesOf(ps[0..])) == goal;
      var i := 0;
      while i < |lines|
        invariant 0 <= i <= |lines|
        invariant Valid()
        invariant Fill(data, order, EntriesOf(ps[i..])) == goal
        decreases |lines| - i
      {
        var parsed := ParseLine(lines[i]);
        if parsed.Some? {
          var key := SortedPair(parsed.value.left, parsed.value.right);
          if key in data {
            LoadStepStop(data, order, ps, i);
            return Failure(DuplicateCombination(key));
          }
          LoadStepAdd(data, order, ps, i);
          data := data[key := parsed.value.product];
          order := order + [key];
        } else {
          LoadStepSkip(data, order, ps, i);
        }
        i := i + 1;
      }
      assert ps[i..] == [];
      r := Success(data);
    }

    /**
     * `combine_elements(a, b)`: load the table (which may raise), then look
     * the unordered pair up.
     */
    method CombineElements(lines: seq<string>, a: string, b: string) returns (r: Result<Option<string>, LoadError>)
      requires Valid()
      modifies this
      ensures Valid()
      ensures old(data) != map[] ==> r == Success(Combine(old(data), a, b)) && data == old(data) && order == old(order)
      ensures old(data) == map[] ==>
        var f := Fill(map[], [], Entries(lines));
        && data == f.table && order == f.order
        && r == (if f.duplicate.None? then Success(Combine(f.table, a, b)) else Failure(DuplicateCombination(f.duplicate.value)))
    {
      var loaded := Load(lines);
      match loaded
      case Failure(e) => r := Failure(e);
      case Success(t) => r := Success(Combine(t, a, b));
    }
  }

  /** The product of `a` and `b`, looked up under the sorted pair; `None` for a `KeyError`. */
  function Combine(t: Table, a: string, b: string): (r: Option<string>)
    ensures r.None? <==> SortedPair(a, b) !in t
    ensures r.Some? ==> r.value == t[SortedPair(a, b)]
  {
    var key := SortedPair(a, b);
    if key in t then Some(t[key]) else None
  }

  /** Combining is independent of the order of the two names. */
  lemma CombineSymmetric(t: Table, a: string, b: string)
    ensures Combine(t, a, b) == Combine(t, b, a)
  {
    SortedPairSymmetric(a, b);
  }

  /** The table a fresh load builds from `lines`. */
  function Loads(lines: seq<string>): Loaded
  {
    Fill(map[], [], Entries(lines))
  }

  /** Every key of a loaded table, complete or partial, is a sorted pair. */
  lemma LoadedKeysSorted(lines: seq<string>)
    ensures KeysSorted(Loads(lines).table)
  {
    EntriesSorted(Parsed(lines));
    FillValid(map[], [], Entries(lines));
  }

  /** Two recipes with the same key come from two matching lines with the same key. */
  lemma SameKeyLines(ps: seq<Option<RecipeLine>>, k: nat, l: nat)
    requires k < l < |EntriesOf(ps)| && EntriesOf(ps)[k].0 == EntriesOf(ps)[l].0
    ensures exists i, j :: 0 <= i < j < |ps| && ps[i].Some? && ps[j].Some? && Entry(ps[i].value).0 == Entry(ps[j].value).0
  {
    assert ps[0..] == ps;
    EntriesCount(ps, 0);
    EntryAtPosition(ps, 0, k);
    EntryAtPosition(ps, 0, l);
    var i, j := Positions(ps, 0)[k], Positions(ps, 0)[l];
    assert i < j && ps[i].Some? && ps[j].Some? && Entry(ps[i].value).0 == Entry(ps[j].value).0;
  }

  /** Two matching lines with the same key give two recipes with the same key. */
  lemma SameKeyEntries(ps: seq<Option<RecipeLine>>, i: nat, j: nat)
    requires i < j < |ps| && ps[i].Some? && ps[j].Some? && Entry(ps[i].value).0 == Entry(ps[j].value).0
    ensures !DistinctKeys(EntriesOf(ps))
  {
    assert ps[0..] == ps;
    var pos := Positions(ps, 0);
    var k :| 0 <= k < |pos| && pos[k] == i;
    var l :| 0 <= l < |pos| && pos[l] == j;
    EntryAtPosition(ps, 0, k);
    EntryAtPosition(ps, 0, l);
    assert k < l && EntriesOf(ps)[k].0 == EntriesOf(ps)[l].0;
  }

  /** Filling an empty table fails exactly when two matching lines give the same key. */
  lemma FillFailsIffSameKey(ps: seq<Option<RecipeLine>>)
    ensures Fill(map[], [], EntriesOf(ps)).duplicate.Some? <==>
      exists i, j :: 0 <= i < j < |ps| && ps[i].Some? && ps[j].Some? && Entry(ps[i].value).0 == Entry(ps[j].value).0
  {
    var es := EntriesOf(ps);
    FillFailsIffRepeat(map[], [], es);
    if !DistinctKeys(es) {
      var k, l :| 0 <= k < l < |es| && es[k].0 == es[l].0;
      SameKeyLines(ps, k, l);
    }
    if exists i, j :: 0 <= i < j < |ps| && ps[i].Some? && ps[j].Some? && Entry(ps[i].value).0 == Entry(ps[j].value).0 {
      var i, j :| 0 <= i < j < |ps| && ps[i].Some? && ps[j].Some? && Entry(ps[i].value).0 == Entry(ps[j].value).0;
      SameKeyEntries(ps, i, j);
    }
  }

  /** A fresh load fails exactly when two matching lines name the same two inputs, in either order. */
  lemma LoadFailsIffSamePair(lines: seq<string>)
    ensures Loads(lines).duplicate.Some? <==>
      exists i, j :: 0 <= i < j < |lines| && Parsed(lines)[i].Some? && Parsed(lines)[j].Some?
        && multiset{Parsed(lines)[i].value.left, Parsed(lines)[i].value.right}
           == multiset{Parsed(lines)[j].value.left, Parsed(lines)[j].value.right}
  {
    var ps := Parsed(lines);
    FillFailsIffSameKey(ps);
    forall i, j | 0 <= i < |ps| && 0 <= j < |ps| && ps[i].Some? && ps[j].Some?
      ensures Entry(ps[i].value).0 == Entry(ps[j].value).0
          <==> multiset{ps[i].value.left, ps[i].value.right} == multiset{ps[j].value.left, ps[j].value.right}
    {
      SortedPairSameNames(ps[i].value.left, ps[i].value.right, ps[j].value.left, ps[j].value.right);
    }
  }

  /** The indices, from `from` on, of the matching lines, in increasing order. */
  function Positions<T>(ps: seq<Option<T>>, from: nat): (pos: seq<nat>)
    requires from <= |ps|
    ensures forall k :: 0 <= k < |pos| ==> from <= pos[k] < |ps| && ps[pos[k]].Some?
    ensures forall k, l :: 0 <= k < l < |pos| ==> pos[k] < pos[l]
    ensures forall i :: from <= i < |ps| && ps[i].Some? ==> i in pos
    decreases |ps| - from
  {
    if from == |ps| then []
    else if ps[from].Some? then [from] + Positions(ps, from + 1)
    else Positions(ps, from + 1)
  }

  /** There are as many recipes as matching lines. */
  lemma {:induction false} EntriesCount(ps: seq<Option<RecipeLine>>, from: nat)
    requires from <= |ps|
    ensures |EntriesOf(ps[from..])| == |Positions(ps, from)|
    decreases |ps| - from
  {
    if from < |ps| {
      assert ps[from..][1..] == ps[from + 1..];
      EntriesCount(ps, from + 1);
    }
  }

  /** The `k`-th recipe is the one of the `k`-th matching line. */
  lemma {:induction false} EntryAtPosition(ps: seq<Option<RecipeLine>>, from: nat, k: nat)
    requires from <= |ps| && k < |Positions(ps, from)|
    ensures k < |EntriesOf(ps[from..])|
    ensures EntriesOf(ps[from..])[k] == Entry(ps[Positions(ps, from)[k]].value)
    decreases |ps| - from
  {
    EntriesCount(ps, from);
    assert ps[from..][1..] == ps[from + 1..];
    if ps[from].None? {
      EntryAtPosition(ps, from + 1, k);
    } else if k > 0 {
      EntryAtPosition(ps, from + 1, k - 1);
    }
  }

  /** After a successful load, every line `c = a + b` combines `a` and `b`, in either order, into `c`. */
  lemma LoadedCombineFindsLine(lines: seq<string>, i: nat)
    requires Loads(lines).duplicate.None?
    requires i < |lines| && ParseLine(lines[i]).Some?
    ensures var l := ParseLine(lines[i]).value;
      && Combine(Loads(lines).table, l.left, l.right) == Some(l.product)
      && Combine(Loads(lines).table, l.right, l.left) == Some(l.product)
  {
    var l := ParseLine(lines[i]).value;
    EntriesOfLine(Parsed(lines), i);
    FillContents(map[], [], Entries(lines));
    SortedPairSymmetric(l.left, l.right);
  }

  /** After a successful load, every combination comes from a line of the file. */
  lemma LoadedCombineFromLine(lines: seq<string>, a: string, b: string)
    requires Loads(lines).duplicate.None?
    requires Combine(Loads(lines).table, a, b).Some?
    ensures exists i :: (0 <= i < |lines| && ParseLine(lines[i]).Some?
      && ParseLine(lines[i]).value.product == Combine(Loads(lines).table, a, b).value
      && multiset{ParseLine(lines[i]).value.left, ParseLine(lines[i]).value.right} == multiset{a, b})
  {
    var es := Entries(lines);
    var key := SortedPair(a, b);
    FillContents(map[], [], es);
    var e :| e in es && e.0 == key;
    EntryFromLine(Parsed(lines), e);
    var i :| 0 <= i < |lines| && Parsed(lines)[i].Some? && Entry(Parsed(lines)[i].value) == e;
    var l := ParseLine(lines[i]).value;
    SortedPairSameNames(l.left, l.right, a, b);
  }

  /** Why Python's `%` operator on strings raises: too few or too many arguments, or a conversion other than `%s`/`%%`. */
  datatype FormatError = NotEnoughArguments | NotAllArgumentsConverted | UnsupportedFormat

  /** `s` put in front of a formatted string; errors pass through. */
  function Prepend(s: string, r: Result<string, FormatError>): Result<string, FormatError>
  {
    match r
    case Success(v) => Success(s + v)
    case Failure(e) => Failure(e)
  }

  /**
   * `template % tuple(args)` for templates using only `%s` and `%%`, with
   * string arguments: each `%s` takes the next argument, and arguments left
   * over at the end are an error.
   */
  function PercentFormat(template: string, args: seq<string>): (r: Result<string, FormatError>)
    ensures '%' !in template ==> (r.Success? <==> args == [])
    ensures '%' !in template && args == [] ==> r == Success(template)
    decreases |template|
  {
    if template == [] then
      if args == [] then Success([]) else Failure(NotAllArgumentsConverted)
    else if template[0] != '%' then
      assert template == [template[0]] + template[1..];
      Prepend([template[0]], PercentFormat(template[1..], args))
    else if |template| == 1 then Failure(UnsupportedFormat)
    else if template[1] == '%' then Prepend("%", PercentFormat(template[2..], args))
    else if template[1] != 's' then Failure(UnsupportedFormat)
    else if args == [] then Failure(NotEnoughArguments)
    else Prepend(args[0], PercentFormat(template[2..], args[1..]))
  }

  /** Text without `%` is copied through unchanged. */
  lemma {:induction false} PercentFormatPlain(text: string, rest: string, args: seq<string>)
    requires '%' !in text
    ensures PercentFormat(text + rest, args) == Prepend(text, PercentFormat(rest, args))
    decreases |text|
  {
    if text != [] {
      assert (text + rest)[0] == text[0];
      assert (text + rest)[1..] == text[1..] + rest;
      PercentFormatPlain(text[1..], rest, args);
      assert [text[0]] + text[1..] == text;
      match PercentFormat(rest, args)
      case Success(v) => assert [text[0]] + (text[1..] + v) == text + v;
      case Failure(_) =>
    } else {
      assert text + rest == rest;
      match PercentFormat(rest, args)
      case Success(v) => assert text + v == v;
      case Failure(_) =>
    }
  }

  /** A lone `%s` takes the first argument; the rest must be used up. */
  lemma PercentFormatSpec(arg: string, rest: seq<string>)
    ensures PercentFormat("%s", [arg] + rest) ==
      if rest == [] then Success(arg) else Failure(NotAllArgumentsConverted)
  {
    var t := "%s";
    assert t[0] == '%' && t[1] == 's' && |t| == 2 && t[2..] == [];
    assert ([arg] + rest)[1..] == rest;
    assert arg + [] == arg;
  }

  /** The message of the duplicate-key assertion in `load_elmap`. */
  const DuplicateTemplate: string := "duplicate combination %s"

  /**
   * As written, the message is formatted with the key itself, a pair of
   * names, so `%` sees two arguments for one `%s`: for every key the
   * message cannot be built and a `TypeError` replaces the intended
   * `AssertionError`.
   */
  lemma DuplicateMessageAsWritten(key: Pair)
    ensures PercentFormat(DuplicateTemplate, [key.0, key.1]) == Failure(NotAllArgumentsConverted)
  {
    assert DuplicateTemplate == "duplicate combination " + "%s";
    PercentFormatPlain("duplicate combination ", "%s", [key.0, key.1]);
    PercentFormatSpec(key.0, [key.1]);
  }

  /**
   * With the key wrapped as the single argument, the message names it:
   * the failure `DuplicateCombination(key)` that `Load` reports.
   */
  lemma DuplicateMessageCorrected(shown: string)
    ensures PercentFormat(DuplicateTemplate, [shown]) == Success("duplicate combination " + shown)
  {
    assert DuplicateTemplate == "duplicate combination " + "%s";
    PercentFormatPlain("duplicate combination ", "%s", [shown]);
    PercentFormatSpec(shown, []);
    assert shown + [] == shown;
  }
}
