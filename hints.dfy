/**
 * The value side of the hint panel of alcangame.py: the ordered map
 * `visible_hints` (as the sequence of its hints, oldest first), the usage
 * counter `hints_stats` (a `defaultdict` of numbers) and the candidate list
 * of `rotate_hint`, sorted stably by usage.
 */
module Hints {
  import opened Wrappers
  import opened Names

  /** A hint on the panel: `a + b` gives `c`. */
  datatype Hint = Hint(a: string, b: string, c: string)

  /** The key of a hint in `visible_hints` and in `hints_stats`. */
  function Key(h: Hint): Pair
  {
    (h.a, h.b)
  }

  /** The keys of the hints, in order. */
  function Keys(hs: seq<Hint>): (ks: seq<Pair>)
    ensures |ks| == |hs| && forall i :: 0 <= i < |hs| ==> ks[i] == Key(hs[i])
  {
    seq(|hs|, i requires 0 <= i < |hs| => Key(hs[i]))
  }

  /** No key occurs twice: `visible_hints` is a dictionary. */
  predicate UniqueKeys(hs: seq<Hint>)
  {
    forall i, j :: 0 <= i < j < |hs| ==> Key(hs[i]) != Key(hs[j])
  }

  /**
   * Insert `h` as the newest entry of the panel, then evict the oldest
   * entry (`popitem(0)`) when the panel holds more than `maxHints`.
   */
  function Publish(visible: seq<Hint>, h: Hint, maxHints: nat): (r: seq<Hint>)
    ensures |visible| < maxHints ==> r == visible + [h]
    ensures 1 <= maxHints <= |visible| ==> r == visible[1..] + [h]
    ensures |visible| <= maxHints ==> |r| <= maxHints
  {
    var grown := visible + [h];
    if |grown| > maxHints then grown[1..] else grown
  }

  /**
   * With room for one hint or more, the hint just published is the newest
   * entry and is never the one evicted.
   */
  lemma PublishKeepsNewest(visible: seq<Hint>, h: Hint, maxHints: nat)
    requires maxHints >= 1
    ensures var r := Publish(visible, h, maxHints);
      0 < |r| <= |visible| + 1 && r[|r| - 1] == h && r[..|r| - 1] == visible[|visible| - (|r| - 1)..]
  {
    var r := Publish(visible, h, maxHints);
    if |visible| < maxHints {
      assert r[..|r| - 1] == visible;
    } else {
      assert r[..|r| - 1] == visible[1..];
    }
  }

  /** Publishing a hint whose key is not shown keeps the keys unique. */
  lemma PublishUniqueKeys(visible: seq<Hint>, h: Hint, maxHints: nat)
    requires UniqueKeys(visible) && Key(h) !in Keys(visible)
    ensures UniqueKeys(Publish(visible, h, maxHints))
  {
    var grown := visible + [h];
    assert UniqueKeys(grown) by {
      forall i, j | 0 <= i < j < |grown| ensures Key(grown[i]) != Key(grown[j]) {
        if j == |visible| {
          assert Keys(visible)[i] == Key(grown[i]);
        }
      }
    }
  }

  /** `hints_stats[k]` on the `defaultdict`: a missing key reads as 0. */
  function Usage(stats: map<Pair, nat>, k: Pair): nat
  {
    if k in stats then stats[k] else 0
  }

  /**
   * Reading `hints_stats[k]` for every candidate, as the sort key does:
   * each missing key is stored with 0 (see `TouchKeepsUsage`).
   */
  function Touch(stats: map<Pair, nat>, cs: seq<Hint>): map<Pair, nat>
    decreases |cs|
  {
    if cs == [] then stats
    else
      var rest := Touch(stats, cs[1..]);
      if Key(cs[0]) in rest then rest else rest[Key(cs[0]) := 0]
  }

  /**
   * Reading through the `defaultdict` adds exactly the candidates' keys,
   * each with 0, and changes no count.
   */
  lemma {:induction false} TouchKeepsUsage(stats: map<Pair, nat>, cs: seq<Hint>)
    ensures forall k :: Usage(Touch(stats, cs), k) == Usage(stats, k)
    ensures forall k :: k in Touch(stats, cs) <==> k in stats || k in Keys(cs)
    decreases |cs|
  {
    if cs != [] {
      TouchKeepsUsage(stats, cs[1..]);
      assert Keys(cs) == [Key(cs[0])] + Keys(cs[1..]);
    }
  }

  /**
   * The candidates of `rotate_hint`: `Hint(a, b, elmap[a, b])` for each
   * pair of `hints_to_show`, in order; the lookup of the first pair that
   * is not a key of the table raises `KeyError`, reported here as that
   * pair.
   */
  function Candidates(table: map<Pair, string>, pairs: seq<Pair>): (r: Result<seq<Hint>, Pair>)
    ensures r.Success? <==> forall i :: 0 <= i < |pairs| ==> pairs[i] in table
    ensures r.Success? ==>
      && |r.value| == |pairs|
      && forall i :: 0 <= i < |pairs| ==> r.value[i] == Hint(pairs[i].0, pairs[i].1, table[pairs[i]])
    ensures r.Failure? ==>
      exists i ::
        && 0 <= i < |pairs| && pairs[i] == r.error && pairs[i] !in table
        && forall j :: 0 <= j < i ==> pairs[j] in table
    decreases |pairs|
  {
    if pairs == [] then Success([])
    else if pairs[0] !in table then Failure(pairs[0])
    else
      match Candidates(table, pairs[1..])
      case Failure(k) =>
        var i :| 0 <= i < |pairs[1..]| && pairs[1..][i] == k && pairs[1..][i] !in table &&
          forall j :: 0 <= j < i ==> pairs[1..][j] in table;
        assert pairs[i + 1] == k && forall j :: 0 < j < i + 1 ==> pairs[j] == pairs[1..][j - 1];
        Failure(k)
      case Success(rest) =>
        assert forall i :: 0 < i < |pairs| ==> pairs[i] == pairs[1..][i - 1];
        Success([Hint(pairs[0].0, pairs[0].1, table[pairs[0]])] + rest)
  }

  /** Every candidate in `s` has usage at most that of the candidates after it. */
  predicate SortedByUsage(stats: map<Pair, nat>, s: seq<Hint>)
  {
    forall i, j :: 0 <= i < j < |s| ==> Usage(stats, Key(s[i])) <= Usage(stats, Key(s[j]))
  }

  /** The candidates of `s` with usage `u`, in order. */
  function WithUsage(stats: map<Pair, nat>, s: seq<Hint>, u: nat): seq<Hint>
    decreases |s|
  {
    if s == [] then []
    else (if Usage(stats, Key(s[0])) == u then [s[0]] else []) + WithUsage(stats, s[1..], u)
  }

  /** Put `h` before the first candidate of `s` used as often as `h` or more. */
  function InsertByUsage(stats: map<Pair, nat>, h: Hint, s: seq<Hint>): (r: seq<Hint>)
    ensures |r| == |s| + 1
    decreases |s|
  {
    if s == [] || Usage(stats, Key(h)) <= Usage(stats, Key(s[0])) then [h] + s
    else [s[0]] + InsertByUsage(stats, h, s[1..])
  }

  /** `list.sort(key=usage)`, a stable sort. */
  function SortByUsage(stats: map<Pair, nat>, s: seq<Hint>): (r: seq<Hint>)
    ensures |r| == |s|
    decreases |s|
  {
    if s == [] then [] else InsertByUsage(stats, s[0], SortByUsage(stats, s[1..]))
  }

  /** Inserting adds `h` and nothing else. */
  lemma {:induction false} InsertPermutes(stats: map<Pair, nat>, h: Hint, s: seq<Hint>)
    ensures multiset(InsertByUsage(stats, h, s)) == multiset(s) + multiset{h}
    decreases |s|
  {
    if s != [] && Usage(stats, Key(h)) > Usage(stats, Key(s[0])) {
      InsertPermutes(stats, h, s[1..]);
      assert s == [s[0]] + s[1..];
    }
  }

  /** Every candidate of `s` is used `u` times or more. */
  predicate UsedAtLeast(stats: map<Pair, nat>, u: nat, s: seq<Hint>)
  {
    forall i :: 0 <= i < |s| ==> u <= Usage(stats, Key(s[i]))
  }

  /** A lower bound of `s` and of `h` bounds the insertion of `h` into `s`. */
  lemma {:induction false} InsertUsedAtLeast(stats: map<Pair, nat>, u: nat, h: Hint, s: seq<Hint>)
    requires UsedAtLeast(stats, u, s) && u <= Usage(stats, Key(h))
    ensures UsedAtLeast(stats, u, InsertByUsage(stats, h, s))
    decreases |s|
  {
    var r := InsertByUsage(stats, h, s);
    if s == [] || Usage(stats, Key(h)) <= Usage(stats, Key(s[0])) {
      assert forall i :: 0 < i < |r| ==> r[i] == s[i - 1];
    } else {
      InsertUsedAtLeast(stats, u, h, s[1..]);
      assert forall i :: 0 < i < |r| ==> r[i] == InsertByUsage(stats, h, s[1..])[i - 1];
    }
  }

  /** A candidate used no more than a sorted sequence, put in front of it. */
  lemma ConsSorted(stats: map<Pair, nat>, x: Hint, s: seq<Hint>)
    requires SortedByUsage(stats, s) && UsedAtLeast(stats, Usage(stats, Key(x)), s)
    ensures SortedByUsage(stats, [x] + s)
  {
    var r := [x] + s;
    forall i, j | 0 <= i < j < |r| ensures Usage(stats, Key(r[i])) <= Usage(stats, Key(r[j])) {
      assert r[j] == s[j - 1];
      if i > 0 {
        assert r[i] == s[i - 1];
      }
    }
  }

  /** Inserting into a sorted sequence keeps it sorted. */
  lemma {:induction false} InsertSorted(stats: map<Pair, nat>, h: Hint, s: seq<Hint>)
    requires SortedByUsage(stats, s)
    ensures SortedByUsage(stats, InsertByUsage(stats, h, s))
    decreases |s|
  {
    if s == [] || Usage(stats, Key(h)) <= Usage(stats, Key(s[0])) {
      ConsSorted(stats, h, s);
    } else {
      assert SortedByUsage(stats, s[1..]) by {
        assert forall i :: 0 <= i < |s[1..]| ==> s[1..][i] == s[i + 1];
      }
      assert UsedAtLeast(stats, Usage(stats, Key(s[0])), s[1..]) by {
        assert forall i :: 0 <= i < |s[1..]| ==> s[1..][i] == s[i + 1];
      }
      InsertSorted(stats, h, s[1..]);
      InsertUsedAtLeast(stats, Usage(stats, Key(s[0])), h, s[1..]);
      ConsSorted(stats, s[0], InsertByUsage(stats, h, s[1..]));
    }
  }

  /** Inserting puts `h` ahead of the candidates of `s` with the same usage. */
  lemma {:induction false} InsertStable(stats: map<Pair, nat>, h: Hint, s: seq<Hint>, u: nat)
    ensures WithUsage(stats, InsertByUsage(stats, h, s), u) ==
      (if Usage(stats, Key(h)) == u then [h] else []) + WithUsage(stats, s, u)
    decreases |s|
  {
    var r := InsertByUsage(stats, h, s);
    if s == [] || Usage(stats, Key(h)) <= Usage(stats, Key(s[0])) {
      assert r[1..] == s;
    } else {
      InsertStable(stats, h, s[1..], u);
      assert r[1..] == InsertByUsage(stats, h, s[1..]);
    }
  }

  /** Sorting permutes the candidates. */
  lemma {:induction false} SortPermutes(stats: map<Pair, nat>, s: seq<Hint>)
    ensures multiset(SortByUsage(stats, s)) == multiset(s)
    decreases |s|
  {
    if s != [] {
      SortPermutes(stats, s[1..]);
      InsertPermutes(stats, s[0], SortByUsage(stats, s[1..]));
      assert s == [s[0]] + s[1..];
    }
  }

  /** Sorting orders the candidates by usage. */
  lemma {:induction false} SortSorted(stats: map<Pair, nat>, s: seq<Hint>)
    ensures SortedByUsage(stats, SortByUsage(stats, s))
    decreases |s|
  {
    if s != [] {
      SortSorted(stats, s[1..]);
      InsertSorted(stats, s[0], SortByUsage(stats, s[1..]));
    }
  }

  /** Sorting keeps the candidates of equal usage in their order. */
  lemma {:induction false} SortStable(stats: map<Pair, nat>, s: seq<Hint>, u: nat)
    ensures WithUsage(stats, SortByUsage(stats, s), u) == WithUsage(stats, s, u)
    decreases |s|
  {
    if s != [] {
      SortStable(stats, s[1..], u);
      InsertStable(stats, s[0], SortByUsage(stats, s[1..]), u);
    }
  }

  /**
   * The position of the first candidate whose key is not visible, if any:
   * the one `rotate_hint` publishes.
   */
  function FirstHidden(cs: seq<Hint>, visible: seq<Hint>): (r: Option<nat>)
    ensures r.Some? ==>
      && r.value < |cs| && Key(cs[r.value]) !in Keys(visible)
      && forall j :: 0 <= j < r.value ==> Key(cs[j]) in Keys(visible)
    ensures r.None? <==> forall j :: 0 <= j < |cs| ==> Key(cs[j]) in Keys(visible)
    decreases |cs|
  {
    if cs == [] then None
    else if Key(cs[0]) !in Keys(visible) then Some(0)
    else match FirstHidden(cs[1..], visible)
      case None => None
      case Some(i) => Some(i + 1)
  }
}
