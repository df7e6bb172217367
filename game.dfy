/**
 * The session bookkeeping of `AlcanGame` (alcangame.py): the hint panel,
 * the once-only end of the game, the deferred add/remove queues drained by
 * `update`, the drop trigger and the collision handlers' bookkeeping.
 * Widgets are objects; `children` lists the widgets added to the game, in
 * the order of the `add_widget` calls.
 */
module Game {
  import opened Wrappers
  import opened Names
  import opened Recipes
  import opened Elements
  import opened Hints

  /** The widgets the game puts on screen besides elements. */
  datatype WidgetKind = GameOverBanner | SuccessBanner | PointsBalloon(points: nat) | Explosion

  /** A widget other than an element. */
  class Widget {
    const kind: WidgetKind

    constructor (kind: WidgetKind)
      ensures this.kind == kind
    {
      this.kind := kind;
    }
  }

  /** What `schedule_add_widget(oclass, *oargs, **okwargs)` queues: a class and its arguments. */
  datatype Construction = MakeElement(elname: string, activate: bool) | MakeWidget(kind: WidgetKind)

  /**
   * `o` is what `c` constructs: an element of that name, not active yet and
   * with its activation scheduled iff `activate`, or a widget of that kind.
   */
  predicate Made(o: object, c: Construction)
    reads o
  {
    match c
    case MakeElement(n, activate) =>
      o is Element && (o as Element).elname == n
      && !(o as Element).activated && (o as Element).activationScheduled == activate
    case MakeWidget(k) => o is Widget && (o as Widget).kind == k
  }

  /** `ocl(*oa, **okw)`: a new object built from a queued construction. */
  method Construct(c: Construction) returns (o: object)
    ensures fresh(o) && Made(o, c)
  {
    match c
    case MakeElement(n, activate) =>
      var e := new Element(n, activate);
      o := e;
    case MakeWidget(k) =>
      var w := new Widget(k);
      o := w;
  }

  /** `s` without the objects of `q`, in order. */
  function Without(s: seq<object>, q: set<object>): (r: seq<object>)
    ensures |r| <= |s|
    ensures |r| == |s| <==> forall i :: 0 <= i < |s| ==> s[i] !in q
    decreases |s|
  {
    if s == [] then []
    else (if s[0] in q then [] else [s[0]]) + Without(s[1..], q)
  }

  /** What is left is what `s` holds outside `q`, and nothing else. */
  lemma {:induction false} WithoutMembers(s: seq<object>, q: set<object>)
    ensures var r := Without(s, q);
      && (forall i :: 0 <= i < |r| ==> r[i] in s && r[i] !in q)
      && (forall i :: 0 <= i < |s| && s[i] !in q ==> s[i] in r)
      && |r| <= |s|
    decreases |s|
  {
    if s != [] {
      WithoutMembers(s[1..], q);
      var h: seq<object> := if s[0] in q then [] else [s[0]];
      var w := Without(s[1..], q);
      assert Without(s, q) == h + w;
      forall i | 0 <= i < |s| && s[i] !in q ensures s[i] in h + w {
        if i > 0 {
          assert s[i] == s[1..][i - 1];
        }
      }
    }
  }

  /** Removing the objects of `a` and then `o` removes those of `a + {o}`. */
  lemma {:induction false} WithoutMore(s: seq<object>, a: set<object>, o: object)
    ensures Without(Without(s, a), {o}) == Without(s, a + {o})
    decreases |s|
  {
    if s != [] {
      WithoutMore(s[1..], a, o);
      var w := Without(s, a);
      if s[0] in a {
        assert w == Without(s[1..], a);
      } else {
        assert w == [s[0]] + Without(s[1..], a);
        assert w[1..] == Without(s[1..], a);
      }
    }
  }

  /** Nothing queued is left once the queued objects are removed and others added. */
  lemma NoneQueued(w: seq<object>, d: seq<object>, b: seq<object>, q: set<object>)
    requires forall i :: 0 <= i < |w| ==> w[i] !in q
    requires forall i :: 0 <= i < |d| ==> d[i] !in q
    requires forall i :: 0 <= i < |b| ==> b[i] !in q
    ensures forall i :: 0 <= i < |w + d + b| ==> (w + d + b)[i] !in q
  {
  }

  /** One pass of the removal loop: `o` leaves the pending objects. */
  lemma WithoutStep(s: seq<object>, queued: set<object>, pending: set<object>, o: object)
    requires o in pending && pending <= queued
    ensures Without(Without(s, queued - pending), {o}) == Without(s, queued - (pending - {o}))
  {
    WithoutMore(s, queued - pending, o);
    assert (queued - pending) + {o} == queued - (pending - {o});
  }

  /** Removing objects of `q` from `s + t`, where `t` has none of them. */
  lemma {:induction false} WithoutAppend(s: seq<object>, t: seq<object>, q: set<object>)
    requires forall i :: 0 <= i < |t| ==> t[i] !in q
    ensures Without(s + t, q) == Without(s, q) + t
    decreases |s|
  {
    if s == [] {
      assert s + t == t;
      WithoutNone(t, q);
    } else {
      WithoutAppend(s[1..], t, q);
      var h: seq<object> := if s[0] in q then [] else [s[0]];
      var w := Without(s[1..], q);
      assert (s + t)[0] == s[0] && (s + t)[1..] == s[1..] + t;
      assert Without(s + t, q) == h + (w + t);
      assert h + (w + t) == (h + w) + t;
    }
  }

  lemma {:induction false} WithoutNone(t: seq<object>, q: set<object>)
    requires forall i :: 0 <= i < |t| ==> t[i] !in q
    ensures Without(t, q) == t
    decreases |t|
  {
    if t != [] {
      WithoutNone(t[1..], q);
      assert t == [t[0]] + t[1..];
    }
  }

  /** `list.index(x)`: the position of the first occurrence of `x`. */
  function IndexOf(s: seq<Element>, x: Element): (i: nat)
    requires x in s
    ensures i < |s| && s[i] == x && x !in s[..i]
    decreases |s|
  {
    if s[0] == x then 0
    else
      var i := IndexOf(s[1..], x);
      assert s[..i + 1] == [s[0]] + s[1..][..i];
      i + 1
  }

  /** How many elements of the zone are not activated. */
  function CountInactive(zone: seq<Element>): (n: nat)
    reads zone
    ensures n <= |zone|
    ensures n == 0 <==> forall i :: 0 <= i < |zone| ==> zone[i].activated
    decreases |zone|
  {
    if zone == [] then 0
    else
      var rest := CountInactive(zone[1..]);
      assert forall i :: 0 < i < |zone| ==> zone[i] == zone[1..][i - 1];
      (if zone[0].activated then 0 else 1) + rest
  }

  /** How many elements `update` drops with `n` inactive elements in the zone. */
  function Drops(skipDrop: bool, n: nat, minInZone: nat, maxInZone: nat, luckyDrop: bool): (r: nat)
    ensures r <= 2
    ensures r == 0 <==> skipDrop || (minInZone <= n && !(luckyDrop && n < maxInZone))
    ensures r == 2 <==> !skipDrop && n < minInZone && luckyDrop && n < maxInZone
  {
    if skipDrop then 0
    else (if n < minInZone then 1 else 0) + (if luckyDrop && n < maxInZone then 1 else 0)
  }

  class AlcanGame {
    /** `defs.max_hints`. */
    const maxHints: nat
    /** `defs.num_elements_in_zone`. */
    const minInZone: nat
    const maxInZone: nat

    var children: seq<object>
    var zone: seq<Element>
    /** `oo_to.remove` */
    var removeQueue: set<object>
    /** `oo_to.add` */
    var addQueue: seq<Construction>
    var gameIsOver: bool
    var visibleHints: seq<Hint>
    var hintsStats: map<Pair, nat>
    var hintsToShow: seq<Pair>
    var bfs: nat
    var points: nat
    var skipDrop: bool

    /** The panel never holds more than `maxHints` hints, one per key. */
    ghost predicate Valid()
      reads this
    {
      maxHints >= 1 && |visibleHints| <= maxHints && UniqueKeys(visibleHints)
    }

    /**
     * `__init__`: empty queues, zone and panel, the game running, and then
     * `set_bfs` with `steps` standing for `Element.steps_to_reach()`.
     */
    constructor (maxHints: nat, minInZone: nat, maxInZone: nat, steps: seq<Pair>)
      requires maxHints >= 1
      ensures Valid()
      ensures this.maxHints == maxHints && this.minInZone == minInZone && this.maxInZone == maxInZone
      ensures children == [] && zone == [] && removeQueue == {} && addQueue == []
      ensures !gameIsOver && visibleHints == [] && hintsStats == map[] && points == 0 && !skipDrop
      ensures hintsToShow == steps && bfs == |steps|
    {
      this.maxHints := maxHints;
      this.minInZone := minInZone;
      this.maxInZone := maxInZone;
      children := [];
      zone := [];
      removeQueue := {};
      addQueue := [];
      gameIsOver := false;
      visibleHints := [];
      hintsStats := map[];
      points := 0;
      skipDrop := false;
      new;
      SetBfs(steps);
    }

    /** `set_bfs`: the hints to show and their number. */
    method SetBfs(steps: seq<Pair>)
      modifies this`hintsToShow, this`bfs
      ensures hintsToShow == steps && bfs == |steps|
    {
      hintsToShow := steps;
      bfs := |hintsToShow|;
    }

    /**
     * `gameover`: the first call ends the game and shows the banner; later
     * calls change nothing.
     */
    method Gameover()
      modifies this`gameIsOver, this`children
      ensures gameIsOver
      ensures old(gameIsOver) ==> children == old(children)
      ensures !old(gameIsOver) ==>
        && |children| == |old(children)| + 1 && children[..|old(children)|] == old(children)
        && fresh(children[|old(children)|]) && Made(children[|old(children)|], MakeWidget(GameOverBanner))
    {
      if gameIsOver {
        return;
      }
      gameIsOver := true;
      var banner := new Widget(GameOverBanner);
      children := children + [banner];
    }

    /**
     * `reached_elname`: reaching "dragon" shows the success banner and ends
     * the game, whether or not it was over; any other name changes nothing.
     */
    method ReachedElname(elname: string)
      modifies this`gameIsOver, this`children
      ensures elname != "dragon" ==> gameIsOver == old(gameIsOver) && children == old(children)
      ensures elname == "dragon" ==>
        && gameIsOver
        && |children| == |old(children)| + 1 && children[..|old(children)|] == old(children)
        && fresh(children[|old(children)|]) && Made(children[|old(children)|], MakeWidget(SuccessBanner))
    {
      if elname == "dragon" {
        var banner := new Widget(SuccessBanner);
        children := children + [banner];
        gameIsOver := true;
      }
    }

    /** `schedule_add_widget`: queue a construction for the next `update`. */
    method ScheduleAddWidget(c: Construction)
      modifies this`addQueue
      ensures addQueue == old(addQueue) + [c]
    {
      addQueue := addQueue + [c];
    }

    /**
     * `remove_obj(obj)` with `just_schedule`: queue the object for removal.
     * The queue is a set, so queueing an object twice queues it once.
     */
    method RemoveObj(obj: object)
      modifies this`removeQueue
      ensures removeQueue == old(removeQueue) + {obj}
    {
      removeQueue := removeQueue + {obj};
    }

    /**
     * `set_hint(a, b, c)`: a hint already shown changes nothing; otherwise
     * its use is counted and it is shown as the newest hint, the oldest one
     * going when the panel overflows.
     */
    method SetHint(a: string, b: string, c: string) returns (added: bool)
      requires Valid()
      modifies this`visibleHints, this`hintsStats
      ensures Valid()
      ensures added <==> (a, b) !in Keys(old(visibleHints))
      ensures !added ==> visibleHints == old(visibleHints) && hintsStats == old(hintsStats)
      ensures added ==> visibleHints == Publish(old(visibleHints), Hint(a, b, c), maxHints)
      ensures added ==> hintsStats == old(hintsStats)[(a, b) := Usage(old(hintsStats), (a, b)) + 1]
    {
      if (a, b) in Keys(visibleHints) {
        return false;
      }
      PublishUniqueKeys(visibleHints, Hint(a, b, c), maxHints);
      visibleHints := visibleHints + [Hint(a, b, c)];
      hintsStats := hintsStats[(a, b) := Usage(hintsStats, (a, b)) + 1];
      if |visibleHints| > maxHints {
        visibleHints := visibleHints[1..];
      }
      added := true;
    }

    /**
     * `rotate_hint` with the loaded recipe table: builds the candidates of
     * `hints_to_show` (a pair missing from the table raises `KeyError`,
     * reported as `Failure` with that pair, before anything changes), reads
     * their usage, sorts them stably by it and publishes the first one not
     * shown yet, if any.
     */
    method RotateHint(table: Table) returns (r: Result<Option<Hint>, Pair>)
      requires Valid()
      modifies this`visibleHints, this`hintsStats
      ensures Valid()
      ensures Candidates(table, hintsToShow).Failure? ==>
        && r == Failure(Candidates(table, hintsToShow).error)
        && visibleHints == old(visibleHints) && hintsStats == old(hintsStats)
      ensures Candidates(table, hintsToShow).Success? ==>
        var cs := Candidates(table, hintsToShow).value;
        var stats := Touch(old(hintsStats), cs);
        var sorted := SortByUsage(stats, cs);
        var first := FirstHidden(sorted, old(visibleHints));
        && (first.None? ==> r == Success(None) && visibleHints == old(visibleHints) && hintsStats == stats)
        && (first.Some? ==>
          && r == Success(Some(sorted[first.value]))
          && visibleHints == Publish(old(visibleHints), sorted[first.value], maxHints)
          && hintsStats == stats[Key(sorted[first.value]) := Usage(stats, Key(sorted[first.value])) + 1])
    {
      var built := BuildCandidates(table);
      if built.Failure? {
        return Failure(built.error);
      }
      var shown := ShowLeastUsed(built.value);
      r := Success(shown);
    }

    /**
     * The second half of `rotate_hint`: reads the usage of the candidates
     * `cs`, sorts them stably by it and publishes the first one not shown
     * yet, if any.
     */
    method ShowLeastUsed(cs: seq<Hint>) returns (shown: Option<Hint>)
      requires Valid()
      modifies this`visibleHints, this`hintsStats
      ensures Valid()
      ensures
        var stats := Touch(old(hintsStats), cs);
        var sorted := SortByUsage(stats, cs);
        var first := FirstHidden(sorted, old(visibleHints));
        && (first.None? ==> shown == None && visibleHints == old(visibleHints) && hintsStats == stats)
        && (first.Some? ==>
          && shown == Some(sorted[first.value])
          && visibleHints == Publish(old(visibleHints), sorted[first.value], maxHints)
          && hintsStats == stats[Key(sorted[first.value]) := Usage(stats, Key(sorted[first.value])) + 1])
    {
      hintsStats := Touch(hintsStats, cs);
      var sorted := SortByUsage(hintsStats, cs);
      shown := ShowFirstHidden(sorted);
    }

    /**
     * The first loop of `rotate_hint`: `(a, b, elmap[a, b])` for each pair
     * of `hints_to_show`, stopping at the first `KeyError`.
     */
    method BuildCandidates(table: Table) returns (r: Result<seq<Hint>, Pair>)
      ensures r == Candidates(table, hintsToShow)
    {
      var cands: seq<Hint> := [];
      var i := 0;
      while i < |hintsToShow|
        invariant 0 <= i <= |hintsToShow| && |cands| == i
        invariant forall j :: 0 <= j < i ==> hintsToShow[j] in table
        invariant forall j :: 0 <= j < i ==> cands[j] == Hint(hintsToShow[j].0, hintsToShow[j].1, table[hintsToShow[j]])
      {
        var key := hintsToShow[i];
        if key !in table {
          CandidatesFailAt(table, hintsToShow, i);
          return Failure(key);
        }
        cands := cands + [Hint(key.0, key.1, table[key])];
        i := i + 1;
      }
      CandidatesAll(table, hintsToShow, cands);
      r := Success(cands);
    }

    /**
     * The second loop of `rotate_hint`: `set_hint` on each sorted candidate
     * until one is published; it is the first one not shown.
     */
    method ShowFirstHidden(sorted: seq<Hint>) returns (shown: Option<Hint>)
      requires Valid()
      modifies this`visibleHints, this`hintsStats
      ensures Valid()
      ensures FirstHidden(sorted, old(visibleHints)).None? ==>
        shown == None && visibleHints == old(visibleHints) && hintsStats == old(hintsStats)
      ensures FirstHidden(sorted, old(visibleHints)).Some? ==>
        var h := sorted[FirstHidden(sorted, old(visibleHints)).value];
        && shown == Some(h)
        && visibleHints == Publish(old(visibleHints), h, maxHints)
        && hintsStats == old(hintsStats)[Key(h) := Usage(old(hintsStats), Key(h)) + 1]
    {
      var j := 0;
      while j < |sorted|
        invariant 0 <= j <= |sorted|
        invariant Valid() && visibleHints == old(visibleHints) && hintsStats == old(hintsStats)
        invariant forall l :: 0 <= l < j ==> Key(sorted[l]) in Keys(visibleHints)
      {
        var h := sorted[j];
        ghost var before := visibleHints;
        var added := SetHint(h.a, h.b, h.c);
        if added {
          FirstHiddenAt(sorted, before, j);
          return Some(h);
        }
        j := j + 1;
      }
      shown := None;
    }

    /**
     * `element_vs_bottom` for the element `e`: an activated element ends
     * the game; `e` is queued for removal and taken out of the zone, where
     * an element missing from the zone raises `ValueError` (`ok` false)
     * after the rest has happened.
     */
    method ElementVsBottom(e: Element) returns (ok: bool)
      modifies this`gameIsOver, this`children, this`removeQueue, this`zone
      ensures gameIsOver == (old(gameIsOver) || e.activated)
      ensures !(e.activated && !old(gameIsOver)) ==> children == old(children)
      ensures e.activated && !old(gameIsOver) ==>
        && |children| == |old(children)| + 1 && children[..|old(children)|] == old(children)
        && fresh(children[|old(children)|]) && Made(children[|old(children)|], MakeWidget(GameOverBanner))
      ensures removeQueue == old(removeQueue) + {e}
      ensures ok <==> e in old(zone)
      ensures !ok ==> zone == old(zone)
      ensures ok ==> var i := IndexOf(old(zone), e); zone == old(zone)[..i] + old(zone)[i + 1..]
    {
      if e.activated {
        Gameover();
      }
      RemoveObj(e);
      if e !in zone {
        return false;
      }
      var i := IndexOf(zone, e);
      zone := zone[..i] + zone[i + 1..];
      ok := true;
    }

    /**
     * `element_vs_element` for `e1` hitting `e2`, with the loaded recipe
     * table: `collide_with_another` decides (its parent is this game when
     * `e1` is one of its children); on a reaction `e2` is queued for
     * removal, and the reaction is returned for the replacement of `e1`.
     * When the collision returns `True` the player earns a point and a
     * points balloon is shown.
     */
    method ElementVsElement(reg: Registry, e1: Element, e2: Element, table: Table, explodeWhenNoComb: bool)
      returns (reaction: Reaction)
      requires reg.Valid()
      modifies reg, this`points, this`children, this`removeQueue
      ensures reg.Valid() && old(reg.available) <= reg.available
      ensures reg.shownBaloons == old(reg.shownBaloons) && reg.balloons == old(reg.balloons)
      ensures !(e1.activated && e2.activated) ==>
        && reaction == NoReaction && points == old(points) + 1
        && removeQueue == old(removeQueue) && reg.available == old(reg.available)
      ensures e1.activated && e2.activated && e1 !in old(children) ==>
        && reaction == NoReaction && points == old(points) && children == old(children)
        && removeQueue == old(removeQueue) && reg.available == old(reg.available)
      ensures e1.activated && e2.activated && e1 in old(children) && Combine(table, e1.elname, e2.elname).None? ==>
        && reaction == (if explodeWhenNoComb then Explode else NoReaction) && points == old(points) + 1
        && removeQueue == old(removeQueue) + (if explodeWhenNoComb then {e2} else {})
        && reg.available == old(reg.available)
      ensures e1.activated && e2.activated && e1 in old(children) && Combine(table, e1.elname, e2.elname).Some? ==>
        && reaction == Transmute(Combine(table, e1.elname, e2.elname).value) && points == old(points)
        && children == old(children) && removeQueue == old(removeQueue) + {e2}
        && reg.available == old(reg.available) + {Combine(table, e1.elname, e2.elname).value}
      ensures points == old(points) + 1 ==>
        && |children| == |old(children)| + 1 && children[..|old(children)|] == old(children)
        && fresh(children[|old(children)|]) && Made(children[|old(children)|], MakeWidget(PointsBalloon(1)))
    {
      var retpoints;
      retpoints, reaction := e1.CollideWithAnother(reg, e2, table, e1 in children, explodeWhenNoComb);
      if reaction != NoReaction {
        RemoveObj(e2);
      }
      if retpoints {
        var balloon := new Widget(PointsBalloon(1));
        children := children + [balloon];
        points := points + 1;
      }
    }

    /**
     * `drop_element`: unless drops are blocked, a new element named by
     * `Element.random` is added to the game; `random` passes no `activate`,
     * so the element is neither active nor scheduled to become active.
     */
    method DropElement(reg: Registry) returns (dropped: Option<Element>)
      requires reg.Valid()
      modifies this`children
      ensures skipDrop ==> dropped == None && children == old(children)
      ensures !skipDrop ==>
        && dropped.Some? && fresh(dropped.value)
        && dropped.value.elname in reg.available
        && !dropped.value.activated && !dropped.value.activationScheduled
        && children == old(children) + [dropped.value]
    {
      if skipDrop {
        return None;
      }
      var name := reg.RandomName();
      var element := new Element(name, false);
      children := children + [element];
      dropped := Some(element);
    }

    /**
     * The bookkeeping of `update`: with `n` the number of elements of the
     * zone not activated, drop an element when `n` is below the minimum,
     * and again when `luckyDrop` (the random draw under `drop_chance`)
     * holds and `n` is below the maximum; then remove every queued object
     * from the children and add an object built from each queued
     * construction, in order; both queues end empty.
     */
    method Update(reg: Registry, luckyDrop: bool) returns (ghost dropped: seq<Element>, ghost built: seq<object>)
      requires reg.Valid()
      modifies this`children, this`removeQueue, this`addQueue
      ensures removeQueue == {} && addQueue == []
      ensures |dropped| == Drops(skipDrop, old(CountInactive(zone)), minInZone, maxInZone, luckyDrop)
      ensures forall i :: 0 <= i < |dropped| ==>
        fresh(dropped[i]) && dropped[i].elname in reg.available
        && !dropped[i].activated && !dropped[i].activationScheduled
      ensures |built| == |old(addQueue)|
      ensures forall i :: 0 <= i < |built| ==> fresh(built[i]) && Made(built[i], old(addQueue)[i])
      ensures children == Without(old(children), old(removeQueue)) + dropped + built
      ensures forall i :: 0 <= i < |children| ==> children[i] !in old(removeQueue)
    {
      var n := CountInactive(zone);
      ghost var queued := removeQueue;
      dropped := DropPhase(reg, n, luckyDrop);
      assert forall i :: 0 <= i < |dropped| ==> dropped[i] !in queued;
      WithoutAppend(old(children), dropped, queued);
      RemoveQueued();
      assert children == Without(old(children), queued) + dropped;
      built := AddQueued();
      assert forall i :: 0 <= i < |built| ==> built[i] !in queued;
      WithoutMembers(old(children), queued);
      NoneQueued(Without(old(children), queued), dropped, built, queued);
    }

    /** The drops of `update`, with `n` inactive elements in the zone. */
    method DropPhase(reg: Registry, n: nat, luckyDrop: bool) returns (ghost dropped: seq<Element>)
      requires reg.Valid()
      modifies this`children
      ensures |dropped| == Drops(skipDrop, n, minInZone, maxInZone, luckyDrop)
      ensures forall i :: 0 <= i < |dropped| ==>
        fresh(dropped[i]) && dropped[i].elname in reg.available
        && !dropped[i].activated && !dropped[i].activationScheduled
      ensures children == old(children) + dropped
    {
      dropped := [];
      if n < minInZone {
        var d := DropElement(reg);
        if d.Some? {
          dropped := dropped + [d.value];
        }
      }
      if luckyDrop && n < maxInZone {
        var d := DropElement(reg);
        if d.Some? {
          dropped := dropped + [d.value];
        }
      }
    }

    /**
     * The removal loop of `update`: `remove_obj(o, just_schedule=False)`
     * for every queued object, in any order, then the queue is cleared.
     */
    method RemoveQueued()
      modifies this`children, this`removeQueue
      ensures removeQueue == {}
      ensures children == Without(old(children), old(removeQueue))
    {
      ghost var queued := removeQueue;
      var pending := removeQueue;
      ghost var start := children;
      assert queued - pending == {};
      WithoutNone(start, {});
      while pending != {}
        invariant pending <= queued
        invariant children == Without(start, queued - pending)
        decreases |pending|
      {
        var o :| o in pending;
        WithoutStep(start, queued, pending, o);
        children := Without(children, {o});
        pending := pending - {o};
      }
      assert queued - pending == queued;
      removeQueue := {};
    }

    /**
     * The addition loop of `update`: each queued construction is built and
     * added, in order, then the queue is cleared.
     */
    method AddQueued() returns (ghost built: seq<object>)
      modifies this`children, this`addQueue
      ensures addQueue == []
      ensures |built| == |old(addQueue)|
      ensures forall i :: 0 <= i < |built| ==> fresh(built[i]) && Made(built[i], old(addQueue)[i])
      ensures children == old(children) + built
    {
      built := [];
      var i := 0;
      while i < |addQueue|
        invariant 0 <= i <= |addQueue| && |built| == i && addQueue == old(addQueue)
        invariant children == old(children) + built
        invariant forall j :: 0 <= j < i ==> fresh(built[j]) && Made(built[j], addQueue[j])
      {
        var o := Construct(addQueue[i]);
        children := children + [o];
        built := built + [o];
        i := i + 1;
      }
      addQueue := [];
    }
  }

  /** When the `i`-th pair is the first missing from the table, `Candidates` reports it. */
  lemma CandidatesFailAt(table: Table, pairs: seq<Pair>, i: nat)
    requires i < |pairs| && pairs[i] !in table && forall j :: 0 <= j < i ==> pairs[j] in table
    ensures Candidates(table, pairs) == Failure(pairs[i])
  {
    var r := Candidates(table, pairs);
    var k :| 0 <= k < |pairs| && pairs[k] == r.error && pairs[k] !in table &&
      forall j :: 0 <= j < k ==> pairs[j] in table;
    assert !(k < i) && !(i < k);
  }

  /** The first hidden candidate is at `j` when `j` is hidden and all before it are shown. */
  lemma FirstHiddenAt(cs: seq<Hint>, visible: seq<Hint>, j: nat)
    requires j < |cs| && Key(cs[j]) !in Keys(visible)
    requires forall l :: 0 <= l < j ==> Key(cs[l]) in Keys(visible)
    ensures FirstHidden(cs, visible) == Some(j)
  {
    var r := FirstHidden(cs, visible);
    assert r.Some?;
    assert !(r.value < j) && !(j < r.value);
  }

  /** Candidates built pair by pair are what `Candidates` gives. */
  lemma CandidatesAll(table: Table, pairs: seq<Pair>, cands: seq<Hint>)
    requires |cands| == |pairs| && forall j :: 0 <= j < |pairs| ==> pairs[j] in table
    requires forall j :: 0 <= j < |pairs| ==> cands[j] == Hint(pairs[j].0, pairs[j].1, table[pairs[j]])
    ensures Candidates(table, pairs) == Success(cands)
  {
    var r := Candidates(table, pairs);
    assert r.Success?;
    assert r.value == cands;
  }
}
