/**
 * The element side of element.py: the process-wide sets `available_elnames`
 * and `shown_baloons` (class attributes of `Element`, shared by every
 * element), an element's `activated` flag, and the decision part of
 * `collide_with_another`.
 */
module Elements {
  import opened Wrappers
  import opened Names
  import opened Recipes

  /** The names unlocked when a session starts. */
  const BaseNames: set<string> := {"water", "air", "earth", "fire"}

  /** The `shown_baloons` entry that stands for the activation balloon. */
  const ActivationKey: string := "activation"

  /** The text of the activation balloon. */
  const ActivationText: string := "activated \nready to reaction"

  /** A balloon put on screen: the `shown_baloons` entry it used up and its text. */
  datatype Balloon = Balloon(key: string, text: string)

  /** The keys of a sequence of balloons, in order. */
  function KeysOf(bs: seq<Balloon>): (ks: seq<string>)
    ensures |ks| == |bs| && forall i :: 0 <= i < |bs| ==> ks[i] == bs[i].key
  {
    seq(|bs|, i requires 0 <= i < |bs| => bs[i].key)
  }

  /**
   * What `collide_with_another` asks its parent to do: nothing, replace the
   * element by an explosion and remove the other one, or replace it by the
   * activated product and remove the other one.
   */
  datatype Reaction = NoReaction | Explode | Transmute(product: string)

  /**
   * The class attributes of `Element`.  `balloons` lists, in order, the
   * balloons shown so far, one per entry of `shown_baloons`.
   */
  class Registry {
    var available: set<string>
    var shownBaloons: set<string>
    var balloons: seq<Balloon>

    /**
     * The base names stay unlocked, and every `shown_baloons` entry stands
     * for exactly one balloon shown.
     */
    ghost predicate Valid()
      reads this
    {
      && BaseNames <= available
      && Distinct(KeysOf(balloons))
      && (forall k :: k in shownBaloons <==> k in KeysOf(balloons))
    }

    /** The class body: the four base names, no balloon shown yet. */
    constructor ()
      ensures Valid()
      ensures available == BaseNames && shownBaloons == {} && balloons == []
    {
      available := BaseNames;
      shownBaloons := {};
      balloons := [];
    }

    /**
     * Show the balloon with `text` unless the balloon for `key` was shown
     * before; `shown` is the balloon put on screen, if any.
     */
    method ShowOnce(key: string, text: string) returns (shown: Option<Balloon>)
      requires Valid()
      modifies this
      ensures Valid()
      ensures available == old(available)
      ensures shownBaloons == old(shownBaloons) + {key}
      ensures key in old(shownBaloons) ==> shown == None && balloons == old(balloons)
      ensures key !in old(shownBaloons) ==>
        shown == Some(Balloon(key, text)) && balloons == old(balloons) + [Balloon(key, text)]
    {
      if key in shownBaloons {
        return None;
      }
      assert KeysOf(balloons + [Balloon(key, text)]) == KeysOf(balloons) + [key];
      shownBaloons := shownBaloons + {key};
      balloons := balloons + [Balloon(key, text)];
      shown := Some(Balloon(key, text));
    }

    /** `Element.random`: the name of the new element is some unlocked name. */
    method RandomName() returns (name: string)
      requires Valid()
      ensures name in available
    {
      assert "water" in available;
      name :| name in available;
    }
  }

  /** An element on the board. */
  class Element {
    const elname: string
    var activated: bool
    var activationScheduled: bool

    /**
     * `Element(elname, activate=...)`: never active at creation; with
     * `activate` its activation is scheduled for later.
     */
    constructor (elname: string, activate: bool)
      ensures this.elname == elname && !activated && activationScheduled == activate
    {
      this.elname := elname;
      activated := false;
      activationScheduled := activate;
    }

    /**
     * `on_body_init`: the first element with a given name shows a balloon
     * with that name.
     */
    method OnBodyInit(reg: Registry) returns (shown: Option<Balloon>)
      requires reg.Valid()
      modifies reg
      ensures reg.Valid()
      ensures reg.available == old(reg.available)
      ensures reg.shownBaloons == old(reg.shownBaloons) + {elname}
      ensures shown.Some? <==> elname !in old(reg.shownBaloons)
      ensures shown.Some? ==> shown.value == Balloon(elname, elname)
      ensures reg.balloons == old(reg.balloons) + (if shown.Some? then [shown.value] else [])
    {
      shown := reg.ShowOnce(elname, elname);
    }

    /**
     * `activate(timeout=...)`: with `now` the element becomes active and the
     * activation balloon is shown once per process; otherwise the activation
     * is scheduled.
     */
    method Activate(reg: Registry, now: bool) returns (shown: Option<Balloon>)
      requires reg.Valid()
      modifies this, reg
      ensures reg.Valid()
      ensures reg.available == old(reg.available)
      ensures now ==> activated && activationScheduled == old(activationScheduled)
      ensures now ==> reg.shownBaloons == old(reg.shownBaloons) + {ActivationKey}
      ensures now ==> (shown.Some? <==> ActivationKey !in old(reg.shownBaloons))
      ensures now && shown.Some? ==> shown.value == Balloon(ActivationKey, ActivationText)
      ensures now ==> reg.balloons == old(reg.balloons) + (if shown.Some? then [shown.value] else [])
      ensures !now ==> activationScheduled && activated == old(activated) && shown == None
      ensures !now ==> reg.shownBaloons == old(reg.shownBaloons) && reg.balloons == old(reg.balloons)
    {
      if now {
        activated := true;
        shown := reg.ShowOnce(ActivationKey, ActivationText);
        return;
      }
      activationScheduled := true;
      shown := None;
    }

    /**
     * The decision part of `collide_with_another(other)`, with `table` the
     * loaded recipe table, `hasParent` whether the element is on the board
     * yet and `explodeWhenNoComb` the setting of the same name.  `ret` is
     * Python's `True`; `false` stands for the implicit `None`.
     */
    method CollideWithAnother(reg: Registry, other: Element, table: Table, hasParent: bool, explodeWhenNoComb: bool)
      returns (ret: bool, reaction: Reaction)
      requires reg.Valid()
      modifies reg
      ensures reg.Valid()
      ensures old(reg.available) <= reg.available
      ensures reg.shownBaloons == old(reg.shownBaloons) && reg.balloons == old(reg.balloons)
      ensures !(activated && other.activated) ==>
        ret && reaction == NoReaction && reg.available == old(reg.available)
      ensures activated && other.activated && !hasParent ==>
        !ret && reaction == NoReaction && reg.available == old(reg.available)
      ensures activated && other.activated && hasParent && Combine(table, elname, other.elname).None? ==>
        ret && reaction == (if explodeWhenNoComb then Explode else NoReaction)
        && reg.available == old(reg.available)
      ensures activated && other.activated && hasParent && Combine(table, elname, other.elname).Some? ==>
        var c := Combine(table, elname, other.elname).value;
        !ret && reaction == Transmute(c) && reg.available == old(reg.available) + {c}
    {
      if !other.activated || !activated {
        return true, NoReaction;
      }
      if !hasParent {
        return false, NoReaction;
      }
      var product := Combine(table, elname, other.elname);
      if product.None? {
        reaction := if explodeWhenNoComb then Explode else NoReaction;
        return true, reaction;
      }
      reg.available := reg.available + {product.value};
      return false, Transmute(product.value);
    }
  }
}
