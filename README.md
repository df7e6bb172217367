# Alchemist: a verified model of the game's core

Alchemist is a small physics game written with Kivy. Elements fall into a zone. The
player shoots them with a cannon to activate them. When two activated elements collide,
their combination is looked up in a recipe table, `data/elmap.txt`, and they turn into the
product. The game ends when the player reaches "dragon", or when an activated element hits
the bottom. A hint panel suggests recipes that lead towards "dragon". The length of that
plan is computed by a recursive count over the reversed recipe table.

The model covers the following parts of the program.

**The recipe table** (`Names`, `LineSyntax`, `Recipes`):
- how `load_elmap` parses each line with its regular expression;
- how `load_elmap` normalises each pair of inputs with `sorted`;
- the module-level cache (`RecipeCache`);
- the assertion on repeated pairs;
- the lookup in `combine_elements`.

**The element registry** (`Elements`):
- the class-level sets `available_elnames` and `shown_baloons`;
- activation;
- the decision part of `collide_with_another`;
- `Element.random`.

**The prerequisite count** (`Prerequisites`):
- `reverse_elmap`;
- the recursive `bfs` over a shared mutable `known` set.

**The game object** (`Game`, `Hints`):
- the hint panel: `set_hint` and `rotate_hint`;
- `gameover` and `reached_elname`;
- the deferred add and remove queues, and how `update` drains them;
- the drop trigger, `drop_element`;
- the bookkeeping of the two collision handlers.

**`opposite`** (`Ui`).

Code that changes state step by step is modelled as imperative Dafny:
- `load_elmap`'s loop;
- `reverse_elmap`'s loop;
- `bfs`'s recursion over `known`;
- `rotate_hint`'s loops;
- `update`'s queue loops.

Each of these methods is proved against a specification function. Pure decisions are functions:
- the line syntax;
- the lookup;
- publishing a hint;
- the stable sort by usage.

`bfs` fails to terminate only on a cycle of recipes that it reaches from `end` without
entering `known`. The model asks for more: a ghost ranking witnessing that the whole table
has no cycle. Under that ranking the model proves two facts about the result:
- it equals the number of names reachable from `end` through recipe inputs without entering
  `known`;
- every such name is called on exactly once.

`bfs` counts prerequisites; it does not compute a shortest plan, and the game has no reset
operation.

## Model

| member | source | states |
|---|---|---|
| Names.LessTrichotomy | element.py:29 | Python's string order, used by `sorted`, is total: two names are equal or one is before the other |
| Names.LessAsymmetric | element.py:29 | no two names are each before the other |
| Names.LessTransitive | element.py:29 | the string order is transitive |
| Names.SortedPair | element.py:29 | `tuple(sorted([a, b]))` is in ascending order and holds exactly the names `a` and `b` |
| Names.SortedPairSymmetric | element.py:46 | both orders of two names give the same key |
| Names.SortedPairSameNames | element.py:29-30 | two pairs share a key exactly when they hold the same two names, as a multiset |
| LineSyntax.TrimStart | element.py:25-27 | `lstrip` drops a prefix made only of whitespace, and the rest starts with a non-space |
| LineSyntax.TrimEnd | element.py:25-27 | `rstrip` drops a suffix made only of whitespace, and the rest ends with a non-space |
| LineSyntax.Strip | element.py:25-27 | `strip` leaves no whitespace at either end, never lengthens, and gives the empty string exactly when the text is all whitespace |
| LineSyntax.StripPadded | element.py:25-27 | any whitespace padding around a trimmed, non-empty name is exactly what `strip` removes |
| LineSyntax.LastIndexOf | element.py:22 | finds the last occurrence of a character, or reports that there is none |
| LineSyntax.SplitPoints | element.py:22 | the greedy groups split at the last `+` and at the last `=` before it; there is no split exactly when no `=` precedes a `+` |
| LineSyntax.ParseLine | element.py:22-27 | a line fails to match exactly when its body holds a newline or has no `=` before a `+`; on a match the three groups are stripped |
| LineSyntax.ParseFormatLine | element.py:22-27 | a recipe written as `c = a + b` reads back as the same recipe (round trip) |
| LineSyntax.FormatLineSplit | element.py:22 | in a written recipe line, the regular expression splits right after the product and right before the second input |
| Recipes.EntriesSorted | element.py:29 | every key that loading inserts is a sorted pair |
| Recipes.EntriesOfLine | element.py:21-31 | every matching line contributes its recipe |
| Recipes.EntryFromLine | element.py:21-31 | every recipe comes from a matching line |
| Recipes.Fill | element.py:21-31 | the loading loop over the recipes keeps every entry already in the table, and a key it stops at is one already in the table |
| Recipes.FillFailsIffRepeat | element.py:29-31 | inserting recipes fails exactly when two recipes share a key, or a key is already in the table |
| Recipes.FillValid | element.py:29-31 | inserting keeps every key sorted and the insertion order exact |
| Recipes.FillContents | element.py:21-31 | a load without repeats holds the old entries and every recipe, and appends the keys in file order |
| Recipes.FillStopsAtRepeat | element.py:30-31 | a failed load leaves cached the entries inserted before the repeated key, and that key is among them |
| Recipes.RecipeCache.constructor | element.py:36 | the cache starts empty |
| Recipes.RecipeCache.Load | element.py:16-33 | a non-empty cache is returned unchanged; otherwise the lines are loaded in order, and a repeat fails with its key while the partial table stays cached |
| Recipes.RecipeCache.CombineElements | element.py:39-48 | loads the table (which may fail), then looks the unordered pair up; a warm cache, with its insertion order, is left unchanged, and a cold one ends as the load leaves it |
| Recipes.Combine | element.py:45-48 | the lookup yields nothing exactly when the sorted pair is missing; otherwise it yields the stored product |
| Recipes.CombineSymmetric | element.py:46 | combining does not depend on the order of the two names |
| Recipes.LoadedKeysSorted | element.py:29-31 | every key of a loaded table, complete or partial, is sorted |
| Recipes.FillFailsIffSameKey | element.py:21-31 | a fresh load fails exactly when two matching lines give the same key |
| Recipes.LoadFailsIffSamePair | element.py:21-31 | a fresh load fails exactly when two matching lines name the same two inputs, in either order |
| Recipes.LoadedCombineFindsLine | element.py:21-48 | after a successful load, every line `c = a + b` combines `a` and `b`, in either order, into `c` |
| Recipes.LoadedCombineFromLine | element.py:21-48 | after a successful load, every combination comes from a line with the same two inputs |
| Recipes.PercentFormat | element.py:30 | Python's `%` on a string: a template without `%` succeeds exactly when no argument is given, and then yields the template |
| Recipes.PercentFormatPlain | element.py:30 | Python's `%` formatting copies text without `%` unchanged |
| Recipes.DuplicateMessageAsWritten | element.py:30 | the repeated-key message, formatted with the key tuple, fails for every key because not all arguments are converted |
| Recipes.DuplicateMessageCorrected | element.py:30 | formatted with a single argument, the message names the key |
| Elements.Registry.constructor | element.py:84-85 | a session starts with the four base names unlocked and no balloon shown |
| Elements.Registry.ShowOnce | element.py:108-110 | a balloon key is shown at most once per process; the registry stays consistent |
| Elements.Registry.RandomName | element.py:156-159 | the random element is named by some unlocked name |
| Elements.Element.constructor | element.py:87-97 | a new element is not active; `activate=True` schedules its activation |
| Elements.Element.OnBodyInit | element.py:106-110 | the first element with a given name shows a balloon with that name, appended to the balloon log; later ones show nothing and leave the log as it was |
| Elements.Element.Activate | element.py:112-121 | `timeout='now'` activates the element and shows the activation balloon once per process, appending it to the balloon log; any other timeout only schedules the activation |
| Elements.Element.CollideWithAnother | element.py:135-154 | without both elements activated: `True` and nothing else. Without a parent: `None`. With no recipe: `True`, plus an explosion when the setting is on. Otherwise the product is unlocked and replaces the element |
| Prerequisites.InputsOfAbsent | bfs.py:7 | a product without recipes has an empty list in the `defaultdict` |
| Prerequisites.ReverseElmap | bfs.py:4-11 | the reverse index has a key for every product, and lists both inputs of each of its recipes in insertion order |
| Prerequisites.ProductsOfAll | bfs.py:8-10 | iterating all items reaches every product |
| Prerequisites.IndexesStep | bfs.py:8-10 | one loop iteration appends the two inputs of the recipe under its product |
| Prerequisites.InputsCount | bfs.py:8-10 | each product lists exactly two entries per recipe that produces it |
| Prerequisites.InputsMember | bfs.py:8-10 | a name is listed under a product exactly when it is an input of one of its recipes |
| Prerequisites.IndexRanked | bfs.py:4-11 | a table without cycles gives a reverse index without cycles |
| Prerequisites.ReachDepth | bfs.py:21-23 | every name counted below a name ranks below it, so the recursion ends |
| Prerequisites.ReachClosed | bfs.py:21-24 | the names a call counts are closed: their inputs are known or counted |
| Prerequisites.ReachShrinks | bfs.py:22-24 | a call made after earlier calls have filled `known` counts exactly what they have not counted |
| Prerequisites.KnownSet.constructor | bfs.py:18 | the copy of `known` holds the caller's names |
| Prerequisites.KnownSet.Add | bfs.py:24 | `known.add(e)` adds `e` |
| Prerequisites.Expand | bfs.py:20-25 | a call returns how many names it reaches and leaves them, except its own name, in the shared `known`; it calls on each of them exactly once |
| Prerequisites.Visit | bfs.py:21-24 | one loop pass at an unknown input adds that input's count and then the input itself; a known input changes nothing |
| Prerequisites.Bfs | bfs.py:14-25 | the top-level count equals the number of names reachable from `end` by recipe inputs without entering `known`; the count is at least 1, and the caller's set is untouched |
| Prerequisites.WalksAgree | bfs.py:8-10 | walks along the reverse index are exactly walks along recipe inputs |
| Prerequisites.ReachIsReachable | bfs.py:14-25 | what the recursion counts is exactly the set of names reachable by recipe walks |
| Prerequisites.AllInputsKnown | bfs.py:20-25 | a product with no recipes, or with every input known, counts only itself |
| Hints.Publish | alcangame.py:107-115 | a new hint is appended, and the oldest one is dropped when the panel would exceed its size |
| Hints.PublishKeepsNewest | alcangame.py:107-115 | after publishing, the new hint is the last one and the panel is within its size |
| Hints.PublishUniqueKeys | alcangame.py:101-115 | publishing a hint whose key is not shown keeps the keys unique |
| Hints.TouchKeepsUsage | alcangame.py:131 | reading usage through the `defaultdict` adds zero entries for the candidates, and changes no usage |
| Hints.Candidates | alcangame.py:127-129 | succeeds exactly when every pair is in the table, with its product; otherwise fails at the first missing pair, as `KeyError` does |
| Hints.SortByUsage | alcangame.py:131 | the sort by usage keeps the number of candidates; SortPermutes, SortSorted and SortStable state what it orders and how |
| Hints.InsertPermutes | alcangame.py:131 | inserting adds the new candidate and nothing else |
| Hints.InsertSorted | alcangame.py:131 | inserting into a list sorted by usage keeps it sorted |
| Hints.SortPermutes | alcangame.py:131 | sorting by usage permutes the candidates |
| Hints.SortSorted | alcangame.py:131 | the sorted candidates are in non-decreasing order of usage |
| Hints.SortStable | alcangame.py:131 | candidates of equal usage keep their relative order (Python's sort is stable) |
| Hints.FirstHidden | alcangame.py:133-135 | finds the first candidate whose key is not shown, or reports that every candidate is shown |
| Game.Construct | alcangame.py:321 | a queued construction builds a fresh object of the queued class and arguments: a widget of the queued kind, or an element of the queued name that is not active yet and has its activation scheduled iff `activate=True` was queued |
| Game.Without | alcangame.py:315-318 | the removal never lengthens the children, and leaves them whole exactly when none of them is queued |
| Game.WithoutMembers | alcangame.py:315-318 | after removal, no queued object is left among the children, and every other child stays |
| Game.WithoutAppend | alcangame.py:311-318 | removing queued objects does not touch children added after them that are not queued |
| Game.WithoutStep | alcangame.py:315-316 | removing the queued objects one at a time, in any order, removes them all |
| Game.IndexOf | alcangame.py:210 | `list.remove` takes out the first occurrence of the element |
| Game.Drops | alcangame.py:302-309 | at most two drops; none exactly when drops are blocked, or the zone is at its minimum and no lucky drop below the maximum happens; two exactly when both triggers fire |
| Game.CountInactive | alcangame.py:303 | counts the zone's elements that are not activated; the count is zero exactly when all are active |
| Game.AlcanGame.constructor | alcangame.py:31-66 | the game starts running, with empty queues, zone, panel and statistics, and then `set_bfs` runs |
| Game.AlcanGame.SetBfs | alcangame.py:96-98 | stores the hints to show and their number |
| Game.AlcanGame.Gameover | alcangame.py:78-84 | the first call ends the game and adds the game-over banner; later calls change nothing |
| Game.AlcanGame.ReachedElname | alcangame.py:367-373 | "dragon" adds the success banner and ends the game; other names change nothing |
| Game.AlcanGame.ScheduleAddWidget | alcangame.py:93-94 | appends the construction to the add queue |
| Game.AlcanGame.RemoveObj | alcangame.py:137-140 | with `just_schedule`, adds the object to the remove set |
| Game.AlcanGame.SetHint | alcangame.py:100-117 | a hint already shown changes nothing and returns `False`; otherwise its usage grows by one and it is published; panel size and unique keys are kept |
| Game.AlcanGame.RotateHint | alcangame.py:121-135 | builds the candidates (a missing pair fails before any change), records their usage, sorts them stably, and publishes the first one not shown |
| Game.AlcanGame.BuildCandidates | alcangame.py:125-129 | the first loop computes exactly `Candidates` |
| Game.AlcanGame.ShowFirstHidden | alcangame.py:133-135 | the second loop publishes exactly the first hidden candidate, or changes nothing |
| Game.AlcanGame.ElementVsBottom | alcangame.py:199-210 | an activated element ends the game; the element is queued for removal and leaves the zone; an element missing from the zone raises |
| Game.AlcanGame.ElementVsElement | alcangame.py:212-225 | a collision returning `True` earns one point and a fresh points balloon; on a reaction the other element is queued for removal; a product is unlocked; no balloon key is used up |
| Game.AlcanGame.DropElement | alcangame.py:346-365 | a blocked drop changes nothing; otherwise a fresh element with an unlocked name is added, neither active nor scheduled to activate (`Element.random` passes no `activate`) |
| Game.AlcanGame.Update | alcangame.py:299-323 | drops as many elements as the zone trigger says, each fresh, unlocked, inactive and not scheduled to activate; removes every queued object and no other; adds one object per queued construction, in order; both queues end empty |
| Game.AlcanGame.DropPhase | alcangame.py:302-309 | one drop below the minimum, and one more on a lucky draw below the maximum, each blocked by `skip_drop`; each dropped element is fresh, unlocked, inactive and not scheduled to activate |
| Game.AlcanGame.RemoveQueued | alcangame.py:315-318 | the removal loop removes exactly the queued objects and clears the set |
| Game.AlcanGame.AddQueued | alcangame.py:320-323 | the addition loop adds a new object per construction, in queue order, built with that construction's class and arguments (including an element's `activate` flag), and clears the queue |
| Game.CandidatesFailAt | alcangame.py:127-128 | the first pair missing from the table is the one the loop fails on |
| Game.FirstHiddenAt | alcangame.py:133-135 | the first candidate that `set_hint` accepts is the first hidden one |
| Ui.Opposite | ui.py:5-6 | two numbers are opposite exactly when their product is negative |
| Ui.NegativeProduct | ui.py:5-6 | a product is negative exactly when the signs are strictly opposite |
| Ui.OppositeSymmetric | ui.py:5-6 | the test does not depend on argument order |
| Ui.OppositeZero | ui.py:5-6 | zero is opposite to nothing |
| Ui.OppositeSameSign | ui.py:5-6 | numbers of the same strict sign are not opposite |

## Left out

- **Physics, rendering and Kivy widgets are not modelled:**
  - bodies, shapes and the space;
  - balloons' on-screen behaviour;
  - `stacklayout` hint widgets, sizes and positions;
  - `o.update(dt)` for each child;
  - keys, touch and beam handling;
  - `clear`, `on_resize` and the wizard and cannon handlers.

  The model keeps the state that decides game logic. `remove_obj` without `just_schedule` is modelled only as removal from `children`. Kivy inserts children at index 0, but the model lists them in `add_widget` call order.
- **Clocks and scheduled callbacks are not modelled.** `Clock.schedule_once` in `activate` becomes the flag `activationScheduled`. The delayed reset of `skip_drop` is not modelled.
- **Randomness becomes inputs or nondeterministic choices.** `random.random() < drop_chance` is the `luckyDrop` parameter of `Game.AlcanGame.Update`. `choice(available_elnames)` is an arbitrary unlocked name. The drop coordinate is not modelled.
- **File I/O becomes a parameter.** The contents of `data/elmap.txt` are the `lines` parameter, each line keeping its trailing newline.
- **Settings become constructor parameters.** `defs.max_hints` (at least 1) and `defs.num_elements_in_zone` are parameters of the game. `defs.explode_when_nocomb` is a parameter of the collision methods.
- **`Element.steps_to_reach` is not part of this model.** Its result is the `steps` input of `set_bfs`.
- **`replace_obj` is not modelled.** `collide_with_another` calls `self.parent.replace_obj(...)` (element.py:147, 153), but no file of this model's source defines it. The collision returns the `Reaction` instead. The model assumes the call returns normally, so the code after it runs: `remove_obj(element)` (element.py:148, 154) and, on the no-recipe path, `return True` (element.py:149). On that assumption Elements.Element.CollideWithAnother reports the reaction, and Game.AlcanGame.ElementVsElement queues `e2` for removal and awards a point only on the `True` path. If the method really is missing, each call raises `AttributeError`. On a reaction that happens after `available_elnames.add` (element.py:151) and before the removal. Neither that failure nor what `replace_obj` does to the board is modelled.
- **`replace_objs` is not modelled.** It uses floating-point mass and momentum.
- **`elements_in_zone` is never filled** by the code in the core (`drop_element` passes it along as `elizo`). The model keeps it as `zone` and never appends to it.
- Prerequisites.Bfs requires the whole table to be acyclic (the ghost `rank`). The Python recursion fails only on a cycle reachable from `end` without entering `known`. For example, with the recipes `a + b = c` and `c + x = a`, `bfs({"a"}, "c")` returns 2, but the model does not cover that call. Neither the acyclic tables with a cycle elsewhere nor the stack overflow on a reachable cycle are modelled.
- Prerequisites.Bfs does not model one side effect: reading `pamle[end]` on the `defaultdict` inserts empty lists for the names visited. It does not change any count.
- Game.AlcanGame.DropElement treats `if not element` as never firing. A fresh `Element` is always truthy.
- Game.AlcanGame.RemoveQueued removes every occurrence of a queued object from `children`. Kivy keeps a widget at most once.
- Game.AlcanGame.ElementVsElement returns the reaction instead of replacing `e1`. The `PointsBaloon` position is not modelled.
- Ui.Opposite works on real numbers. Python floats' NaN and infinities are not modelled.
- Elements.Element.OnBodyInit does not model `assert self.parent is not None` (element.py:107). The parent is Kivy widget state outside the model. The other assertions of the core are modelled: the repeated-key one in `load_elmap` by `Recipes.RecipeCache.Load`, `assert o not in self.children` in `update` by `Game.WithoutMembers`, and `assert isinstance(known, set)` in `bfs` (bfs.py:15) by typing, since `known` is a `Prerequisites.KnownSet` holding a `set<string>`. Running under `python -O`, which disables assertions, is not modelled.
- Game.AlcanGame.Gameover and Game.AlcanGame.ReachedElname do not model `App.get_running_app().sm.schedule_gameover()` (alcangame.py:84, 373). That call goes to the application's screen manager, outside the game object.
- Prerequisites.ReverseElmap and Prerequisites.Bfs take the loaded recipe table (and its insertion order) as parameters. `reverse_elmap` calls `load_elmap()` itself (bfs.py:5-6), and so does `bfs` through it when no `pamle` is passed (bfs.py:16-17). On a cold cache that call reads the file and may raise on a repeated pair. The model covers that path only in Recipes.RecipeCache.Load, not inside these two members.
- Elements.Element.CollideWithAnother, Game.AlcanGame.ElementVsElement and Game.AlcanGame.RotateHint take the loaded recipe table as a parameter. The source calls `load_elmap()` there (element.py:43, alcangame.py:126). On a cold cache that call reads the file and may raise on a repeated pair. That path is modelled once, by Recipes.RecipeCache.Load and Recipes.RecipeCache.CombineElements, and not inside these three members.

## Findings

| source | as written | input that shows it | evidently intended | confidence | as-written member | corrected member |
|---|---|---|---|---|---|---|
| element.py:30 | `"duplicate combination %s" % key` formats with the key tuple itself, so `%` receives two arguments for one `%s` and raises `TypeError: not all arguments converted` | a recipe file with `steam = water + fire` followed by `mud = fire + water`: the second line repeats the key `("fire", "water")` | an `AssertionError` naming the repeated pair (`% (key,)`), which `Load` reports as `DuplicateCombination(key)` | high (not executed) | Recipes.DuplicateMessageAsWritten | Recipes.DuplicateMessageCorrected |
