/**
 The `take` and `drop` commands: moving items between the current place and
 the player.
 */
module Inventory {
  import opened Text
  import opened World

  const NoTakeArgs := "You didn’t tell me what to take."
  const NothingToTake := "You can’t take that which doesn’t exist."
  const TookPrefix := "You took the "
  const NoDropArgs := "You didn’t tell me what to drop."
  const NothingToDrop := "Unable to drop something you are not carrying."
  const DroppedPrefix := "You dropped the "

  function Elems(s: seq<string>): set<string>
  {
    set x | x in s
  }

  /** The entries of `m` whose names are in `keys`. */
  function Restrict(m: ItemMap, keys: set<string>): ItemMap
  {
    map k | k in m && k in keys :: m[k]
  }

  /** The names a pass over `names` finds in `items`, in argument order,
      each one removed from `items` once found: the names `take` finds in
      the current place and `drop` finds with the player. A repeated name is
      found once. */
  function Found(items: ItemMap, names: seq<string>): (r: seq<string>)
    ensures |r| == 0 <==> forall n :: n in names ==> n !in items
    ensures forall i :: 0 <= i < |r| ==> r[i] in items && r[i] in names
    ensures forall n :: n in names && n in items ==> n in r
    ensures forall i, j :: 0 <= i < j < |r| ==> r[i] != r[j]
    decreases |names|
  {
    if |names| == 0 then []
    else if names[0] in items then [names[0]] + Found(items - {names[0]}, names[1..])
    else Found(items, names[1..])
  }

  /** One confirmation line per name. */
  function Confirmations(prefix: string, names: seq<string>): seq<string>
  {
    seq(|names|, i requires 0 <= i < |names| => prefix + names[i])
  }

  lemma ConfirmationsCons(prefix: string, n: string, names: seq<string>)
    ensures Confirmations(prefix, [n] + names) == [prefix + n] + Confirmations(prefix, names)
  {
  }

  /** What `take` and `drop` answer after their loop: the confirmations
      joined by newlines, or the failure message when there are none. */
  function Answer(lines: seq<string>, failure: string): string
  {
    if |lines| > 0 then Join(lines, "\n") else failure
  }

  // ---------------------------------------------------------------------
  // take

  /** `takeItem`: moves `name` from the current place to the player, and
      reports the item when the place had it. */
  function TakeItem(g: Game, name: string): (r: (Game, Option<Item>))
    ensures r.1.Some? <==> name in Current(g).items
    ensures r.1.Some? ==> g.player.position in g.places && r.1.value == Current(g).items[name]
    ensures OnlyItemsChange(g, r.0)
  {
    var p := Current(g);
    if name in p.items then
      var it := p.items[name];
      var g1 := WithCurrent(g, p.(items := p.items - {name}));
      (g1.(player := g1.player.(items := AddItem(g.player.items, name, it))), Some(it))
    else
      (g, None)
  }

  /** The state after `takeItem` on each name in turn, hooks aside. */
  function Transfer(g: Game, names: seq<string>): Game
    decreases |names|
  {
    if |names| == 0 then g else Transfer(TakeItem(g, names[0]).0, names[1..])
  }

  /** The loop of `take`: `lines` holds the confirmations so far. */
  function TakeEach(env: Env, g: Game, names: seq<string>, lines: seq<string>): (r: Response)
    ensures OnlyItemsChange(g, r.game)
    decreases |names|
  {
    if |names| == 0 then
      Response(g, Answer(lines, NothingToTake))
    else
      var (g1, found) := TakeItem(g, names[0]);
      if found.None? then
        TakeEach(env, g1, names[1..], lines)
      else if found.value.take.Some? then
        Response(g1, env.take(found.value.take.value, g1))
      else
        TakeEach(env, g1, names[1..], lines + [TookPrefix + names[0]])
  }

  /** `take`: moves every named item found in the current place to the player. */
  function Take(env: Env, g: Game, args: seq<string>): (r: Response)
    ensures OnlyItemsChange(g, r.game)
    ensures |args| == 0 ==> r == Response(g, NoTakeArgs)
  {
    if |args| == 0 then Response(g, NoTakeArgs) else TakeEach(env, g, args, [])
  }

  lemma RemoveMore(m: ItemMap, n: string, s: set<string>)
    ensures (m - {n}) - s == m - ({n} + s)
  {
  }

  lemma RestrictMore(m: ItemMap, n: string, s: set<string>)
    requires n !in m
    ensures Restrict(m, {n} + s) == Restrict(m, s)
    ensures m - ({n} + s) == m - s
  {
  }

  lemma MoveThenRestrict(mine: ItemMap, items: ItemMap, n: string, s: set<string>)
    requires n in items
    ensures mine[n := items[n]] + Restrict(items - {n}, s) == mine + Restrict(items, {n} + s)
  {
  }

  lemma UpdateTwice<V>(m: map<string, V>, k: string, a: V, b: V)
    ensures m[k := a][k := b] == m[k := b]
  {
  }

  /** Taking, hooks aside, empties the named entries out of the current
      place into the player's map and touches nothing else; in the void
      place nothing is found. */
  lemma {:induction false} TransferMovesNamedItems(g: Game, names: seq<string>)
    ensures var p := Current(g);
            var g' := Transfer(g, names);
            if g.player.position in g.places then
              && g'.player == g.player.(items := g.player.items + Restrict(p.items, Elems(names)))
              && g'.places == g.places[g.player.position := p.(items := p.items - Elems(names))]
            else g' == g
    decreases |names|
  {
    var p := Current(g);
    if |names| == 0 {
      assert Restrict(p.items, Elems(names)) == map[];
      assert p.items - Elems(names) == p.items;
      if g.player.position in g.places {
        assert g.places[g.player.position := p] == g.places;
      }
    } else {
      var n := names[0];
      var rest := names[1..];
      var g1 := TakeItem(g, n).0;
      assert Transfer(g, names) == Transfer(g1, rest);
      TransferMovesNamedItems(g1, rest);
      assert Elems(names) == {n} + Elems(rest);
      if g.player.position in g.places {
        var pos := g.player.position;
        if n in p.items {
          var p1 := p.(items := p.items - {n});
          assert g1 == Game(g.player.(items := g.player.items[n := p.items[n]]), g.places[pos := p1]);
          assert Current(g1) == p1;
          RemoveMore(p.items, n, Elems(rest));
          MoveThenRestrict(g.player.items, p.items, n, Elems(rest));
          UpdateTwice(g.places, pos, p1, p.(items := p.items - Elems(names)));
        } else {
          assert g1 == g;
          RestrictMore(p.items, n, Elems(rest));
        }
      }
    }
  }

  /** When no named item carries a `Take` hook, `take` performs the whole
      transfer, and it reports that nothing exists exactly when none of the
      names is in the current place. */
  lemma TakeWithoutHooks(env: Env, g: Game, args: seq<string>)
    requires |args| > 0
    requires forall n :: n in args && n in Current(g).items ==> Current(g).items[n].take.None?
    ensures Take(env, g, args).game == Transfer(g, args)
    ensures Take(env, g, args).text == NothingToTake <==> (forall n :: n in args ==> n !in Current(g).items)
    ensures Take(env, g, args).text == Answer(Confirmations(TookPrefix, Found(Current(g).items, args)), NothingToTake)
  {
    TakeEachWithoutHooks(env, g, args, []);
    TakeEachReports(env, g, args, []);
    assert [] + Confirmations(TookPrefix, Found(Current(g).items, args)) == Confirmations(TookPrefix, Found(Current(g).items, args));
  }

  /** After `takeItem`, the current place no longer holds the name. */
  lemma TakeItemLeaves(g: Game, n: string)
    ensures Current(TakeItem(g, n).0).items == Current(g).items - {n}
  {
  }

  /** Without `Take` hooks, the answer of the loop confirms, in argument
      order, each name found in the current place as it is at that point. */
  lemma {:induction false} TakeEachReports(env: Env, g: Game, names: seq<string>, lines: seq<string>)
    requires forall n :: n in names && n in Current(g).items ==> Current(g).items[n].take.None?
    ensures TakeEach(env, g, names, lines).text
              == Answer(lines + Confirmations(TookPrefix, Found(Current(g).items, names)), NothingToTake)
    decreases |names|
  {
    var items := Current(g).items;
    if |names| == 0 {
      assert lines + Confirmations(TookPrefix, []) == lines;
    } else {
      var n := names[0];
      var (g1, found) := TakeItem(g, n);
      TakeItemLeaves(g, n);
      assert forall m :: m in Current(g1).items ==> m in items && Current(g1).items[m] == items[m];
      if found.None? {
        assert items - {n} == items;
        TakeEachReports(env, g1, names[1..], lines);
      } else {
        var rest := Found(items - {n}, names[1..]);
        ConfirmationsCons(TookPrefix, n, rest);
        assert lines + Confirmations(TookPrefix, [n] + rest) == (lines + [TookPrefix + n]) + Confirmations(TookPrefix, rest);
        TakeEachReports(env, g1, names[1..], lines + [TookPrefix + n]);
      }
    }
  }

  lemma {:induction false} TakeEachWithoutHooks(env: Env, g: Game, names: seq<string>, lines: seq<string>)
    requires forall n :: n in names && n in Current(g).items ==> Current(g).items[n].take.None?
    requires forall i :: 0 <= i < |lines| ==> TookPrefix <= lines[i]
    ensures TakeEach(env, g, names, lines).game == Transfer(g, names)
    ensures (TakeEach(env, g, names, lines).text == NothingToTake) <==> (|lines| == 0 && forall n :: n in names ==> n !in Current(g).items)
    decreases |names|
  {
    if |names| == 0 {
      if |lines| > 0 {
        JoinedConfirmationsNotFailure(lines);
      }
    } else {
      var n := names[0];
      var (g1, found) := TakeItem(g, n);
      assert forall m :: m in Current(g1).items ==> m in Current(g).items && Current(g1).items[m] == Current(g).items[m];
      if found.None? {
        TakeEachWithoutHooks(env, g1, names[1..], lines);
      } else {
        var lines' := lines + [TookPrefix + n];
        TakeEachWithoutHooks(env, g1, names[1..], lines');
      }
    }
  }

  lemma JoinedConfirmationsNotFailure(lines: seq<string>)
    requires |lines| > 0
    requires TookPrefix <= lines[0]
    ensures Join(lines, "\n") != NothingToTake
  {
    JoinStartsWithFirst(lines, "\n");
    assert Join(lines, "\n")[4] == lines[0][4] == TookPrefix[4] == 't';
    assert NothingToTake[4] == 'c';
  }

  /** `take` stops at the first item it moves that has a `Take` hook: the
      names before it have been moved, the names after it are ignored, and
      the hook's text is the whole answer. */
  lemma TakeStopsAtHook(env: Env, g: Game, pre: seq<string>, n: string, post: seq<string>)
    requires n in Current(g).items && Current(g).items[n].take.Some?
    requires n !in pre
    requires forall m :: m in pre && m in Current(g).items ==> Current(g).items[m].take.None?
    ensures var r := Take(env, g, pre + [n] + post);
            && r.game == Transfer(g, pre + [n])
            && r.text == env.take(Current(g).items[n].take.value, r.game)
  {
    TakeEachStopsAtHook(env, g, pre, n, post, []);
  }

  lemma {:induction false} TakeEachStopsAtHook(env: Env, g: Game, pre: seq<string>, n: string, post: seq<string>, lines: seq<string>)
    requires n in Current(g).items && Current(g).items[n].take.Some?
    requires n !in pre
    requires forall m :: m in pre && m in Current(g).items ==> Current(g).items[m].take.None?
    ensures var r := TakeEach(env, g, pre + [n] + post, lines);
            && r.game == Transfer(g, pre + [n])
            && r.text == env.take(Current(g).items[n].take.value, r.game)
    decreases |pre|
  {
    var names := pre + [n] + post;
    if |pre| == 0 {
      assert names[0] == n;
      assert (pre + [n])[1..] == [];
    } else {
      var m := pre[0];
      assert names[0] == m && names[1..] == pre[1..] + [n] + post;
      assert (pre + [n])[0] == m && (pre + [n])[1..] == pre[1..] + [n];
      var (g1, found) := TakeItem(g, m);
      assert forall x :: x in Current(g1).items ==> x in Current(g).items && Current(g1).items[x] == Current(g).items[x];
      assert n in Current(g1).items;
      if found.None? {
        TakeEachStopsAtHook(env, g1, pre[1..], n, post, lines);
      } else {
        TakeEachStopsAtHook(env, g1, pre[1..], n, post, lines + [TookPrefix + m]);
      }
    }
  }

  /** `take` without arguments, or naming nothing the current place holds,
      changes nothing and says why. */
  lemma TakeNothing(env: Env, g: Game, args: seq<string>)
    requires forall n :: n in args ==> n !in Current(g).items
    ensures Take(env, g, args) == Response(g, if |args| == 0 then NoTakeArgs else NothingToTake)
  {
    if |args| > 0 {
      TakeEachNothing(env, g, args);
    }
  }

  lemma {:induction false} TakeEachNothing(env: Env, g: Game, names: seq<string>)
    requires forall n :: n in names ==> n !in Current(g).items
    ensures TakeEach(env, g, names, []) == Response(g, NothingToTake)
    decreases |names|
  {
    if |names| > 0 {
      assert names[0] in names;
      TakeEachNothing(env, g, names[1..]);
    }
  }

  /** One `takeItem` neither creates nor loses an item, and keeps item names unique. */
  lemma TakeItemConserves(g: Game, name: string)
    requires UniqueNames(g)
    ensures AllItems(TakeItem(g, name).0) == AllItems(g)
    ensures UniqueNames(TakeItem(g, name).0)
  {
    var p := Current(g);
    if name in p.items {
      var items := p.items - {name};
      var mine := g.player.items[name := p.items[name]];
      assert name !in g.player.items;
      assert TakeItem(g, name).0 == Rearranged(g, items, mine);
      MoveKeys(p.items, g.player.items, name);
      BagMove(p.items, g.player.items, name);
      AllItemsRearranged(g, items, mine);
      UniqueNamesRearranged(g, items, mine);
    }
  }

  lemma MoveKeys(from: ItemMap, to: ItemMap, n: string)
    requires n in from && n !in to && from.Keys !! to.Keys
    ensures (from - {n}).Keys + to[n := from[n]].Keys == from.Keys + to.Keys
    ensures (from - {n}).Keys !! to[n := from[n]].Keys
  {
  }

  /** `take` neither creates nor loses an item, and keeps item names unique. */
  lemma TakeConserves(env: Env, g: Game, args: seq<string>)
    requires UniqueNames(g)
    ensures AllItems(Take(env, g, args).game) == AllItems(g)
    ensures UniqueNames(Take(env, g, args).game)
  {
    if |args| > 0 {
      TakeEachConserves(env, g, args, []);
    }
  }

  lemma {:induction false} TakeEachConserves(env: Env, g: Game, names: seq<string>, lines: seq<string>)
    requires UniqueNames(g)
    ensures AllItems(TakeEach(env, g, names, lines).game) == AllItems(g)
    ensures UniqueNames(TakeEach(env, g, names, lines).game)
    decreases |names|
  {
    if |names| > 0 {
      var (g1, found) := TakeItem(g, names[0]);
      TakeItemConserves(g, names[0]);
      if found.None? {
        TakeEachConserves(env, g1, names[1..], lines);
      } else if found.value.take.None? {
        TakeEachConserves(env, g1, names[1..], lines + [TookPrefix + names[0]]);
      }
    }
  }

  // ---------------------------------------------------------------------
  // drop

  /** `dropItem`: moves `name` from the player to the current place, and
      says whether the player carried it. `Place.AddItem` is taken to insert
      into the place's map; on the void place that map is then discarded. */
  function DropItem(g: Game, name: string): (r: (Game, bool))
    ensures r.1 <==> name in g.player.items
    ensures OnlyItemsChange(g, r.0)
  {
    if name in g.player.items then
      var it := g.player.items[name];
      var p := Current(g);
      var g1 := g.(player := g.player.(items := g.player.items - {name}));
      (WithCurrent(g1, p.(items := AddItem(p.items, name, it))), true)
    else
      (g, false)
  }

  /** The loop of `drop`: `lines` holds the confirmations so far. */
  function DropEach(g: Game, names: seq<string>, lines: seq<string>): (r: Response)
    ensures OnlyItemsChange(g, r.game)
    decreases |names|
  {
    if |names| == 0 then
      Response(g, Answer(lines, NothingToDrop))
    else
      var (g1, dropped) := DropItem(g, names[0]);
      DropEach(g1, names[1..], if dropped then lines + [DroppedPrefix + names[0]] else lines)
  }

  /** `drop`: moves every named item the player carries to the current place. */
  function Drop(g: Game, args: seq<string>): (r: Response)
    ensures OnlyItemsChange(g, r.game)
    ensures |args| == 0 ==> r == Response(g, NoDropArgs)
  {
    if |args| == 0 then Response(g, NoDropArgs) else DropEach(g, args, [])
  }

  /** What `drop` does to the item maps: the named entries leave the
      player's map and are added to the current place's, overwriting; in the
      void place that map is discarded. It answers that nothing was carried exactly
      when no name is in the player's map. */
  lemma DropMovesCarriedItems(g: Game, args: seq<string>)
    requires |args| > 0
    ensures var p := Current(g);
            var r := Drop(g, args);
            && r.game.player.items == g.player.items - Elems(args)
            && (g.player.position in g.places ==>
                  r.game.places == g.places[g.player.position := p.(items := p.items + Restrict(g.player.items, Elems(args)))])
            && (g.player.position !in g.places ==> r.game.places == g.places)
            && (r.text == NothingToDrop <==> forall n :: n in args ==> n !in g.player.items)
            && r.text == Answer(Confirmations(DroppedPrefix, Found(g.player.items, args)), NothingToDrop)
  {
    DropEachMoves(g, args, []);
    DropEachReports(g, args, []);
    DropEachConfirms(g, args, []);
    assert [] + Confirmations(DroppedPrefix, Found(g.player.items, args)) == Confirmations(DroppedPrefix, Found(g.player.items, args));
  }

  /** The answer of the loop of `drop` confirms, in argument order, each
      name the player still carries at that point. */
  lemma {:induction false} DropEachConfirms(g: Game, names: seq<string>, lines: seq<string>)
    ensures DropEach(g, names, lines).text
              == Answer(lines + Confirmations(DroppedPrefix, Found(g.player.items, names)), NothingToDrop)
    decreases |names|
  {
    if |names| == 0 {
      assert lines + Confirmations(DroppedPrefix, []) == lines;
    } else {
      var n := names[0];
      var (g1, dropped) := DropItem(g, n);
      assert g1.player.items == g.player.items - {n};
      if !dropped {
        assert g.player.items - {n} == g.player.items;
        DropEachConfirms(g1, names[1..], lines);
      } else {
        var rest := Found(g.player.items - {n}, names[1..]);
        ConfirmationsCons(DroppedPrefix, n, rest);
        assert lines + Confirmations(DroppedPrefix, [n] + rest) == (lines + [DroppedPrefix + n]) + Confirmations(DroppedPrefix, rest);
        DropEachConfirms(g1, names[1..], lines + [DroppedPrefix + n]);
      }
    }
  }

  /** `drop` without arguments, or naming nothing the player carries,
      changes nothing and says why. */
  lemma DropNothing(g: Game, args: seq<string>)
    requires forall n :: n in args ==> n !in g.player.items
    ensures Drop(g, args) == Response(g, if |args| == 0 then NoDropArgs else NothingToDrop)
  {
    if |args| > 0 {
      DropEachNothing(g, args);
    }
  }

  lemma {:induction false} DropEachNothing(g: Game, names: seq<string>)
    requires forall n :: n in names ==> n !in g.player.items
    ensures DropEach(g, names, []) == Response(g, NothingToDrop)
    decreases |names|
  {
    if |names| > 0 {
      assert names[0] in names;
      DropEachNothing(g, names[1..]);
    }
  }

  lemma AddThenRestrict(items: ItemMap, mine: ItemMap, n: string, s: set<string>)
    requires n in mine
    ensures items[n := mine[n]] + Restrict(mine - {n}, s) == items + Restrict(mine, {n} + s)
  {
  }

  lemma {:induction false} DropEachMoves(g: Game, names: seq<string>, lines: seq<string>)
    ensures var p := Current(g);
            var r := DropEach(g, names, lines);
            && r.game.player.items == g.player.items - Elems(names)
            && (g.player.position in g.places ==>
                  r.game.places == g.places[g.player.position := p.(items := p.items + Restrict(g.player.items, Elems(names)))])
            && (g.player.position !in g.places ==> r.game.places == g.places)
    decreases |names|
  {
    var p := Current(g);
    if |names| == 0 {
      assert g.player.items - Elems(names) == g.player.items;
      assert p.items + Restrict(g.player.items, Elems(names)) == p.items;
      if g.player.position in g.places {
        assert g.places[g.player.position := p] == g.places;
      }
    } else {
      var n := names[0];
      var rest := names[1..];
      var (g1, dropped) := DropItem(g, n);
      var lines' := if dropped then lines + [DroppedPrefix + n] else lines;
      assert DropEach(g, names, lines) == DropEach(g1, rest, lines');
      DropEachMoves(g1, rest, lines');
      assert Elems(names) == {n} + Elems(rest);
      if dropped {
        var v := g.player.items[n];
        RemoveMore(g.player.items, n, Elems(rest));
        if g.player.position in g.places {
          var pos := g.player.position;
          var p1 := p.(items := p.items[n := v]);
          assert g1 == Rearranged(g, p1.items, g.player.items - {n});
          assert Current(g1) == p1;
          AddThenRestrict(p.items, g.player.items, n, Elems(rest));
          UpdateTwice(g.places, pos, p1, p.(items := p.items + Restrict(g.player.items, Elems(names))));
        } else {
          assert g1.places == g.places && g1.player.position == g.player.position;
        }
      } else {
        assert g1 == g;
        RestrictMore(g.player.items, n, Elems(rest));
      }
    }
  }

  lemma {:induction false} DropEachReports(g: Game, names: seq<string>, lines: seq<string>)
    requires forall i :: 0 <= i < |lines| ==> DroppedPrefix <= lines[i]
    ensures (DropEach(g, names, lines).text == NothingToDrop) <==> (|lines| == 0 && forall n :: n in names ==> n !in g.player.items)
    decreases |names|
  {
    if |names| == 0 {
      if |lines| > 0 {
        JoinStartsWithFirst(lines, "\n");
        assert Join(lines, "\n")[5] == lines[0][5] == DroppedPrefix[5] == 'r';
        assert NothingToDrop[5] == 'e';
      }
    } else {
      var n := names[0];
      var (g1, dropped) := DropItem(g, n);
      var lines' := if dropped then lines + [DroppedPrefix + n] else lines;
      assert DropEach(g, names, lines) == DropEach(g1, names[1..], lines');
      DropEachReports(g1, names[1..], lines');
      if !dropped {
        assert g1 == g;
      } else {
        assert g1.player.items == g.player.items - {n};
      }
    }
  }

  /** `drop` while the player stands on a catalogued place neither creates
      nor loses an item, and keeps item names unique. */
  lemma DropConserves(g: Game, args: seq<string>)
    requires UniqueNames(g) && g.player.position in g.places
    ensures AllItems(Drop(g, args).game) == AllItems(g)
    ensures UniqueNames(Drop(g, args).game)
  {
    if |args| > 0 {
      DropEachConserves(g, args, []);
    }
  }

  lemma DropItemConserves(g: Game, name: string)
    requires UniqueNames(g) && g.player.position in g.places
    ensures AllItems(DropItem(g, name).0) == AllItems(g)
    ensures UniqueNames(DropItem(g, name).0)
  {
    if name in g.player.items {
      var p := Current(g);
      var items := p.items[name := g.player.items[name]];
      var mine := g.player.items - {name};
      assert name !in p.items;
      assert DropItem(g, name).0 == Rearranged(g, items, mine);
      assert p.items.Keys !! g.player.items.Keys;
      MoveKeys(g.player.items, p.items, name);
      assert items.Keys + mine.Keys == p.items.Keys + g.player.items.Keys;
      BagMove(g.player.items, p.items, name);
      AllItemsRearranged(g, items, mine);
      UniqueNamesRearranged(g, items, mine);
    }
  }

  lemma {:induction false} DropEachConserves(g: Game, names: seq<string>, lines: seq<string>)
    requires UniqueNames(g) && g.player.position in g.places
    ensures AllItems(DropEach(g, names, lines).game) == AllItems(g)
    ensures UniqueNames(DropEach(g, names, lines).game)
    decreases |names|
  {
    if |names| > 0 {
      var (g1, dropped) := DropItem(g, names[0]);
      DropItemConserves(g, names[0]);
      DropEachConserves(g1, names[1..], if dropped then lines + [DroppedPrefix + names[0]] else lines);
    }
  }

  /** In the void place a dropped item leaves the world: it is taken from
      the player and inserted into the map of a place nothing keeps. (The
      void place's map is nil in the Go code, where such an insert would
      panic instead.) */
  lemma DropInVoidLosesItem(g: Game, n: string)
    requires g.player.position !in g.places && n in g.player.items
    ensures AllItems(Drop(g, [n]).game) + multiset{(n, g.player.items[n])} == AllItems(g)
  {
    DropMovesCarriedItems(g, [n]);
    assert Elems([n]) == {n};
    BagRemove(g.player.items, n);
  }

  // ---------------------------------------------------------------------
  // take and drop undo each other

  /** Taking one hook-less item from a catalogued place moves it to the
      player and confirms it. */
  lemma TakeOne(env: Env, g: Game, n: string)
    requires g.player.position in g.places
    requires n in Current(g).items && Current(g).items[n].take.None?
    ensures Take(env, g, [n]).game
              == Rearranged(g, Current(g).items - {n}, g.player.items[n := Current(g).items[n]])
    ensures Take(env, g, [n]).text == TookPrefix + n
  {
    var p := Current(g);
    TakeWithoutHooks(env, g, [n]);
    assert [n][1..] == [];
    assert Found(p.items, [n]) == [n];
    assert Confirmations(TookPrefix, [n]) == [TookPrefix + n];
    TransferMovesNamedItems(g, [n]);
    assert Elems([n]) == {n};
    assert g.player.items + Restrict(p.items, {n}) == g.player.items[n := p.items[n]];
  }

  /** Dropping one carried item on a catalogued place moves it there and
      confirms it. */
  lemma DropOne(g: Game, n: string)
    requires g.player.position in g.places
    requires n in g.player.items
    ensures Drop(g, [n]).game
              == Rearranged(g, Current(g).items[n := g.player.items[n]], g.player.items - {n})
    ensures Drop(g, [n]).text == DroppedPrefix + n
  {
    var p := Current(g);
    DropMovesCarriedItems(g, [n]);
    assert [n][1..] == [];
    assert Found(g.player.items, [n]) == [n];
    assert Confirmations(DroppedPrefix, [n]) == [DroppedPrefix + n];
    assert Elems([n]) == {n};
    assert p.items + Restrict(g.player.items, {n}) == p.items[n := g.player.items[n]];
  }

  lemma RearrangedTwice(g: Game, a: ItemMap, b: ItemMap, a': ItemMap, b': ItemMap)
    requires g.player.position in g.places
    ensures Current(Rearranged(g, a, b)) == Current(g).(items := a)
    ensures Rearranged(Rearranged(g, a, b), a', b') == Rearranged(g, a', b')
  {
    var pos := g.player.position;
    UpdateTwice(g.places, pos, Current(g).(items := a), Current(g).(items := a'));
  }

  lemma RearrangedSame(g: Game)
    requires g.player.position in g.places
    ensures Rearranged(g, Current(g).items, g.player.items) == g
  {
    assert g.places[g.player.position := Current(g)] == g.places;
  }

  /** Taking an item and dropping it again restores the state. */
  lemma TakeThenDropRestores(env: Env, g: Game, n: string)
    requires g.player.position in g.places
    requires n in Current(g).items && Current(g).items[n].take.None?
    requires n !in g.player.items
    ensures Drop(Take(env, g, [n]).game, [n]).game == g
  {
    var p := Current(g);
    var items, mine := p.items - {n}, g.player.items[n := p.items[n]];
    TakeOne(env, g, n);
    var g1 := Rearranged(g, items, mine);
    RearrangedTwice(g, items, mine, p.items, g.player.items);
    DropOne(g1, n);
    assert items[n := mine[n]] == p.items;
    assert mine - {n} == g.player.items;
    RearrangedSame(g);
  }

  /** Dropping an item and taking it again restores the state. */
  lemma DropThenTakeRestores(env: Env, g: Game, n: string)
    requires g.player.position in g.places
    requires n in g.player.items && g.player.items[n].take.None?
    requires n !in Current(g).items
    ensures Take(env, Drop(g, [n]).game, [n]).game == g
  {
    var p := Current(g);
    var items, mine := p.items[n := g.player.items[n]], g.player.items - {n};
    DropOne(g, n);
    var g1 := Rearranged(g, items, mine);
    RearrangedTwice(g, items, mine, p.items, g.player.items);
    TakeOne(env, g1, n);
    assert items - {n} == p.items;
    assert mine[n := items[n]] == g.player.items;
    RearrangedSame(g);
  }
}
