/**
 A small two-place world, used to show the commands working together: walk
 into the forest, pick up the teleporter, walk back and teleport to the
 forest again.
 */
module Scenario {
  import opened Text
  import opened World
  import Inventory
  import Navigation

  const Gadget := Item(None, None)

  function StartPlace(visits: nat, items: ItemMap): Place
  {
    Place("start", ["forest"], items, visits, None, None)
  }

  function Forest(visits: nat, items: ItemMap): Place
  {
    Place("forest", ["start"], items, visits, None, None)
  }

  /** The world with `s` and `f` arrivals counted and the teleporter in the
      forest or carried. */
  function Example(at: string, s: nat, f: nat, carried: bool): Game
  {
    var lying: ItemMap := if carried then map[] else map["teleporter" := Gadget];
    var mine: ItemMap := if carried then map["teleporter" := Gadget] else map[];
    Game(Player(at, mine), map["start" := StartPlace(s, map[]), "forest" := Forest(f, lying)])
  }

  lemma LowerKeeps(s: string)
    requires IsLower(s)
    ensures Lower(s) == s
  {
    LowerIdempotent(s);
  }

  /** Walking from the start to the adjacent forest counts its first
      arrival and says where the player went. */
  lemma WalkToForest(env: Env)
    ensures Navigation.Walk(env, Example("start", 0, 0, false), ["forest"])
              == Response(Example("forest", 0, 1, false), Navigation.WalkedPrefix + "forest")
  {
    LowerKeeps("forest");
    Navigation.WalkToNeighbour(env, Example("start", 0, 0, false), "forest");
  }

  /** Taking the teleporter moves it from the forest to the player. */
  lemma TakeTeleporter(env: Env)
    ensures Inventory.Take(env, Example("forest", 0, 1, false), ["teleporter"])
              == Response(Example("forest", 0, 1, true), Inventory.TookPrefix + "teleporter")
  {
    var g := Example("forest", 0, 1, false);
    Inventory.TakeOne(env, g, "teleporter");
    assert Current(g).items - {"teleporter"} == map[];
  }

  /** Walking back counts the first arrival at the start. */
  lemma WalkBack(env: Env)
    ensures Navigation.Walk(env, Example("forest", 0, 1, true), ["start"])
              == Response(Example("start", 1, 1, true), Navigation.WalkedPrefix + "start")
  {
    LowerKeeps("start");
    Navigation.WalkToNeighbour(env, Example("forest", 0, 1, true), "start");
  }

  /** Holding the teleporter, the player may teleport to the visited forest. */
  lemma TeleportToForest()
    ensures (LowerKeeps("forest");
             Navigation.Teleport(Example("start", 1, 1, true), ["forest"])
               == Response(Example("forest", 1, 2, true), Navigation.TeleportedPrefix + "forest"))
  {
    LowerKeeps("forest");
    var g := Example("start", 1, 1, true);
    Navigation.TeleportArrives(g, ["forest"]);
    var r := Navigation.Teleport(g, ["forest"]);
    assert r.game.places == Example("forest", 1, 2, true).places;
  }

  /** From a world where no place has been arrived at yet, walking to the
      forest, taking the teleporter, walking back and teleporting to the
      forest leaves the player there holding the teleporter, with one
      arrival counted at the start and two at the forest. */
  lemma WalkTakeTeleport(env: Env)
    ensures (WalkToForest(env); TakeTeleporter(env); WalkBack(env); TeleportToForest();
             var r1 := Navigation.Walk(env, Example("start", 0, 0, false), ["forest"]);
             var r2 := Inventory.Take(env, r1.game, ["teleporter"]);
             var r3 := Navigation.Walk(env, r2.game, ["start"]);
             var r4 := Navigation.Teleport(r3.game, ["forest"]);
             && r1.text == Navigation.WalkedPrefix + "forest"
             && r2.text == Inventory.TookPrefix + "teleporter"
             && r3.text == Navigation.WalkedPrefix + "start"
             && r4 == Response(Example("forest", 1, 2, true), Navigation.TeleportedPrefix + "forest"))
  {
    WalkToForest(env);
    TakeTeleporter(env);
    WalkBack(env);
    TeleportToForest();
  }
}
