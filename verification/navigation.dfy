/**
 The `teleport` and `walk` commands: moving the player between places and
 counting the arrivals.
 */
module Navigation {
  import opened Text
  import opened World

  const Teleporter := "teleporter"
  const NeedTeleporter := "You need to have the teleporter in order to teleport."
  const SinglePlace := "You can only teleport to a single place."
  const NotVisited := "You can’t teleport to places you haven’t visited before."
  const TeleportedPrefix := "Teleported to "
  const NoDestination := "You need to specify where to go."
  const CantGoMessage := "You can’t go there!"
  const AlreadyPrefix := "You are already in the "
  const WalkedPrefix := "You walked to the "

  /** The catalog after one more arrival at `t`. */
  function Visit(places: map<string, Place>, t: string): (r: map<string, Place>)
    requires t in places
    ensures r.Keys == places.Keys
    ensures r[t].visitCount == places[t].visitCount + 1
    ensures forall k :: k in places && k != t ==> r[k] == places[k]
  {
    places[t := places[t].(visitCount := places[t].visitCount + 1)]
  }

  /** An arrival changes nothing but one visit count. */
  lemma VisitEvolves(g: Game, t: string)
    requires t in g.places
    ensures var g' := Game(g.player.(position := t), Visit(g.places, t));
            Evolves(g, g') && SameItems(g, g')
  {
  }

  // ---------------------------------------------------------------------
  // teleport

  /** Whenever the gates of `teleport` pass, the Go code dereferences the
      catalog entry of the target; it must exist. */
  ghost predicate TeleportTargetKnown(g: Game, args: seq<string>)
  {
    HasItem(g.player.items, Teleporter) && |args| == 1 ==> Lower(args[0]) in g.places
  }

  /** `teleportPlayerTo`. It never runs the target's `Enter` hook. */
  function TeleportTo(g: Game, target: string): (r: Response)
    requires target in g.places
    ensures SameItems(g, r.game) && Evolves(g, r.game)
    ensures r.game != g ==> g.places[target].visitCount > 0 && r.game.player.position == target
  {
    if g.places[target].visitCount == 0 then
      Response(g, NotVisited)
    else
      VisitEvolves(g, target);
      Response(Game(g.player.(position := target), Visit(g.places, target)), TeleportedPrefix + target)
  }

  /** `teleport`: the state changes only when the player holds the
      teleporter, names exactly one place, and that place was visited; the
      player then stands on it. */
  function Teleport(g: Game, args: seq<string>): (r: Response)
    requires TeleportTargetKnown(g, args)
    ensures SameItems(g, r.game) && Evolves(g, r.game)
    ensures r.game != g ==>
              && HasItem(g.player.items, Teleporter) && |args| == 1
              && Lower(args[0]) in g.places && g.places[Lower(args[0])].visitCount > 0
              && r.game.player.position == Lower(args[0])
  {
    if !HasItem(g.player.items, Teleporter) then
      Response(g, NeedTeleporter)
    else if |args| != 1 then
      Response(g, SinglePlace)
    else
      TeleportTo(g, Lower(args[0]))
  }

  /** Every rejection of `teleport` leaves the state as it was; the missing
      teleporter is reported first, whatever the arguments. */
  lemma TeleportRejects(g: Game, args: seq<string>)
    requires TeleportTargetKnown(g, args)
    requires !HasItem(g.player.items, Teleporter) || |args| != 1 || g.places[Lower(args[0])].visitCount == 0
    ensures Teleport(g, args).game == g
    ensures Teleport(g, args).text ==
              if !HasItem(g.player.items, Teleporter) then NeedTeleporter
              else if |args| != 1 then SinglePlace
              else NotVisited
  {
  }

  /** A teleport that passes the gates moves the player to the lower-cased
      target and counts exactly one arrival there. */
  lemma TeleportArrives(g: Game, args: seq<string>)
    requires HasItem(g.player.items, Teleporter) && |args| == 1
    requires Lower(args[0]) in g.places && g.places[Lower(args[0])].visitCount > 0
    ensures var t := Lower(args[0]);
            var r := Teleport(g, args);
            && r.game.player == g.player.(position := t)
            && r.game.places[t].visitCount == g.places[t].visitCount + 1
            && (forall k :: k in g.places && k != t ==> r.game.places[k] == g.places[k])
            && r.text == TeleportedPrefix + t
  {
  }

  // ---------------------------------------------------------------------
  // walk

  /** Every step of `walk` can look up its target: the paths out of the
      current place, and of every place, name catalogued places. */
  ghost predicate WalkSafe(g: Game)
  {
    PathsResolve(g.places) && forall t :: t in Current(g).paths ==> t in g.places
  }

  /** The outcome of one pass of the loop in `walk`: an early return, or
      the new state and the line the pass adds. */
  datatype Step = AlreadyThere(text: string) | Stepped(game: Game, line: string)

  /** The pass for one destination, taken from the position the earlier
      passes left. */
  function WalkStep(env: Env, g: Game, name: string): (s: Step)
    requires WalkSafe(g)
    ensures s.AlreadyThere? <==> Lower(name) == Current(g).name
    ensures s.Stepped? ==> WalkSafe(s.game) && SameItems(g, s.game) && Evolves(g, s.game)
    ensures s.Stepped? && s.game != g ==>
              && Lower(name) in Current(g).paths
              && s.game.player.position == Lower(name)
              && s.game.places == Visit(g.places, Lower(name))
  {
    var p := Current(g);
    var target := Lower(name);
    if p.name == target then
      AlreadyThere(AlreadyPrefix + p.name)
    else if IsNextTo(p, target) then
      var tp := g.places[target];
      if tp.enter.Some? && env.enter(tp.enter.value, g).Err? then
        Stepped(g, env.enter(tp.enter.value, g).msg)
      else
        VisitEvolves(g, target);
        Stepped(Game(g.player.(position := target), Visit(g.places, target)), WalkedPrefix + target)
    else
      Stepped(g, "You are not next to the " + target + ", staying in the " + g.player.position)
  }

  /** The loop of `walk`: either an early return or the lines of all passes. */
  datatype Walked = Stopped(game: Game, text: string) | Finished(game: Game, lines: seq<string>)

  function WalkSteps(env: Env, g: Game, names: seq<string>): (w: Walked)
    requires WalkSafe(g)
    ensures WalkSafe(w.game) && SameItems(g, w.game) && Evolves(g, w.game)
    ensures w.Finished? ==> |w.lines| == |names|
    ensures w.game.player.position != g.player.position ==>
              && w.game.player.position in g.places
              && w.game.places[w.game.player.position].visitCount > g.places[w.game.player.position].visitCount
    decreases |names|
  {
    if |names| == 0 then
      Finished(g, [])
    else
      match WalkStep(env, g, names[0])
      case AlreadyThere(text) => Stopped(g, text)
      case Stepped(g1, line) =>
        match WalkSteps(env, g1, names[1..])
        case Stopped(g2, text) => Stopped(g2, text)
        case Finished(g2, lines) => Finished(g2, [line] + lines)
  }

  /** `walk`: items never change, visit counts only grow, and when the
      player ends up somewhere else, arrivals there were counted. With at
      least one destination the "can't go" fallback is never the answer:
      every pass contributes a line. */
  function Walk(env: Env, g: Game, args: seq<string>): (r: Response)
    requires WalkSafe(g)
    ensures WalkSafe(r.game) && SameItems(g, r.game) && Evolves(g, r.game)
    ensures r.game.player.position != g.player.position ==>
              && r.game.player.position in g.places
              && r.game.places[r.game.player.position].visitCount > g.places[r.game.player.position].visitCount
    ensures |args| == 0 ==> r == Response(g, NoDestination)
    ensures |args| > 0 && WalkSteps(env, g, args).Finished? ==>
              r.text == Join(WalkSteps(env, g, args).lines, "\n")
  {
    if |args| == 0 then
      Response(g, NoDestination)
    else
      match WalkSteps(env, g, args)
      case Stopped(g', text) => Response(g', text)
      case Finished(g', lines) => Response(g', if |lines| > 0 then Join(lines, "\n") else CantGoMessage)
  }

  /** A failing `Enter` hook rejects the step: nothing changes and its
      message is the step's line. */
  lemma EnterFailureBlocks(env: Env, g: Game, name: string)
    requires WalkSafe(g)
    requires Lower(name) != Current(g).name && Lower(name) in Current(g).paths
    requires g.places[Lower(name)].enter.Some?
    requires env.enter(g.places[Lower(name)].enter.value, g).Err?
    ensures WalkStep(env, g, name) == Stepped(g, env.enter(g.places[Lower(name)].enter.value, g).msg)
  {
  }

  /** A step to an adjacent place whose `Enter` hook is absent or succeeds
      moves the player there and counts one arrival. */
  lemma WalkToNeighbour(env: Env, g: Game, name: string)
    requires WalkSafe(g)
    requires Lower(name) != Current(g).name && Lower(name) in Current(g).paths
    requires var tp := g.places[Lower(name)]; tp.enter.None? || env.enter(tp.enter.value, g).Ok?
    ensures var t := Lower(name);
            Walk(env, g, [name]) == Response(Game(g.player.(position := t), Visit(g.places, t)), WalkedPrefix + t)
  {
    WalkOnce(env, g, name);
  }

  /** A step to a place that is not adjacent leaves the state as it was. */
  lemma WalkToStranger(env: Env, g: Game, name: string)
    requires WalkSafe(g)
    requires Lower(name) != Current(g).name && Lower(name) !in Current(g).paths
    ensures Walk(env, g, [name])
              == Response(g, "You are not next to the " + Lower(name) + ", staying in the " + g.player.position)
  {
    WalkOnce(env, g, name);
  }

  /** A walk with one destination answers with that pass's line. */
  lemma WalkOnce(env: Env, g: Game, name: string)
    requires WalkSafe(g)
    requires WalkStep(env, g, name).Stepped?
    ensures var s := WalkStep(env, g, name);
            Walk(env, g, [name]) == Response(s.game, s.line)
  {
    var s := WalkStep(env, g, name);
    assert [name][1..] == [];
    assert WalkSteps(env, s.game, []) == Finished(s.game, []);
    assert WalkSteps(env, g, [name]) == Finished(s.game, [s.line]);
    assert Join([s.line], "\n") == s.line;
  }

  /** A destination naming the place reached by the earlier passes ends the
      walk at once: the earlier moves are kept, their lines are dropped and
      the later destinations are ignored. */
  lemma WalkStopsWhenAlreadyThere(env: Env, g: Game, pre: seq<string>, name: string, post: seq<string>)
    requires WalkSafe(g)
    requires WalkSteps(env, g, pre).Finished?
    requires Lower(name) == Current(WalkSteps(env, g, pre).game).name
    ensures var g1 := WalkSteps(env, g, pre).game;
            Walk(env, g, pre + [name] + post) == Response(g1, AlreadyPrefix + Current(g1).name)
  {
    WalkStepsStopsWhenAlreadyThere(env, g, pre, name, post);
  }

  lemma {:induction false} WalkStepsStopsWhenAlreadyThere(env: Env, g: Game, pre: seq<string>, name: string, post: seq<string>)
    requires WalkSafe(g)
    requires WalkSteps(env, g, pre).Finished?
    requires Lower(name) == Current(WalkSteps(env, g, pre).game).name
    ensures var g1 := WalkSteps(env, g, pre).game;
            WalkSteps(env, g, pre + [name] + post) == Stopped(g1, AlreadyPrefix + Current(g1).name)
    decreases |pre|
  {
    var names := pre + [name] + post;
    if |pre| == 0 {
      assert names[0] == name;
    } else {
      assert names[0] == pre[0] && names[1..] == pre[1..] + [name] + post;
      var g1 := WalkStep(env, g, pre[0]).game;
      WalkStepsStopsWhenAlreadyThere(env, g1, pre[1..], name, post);
    }
  }
}
