/**
 The command table of `Game.commands` as a verb datatype, the dispatch of a
 verb and its arguments to the handlers, and the invariants every command
 keeps: item conservation, unique item names, resolvable paths, a
 catalogued position and visit counts that only grow.
 */
module Interpreter {
  import opened Text
  import opened World
  import Inventory
  import Navigation
  import Commands

  datatype Verb = Drop | Exit | Help | Items | Look | Take | Teleport | Use | Walk

  /** The name a verb is registered under. */
  function VerbName(v: Verb): string
  {
    match v
    case Drop => "drop"
    case Exit => "exit"
    case Help => "help"
    case Items => "items"
    case Look => "look"
    case Take => "take"
    case Teleport => "teleport"
    case Use => "use"
    case Walk => "walk"
  }

  /** The lookup of a typed verb in the command table; `None` sends the
      line to `generic`. */
  function ParseVerb(s: string): Option<Verb>
  {
    if s == "drop" then Some(Drop)
    else if s == "exit" then Some(Exit)
    else if s == "help" then Some(Help)
    else if s == "items" then Some(Items)
    else if s == "look" then Some(Look)
    else if s == "take" then Some(Take)
    else if s == "teleport" then Some(Teleport)
    else if s == "use" then Some(Use)
    else if s == "walk" then Some(Walk)
    else None
  }

  /** Parsing and naming are inverse: every verb is found under its name,
      and a name is found only when it is a verb's name. */
  lemma ParseVerbName(v: Verb, s: string)
    ensures ParseVerb(VerbName(v)) == Some(v)
    ensures ParseVerb(s) == Some(v) <==> s == VerbName(v)
  {
  }

  /** The verbs are exactly the names `help` lists. */
  lemma VerbsAreTable()
    ensures forall v :: VerbName(v) in Commands.CommandNames
    ensures forall s :: s in Commands.CommandNames ==> ParseVerb(s).Some?
    ensures forall s :: ParseVerb(s).Some? ==> s in Commands.CommandNames
  {
    forall v ensures VerbName(v) in Commands.CommandNames {
      match v
      case Drop => assert Commands.CommandNames[0] == "drop";
      case Exit => assert Commands.CommandNames[1] == "exit";
      case Help => assert Commands.CommandNames[2] == "help";
      case Items => assert Commands.CommandNames[3] == "items";
      case Look => assert Commands.CommandNames[4] == "look";
      case Take => assert Commands.CommandNames[5] == "take";
      case Teleport => assert Commands.CommandNames[6] == "teleport";
      case Use => assert Commands.CommandNames[7] == "use";
      case Walk => assert Commands.CommandNames[8] == "walk";
    }
  }

  /** What a verb needs of the state so that the Go code does not
      dereference a missing place: a teleport target and every path of the
      current place are catalogued. */
  ghost predicate SafeVerb(g: Game, v: Verb, args: seq<string>)
  {
    && (v == Teleport ==> Navigation.TeleportTargetKnown(g, args))
    && (v == Walk ==> Navigation.WalkSafe(g))
  }

  /** The same demand on a typed command line; a verb without a handler
      needs nothing. */
  ghost predicate Safe(g: Game, verb: string, args: seq<string>)
  {
    ParseVerb(verb).Some? ==> SafeVerb(g, ParseVerb(verb).value, args)
  }

  /** The player stays where they are and no visit count changes. */
  ghost predicate StaysPut(g: Game, g': Game)
  {
    && g'.player.position == g.player.position
    && g'.places.Keys == g.places.Keys
    && forall k :: k in g.places ==> g'.places[k].visitCount == g.places[k].visitCount
  }

  /** A changed position is a catalogued place whose arrivals were counted. */
  ghost predicate ArrivalCounted(g: Game, g': Game)
  {
    g'.player.position != g.player.position ==>
      && g'.player.position in g.places
      && g'.player.position in g'.places
      && g'.places[g'.player.position].visitCount > g.places[g'.player.position].visitCount
  }

  lemma OnlyItemsChangeStaysPut(g: Game, g': Game)
    requires OnlyItemsChange(g, g')
    ensures Evolves(g, g') && StaysPut(g, g') && ArrivalCounted(g, g')
  {
    OnlyItemsChangeEvolves(g, g');
    forall k | k in g.places ensures g'.places[k].visitCount == g.places[k].visitCount {
      assert g'.places[k] == g.places[k].(items := g'.places[k].items);
    }
  }

  lemma UnchangedStaysPut(g: Game)
    ensures Evolves(g, g) && StaysPut(g, g) && SameItems(g, g) && ArrivalCounted(g, g)
  {
  }

  /** The handlers that only answer. */
  function Query(env: Env, g: Game, order: seq<string>, v: Verb, args: seq<string>): (r: Response)
    requires multiset(order) == multiset(Commands.CommandNames)
    requires v in {Exit, Help, Items, Look, Use}
    ensures r.game == g
  {
    match v
    case Exit => Commands.Exit(g)
    case Help => Commands.Help(g, order)
    case Items => Commands.Items(env, g)
    case Look => Commands.Look(env, g)
    case Use => Commands.Use(env, g, args)
  }


  /** The handler the table registers for a verb; `order` is the
      iteration order of the table that `help` sees. */
  function Handle(env: Env, g: Game, order: seq<string>, v: Verb, args: seq<string>): (r: Response)
    requires multiset(order) == multiset(Commands.CommandNames)
    requires SafeVerb(g, v, args)
    ensures Evolves(g, r.game)
    ensures v != Teleport && v != Walk ==> StaysPut(g, r.game)
    ensures v != Take && v != Drop ==> SameItems(g, r.game)
    ensures ArrivalCounted(g, r.game)
  {
    match v
    case Drop =>
      var r := Inventory.Drop(g, args);
      OnlyItemsChangeStaysPut(g, r.game);
      r
    case Take =>
      var r := Inventory.Take(env, g, args);
      OnlyItemsChangeStaysPut(g, r.game);
      r
    case Teleport => Navigation.Teleport(g, args)
    case Walk => Navigation.Walk(env, g, args)
    case _ =>
      var r := Query(env, g, order, v, args);
      UnchangedStaysPut(g);
      r
  }

  /** Runs one command line: a verb outside the table goes to `generic`. */
  function Dispatch(env: Env, g: Game, order: seq<string>, verb: string, args: seq<string>): (r: Response)
    requires multiset(order) == multiset(Commands.CommandNames)
    requires Safe(g, verb, args)
    ensures Evolves(g, r.game)
    ensures ParseVerb(verb).None? ==> r.game == g && r.text == Commands.GenericMessage
    ensures ParseVerb(verb) != Some(Teleport) && ParseVerb(verb) != Some(Walk) ==> StaysPut(g, r.game)
    ensures ParseVerb(verb) != Some(Take) && ParseVerb(verb) != Some(Drop) ==> SameItems(g, r.game)
    ensures ArrivalCounted(g, r.game)
  {
    match ParseVerb(verb)
    case None => Commands.Generic(g)
    case Some(v) => Handle(env, g, order, v, args)
  }

  /** A state whose paths resolve and whose position is catalogued can
      always be walked from. */
  lemma ValidWalkSafe(g: Game)
    requires Valid(g)
    ensures Navigation.WalkSafe(g)
  {
  }

  /** The catalog keeps its paths, so they keep resolving. */
  lemma EvolvesKeepsPaths(g: Game, g': Game)
    requires PathsResolve(g.places) && Evolves(g, g')
    ensures PathsResolve(g'.places)
  {
    forall k, t | k in g'.places && t in g'.places[k].paths ensures t in g'.places {
      assert t in g.places[k].paths;
    }
  }

  /** Every command keeps the interpreter's invariant and neither creates
      nor loses an item. */
  lemma DispatchKeepsInvariants(env: Env, g: Game, order: seq<string>, verb: string, args: seq<string>)
    requires multiset(order) == multiset(Commands.CommandNames)
    requires Valid(g)
    requires ParseVerb(verb) == Some(Teleport) ==> Navigation.TeleportTargetKnown(g, args)
    ensures Safe(g, verb, args)
    ensures var r := Dispatch(env, g, order, verb, args);
            Valid(r.game) && AllItems(r.game) == AllItems(g)
  {
    ValidWalkSafe(g);
    if ParseVerb(verb).Some? {
      HandleKeepsInvariants(env, g, order, ParseVerb(verb).value, args);
    } else {
      SameItemsKeepsInvariants(g, g);
    }
  }

  lemma HandleKeepsInvariants(env: Env, g: Game, order: seq<string>, v: Verb, args: seq<string>)
    requires multiset(order) == multiset(Commands.CommandNames)
    requires Valid(g) && SafeVerb(g, v, args)
    ensures var r := Handle(env, g, order, v, args);
            Valid(r.game) && AllItems(r.game) == AllItems(g)
  {
    if v == Take {
      assert Handle(env, g, order, v, args) == Inventory.Take(env, g, args);
      TakeKeepsInvariants(env, g, args);
    } else if v == Drop {
      assert Handle(env, g, order, v, args) == Inventory.Drop(g, args);
      DropKeepsInvariants(g, args);
    } else {
      OtherVerbsKeepInvariants(env, g, order, v, args);
    }
  }

  /** The verbs other than `take` and `drop` leave every item map alone. */
  lemma OtherVerbsKeepInvariants(env: Env, g: Game, order: seq<string>, v: Verb, args: seq<string>)
    requires multiset(order) == multiset(Commands.CommandNames)
    requires v in {Exit, Help, Items, Look, Use, Teleport, Walk}
    requires Valid(g) && SafeVerb(g, v, args)
    ensures var r := Handle(env, g, order, v, args);
            Valid(r.game) && AllItems(r.game) == AllItems(g)
  {
    var r := Handle(env, g, order, v, args);
    assert Evolves(g, r.game) && SameItems(g, r.game) && ArrivalCounted(g, r.game);
    SameItemsKeepsInvariants(g, r.game);
  }

  lemma TakeKeepsInvariants(env: Env, g: Game, args: seq<string>)
    requires Valid(g)
    ensures var g' := Inventory.Take(env, g, args).game;
            Valid(g') && AllItems(g') == AllItems(g)
  {
    var g' := Inventory.Take(env, g, args).game;
    Inventory.TakeConserves(env, g, args);
    OnlyItemsChangeEvolves(g, g');
    StaysValid(g, g');
  }

  lemma DropKeepsInvariants(g: Game, args: seq<string>)
    requires Valid(g)
    ensures var g' := Inventory.Drop(g, args).game;
            Valid(g') && AllItems(g') == AllItems(g)
  {
    var g' := Inventory.Drop(g, args).game;
    Inventory.DropConserves(g, args);
    OnlyItemsChangeEvolves(g, g');
    StaysValid(g, g');
  }

  /** A command that leaves every item map alone keeps the invariant when
      it moves the player only to catalogued places. */
  lemma SameItemsKeepsInvariants(g: Game, g': Game)
    requires Valid(g) && Evolves(g, g') && SameItems(g, g') && ArrivalCounted(g, g')
    ensures Valid(g') && AllItems(g') == AllItems(g)
  {
    SameItemsKeepsUniqueNames(g, g');
    SameItemsSameBag(g, g');
    StaysValid(g, g');
  }

  /** A successor that evolves the catalog, keeps names unique and stands
      on a catalogued place is valid. */
  lemma StaysValid(g: Game, g': Game)
    requires Valid(g) && Evolves(g, g') && UniqueNames(g')
    requires g'.player.position == g.player.position || g'.player.position in g.places
    ensures Valid(g')
  {
    EvolvesKeepsPaths(g, g');
  }

  /** Equal item maps hold the same items. */
  lemma SameItemsSameBag(g: Game, g': Game)
    requires SameItems(g, g')
    ensures AllItems(g') == AllItems(g)
  {
    assert ItemsOf(g'.places) == ItemsOf(g.places);
  }

  // ---------------------------------------------------------------------
  // sessions

  /** A typed line: the verb and its argument tokens. */
  datatype Command = Command(verb: string, args: seq<string>)

  /** The state after a session and the answers it printed, one per command run. */
  datatype Session = Session(game: Game, answers: seq<string>)

  /** Runs the commands in turn. `exit` stops the shell, so nothing after it
      runs. A teleport to a place missing from the catalog makes the Go code
      dereference nil; the session ends there without an answer. Along the
      whole session the invariant holds, no item is created or lost and no
      visit count goes down. */
  ghost function Play(env: Env, g: Game, order: seq<string>, cmds: seq<Command>): (s: Session)
    requires multiset(order) == multiset(Commands.CommandNames)
    requires Valid(g)
    ensures Valid(s.game) && AllItems(s.game) == AllItems(g) && Evolves(g, s.game)
    ensures |s.answers| <= |cmds|
    decreases |cmds|
  {
    if |cmds| == 0 then Session(g, [])
    else
      var c := cmds[0];
      if !Safe(g, c.verb, c.args) then Session(g, [])
      else
        DispatchKeepsInvariants(env, g, order, c.verb, c.args);
        var r := Dispatch(env, g, order, c.verb, c.args);
        if ParseVerb(c.verb) == Some(Exit) then Session(r.game, [r.text])
        else
          var rest := Play(env, r.game, order, cmds[1..]);
          EvolvesTransitive(g, r.game, rest.game);
          Session(rest.game, [r.text] + rest.answers)
  }

  /** Every teleport with one argument names a place of the catalog. */
  ghost predicate TeleportsCatalogued(places: map<string, Place>, cmds: seq<Command>)
  {
    forall i :: 0 <= i < |cmds| && ParseVerb(cmds[i].verb) == Some(Teleport) && |cmds[i].args| == 1 ==>
      Lower(cmds[i].args[0]) in places
  }

  lemma TeleportsCataloguedTail(places: map<string, Place>, places': map<string, Place>, cmds: seq<Command>)
    requires |cmds| > 0 && TeleportsCatalogued(places, cmds) && places'.Keys == places.Keys
    requires forall i :: 0 <= i < |cmds| ==> ParseVerb(cmds[i].verb) != Some(Exit)
    ensures TeleportsCatalogued(places', cmds[1..])
    ensures forall i :: 0 <= i < |cmds[1..]| ==> ParseVerb(cmds[1..][i].verb) != Some(Exit)
  {
    var rest := cmds[1..];
    forall i | 0 <= i < |rest| && ParseVerb(rest[i].verb) == Some(Teleport) && |rest[i].args| == 1
      ensures Lower(rest[i].args[0]) in places'
    {
      assert rest[i] == cmds[i + 1];
    }
    forall i | 0 <= i < |rest| ensures ParseVerb(rest[i].verb) != Some(Exit) {
      assert rest[i] == cmds[i + 1];
    }
  }

  /** A safe command other than `exit` answers and hands its state on to
      the rest of the session. */
  lemma PlayStep(env: Env, g: Game, order: seq<string>, cmds: seq<Command>)
    requires multiset(order) == multiset(Commands.CommandNames)
    requires Valid(g) && |cmds| > 0
    requires Safe(g, cmds[0].verb, cmds[0].args) && ParseVerb(cmds[0].verb) != Some(Exit)
    ensures (DispatchKeepsInvariants(env, g, order, cmds[0].verb, cmds[0].args);
             var r := Dispatch(env, g, order, cmds[0].verb, cmds[0].args);
             var rest := Play(env, r.game, order, cmds[1..]);
             Play(env, g, order, cmds).answers == [r.text] + rest.answers)
  {
    DispatchKeepsInvariants(env, g, order, cmds[0].verb, cmds[0].args);
  }

  /** A session none of whose commands is `exit` and whose teleports with
      one argument all name catalogued places answers every command, in
      order. The catalog keeps its keys along the session, so the
      condition is on the starting catalog. */
  lemma {:induction false} PlayAnswersEach(env: Env, g: Game, order: seq<string>, cmds: seq<Command>)
    requires multiset(order) == multiset(Commands.CommandNames)
    requires Valid(g)
    requires forall i :: 0 <= i < |cmds| ==> ParseVerb(cmds[i].verb) != Some(Exit)
    requires TeleportsCatalogued(g.places, cmds)
    ensures |Play(env, g, order, cmds).answers| == |cmds|
    ensures |cmds| > 0 ==> Play(env, g, order, cmds).answers[0] == Dispatch(env, g, order, cmds[0].verb, cmds[0].args).text
    decreases |cmds|
  {
    if |cmds| > 0 {
      var c := cmds[0];
      ValidWalkSafe(g);
      DispatchKeepsInvariants(env, g, order, c.verb, c.args);
      var r := Dispatch(env, g, order, c.verb, c.args);
      TeleportsCataloguedTail(g.places, r.game.places, cmds);
      PlayAnswersEach(env, r.game, order, cmds[1..]);
      PlayStep(env, g, order, cmds);
    }
  }

  /** Nothing runs after `exit`, whatever its arguments. */
  lemma ExitEndsSession(env: Env, g: Game, order: seq<string>, args: seq<string>, rest: seq<Command>)
    requires multiset(order) == multiset(Commands.CommandNames)
    requires Valid(g)
    ensures Play(env, g, order, [Command("exit", args)] + rest) == Session(g, [Commands.ByeMessage])
  {
    var cmds := [Command("exit", args)] + rest;
    assert cmds[0] == Command("exit", args);
    assert ParseVerb("exit") == Some(Exit);
    assert Safe(g, "exit", args);
    assert Handle(env, g, order, Exit, args) == Response(g, Commands.ByeMessage);
    assert Dispatch(env, g, order, "exit", args) == Response(g, Commands.ByeMessage);
  }
}
