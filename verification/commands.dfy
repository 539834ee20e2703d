/**
 The handlers that only answer: `generic`, `items`, `help`, `look`, `use`
 and `exit`. None of them changes the world.
 */
module Commands {
  import opened Text
  import opened World

  const GenericMessage := "You don’t know how to do that."
  const NotCarryingMessage := "You are not carrying anything."
  const CarryingMessage := "You are carrying: "
  const CanPerformMessage := "You can perform the following commands:\n"
  const ByeMessage := "Good bye! Player 1"
  const NoUseArgs := "You didn’t tell me what to use."
  const NotCarryingItem := "You are not carrying that item."
  const CantUsePrefix := "You can’t use the "

  /** The names of the command table, in the order it is written. */
  const CommandNames: seq<string> := ["drop", "exit", "help", "items", "look", "take", "teleport", "use", "walk"]

  /** The list `help` shows after its heading: the table, comma-joined. */
  const HelpList := Join(CommandNames, ", ")

  /** `generic`: the answer to a verb with no handler. */
  function Generic(g: Game): (r: Response)
    ensures r.game == g && r.text == GenericMessage
  {
    Response(g, GenericMessage)
  }

  // ---------------------------------------------------------------------
  // items

  /** `items`: the "not carrying" answer is given exactly when the player's
      map is empty; otherwise the rendered items follow a fixed heading. */
  function Items(env: Env, g: Game): (r: Response)
    ensures r.game == g
    ensures r.text == NotCarryingMessage <==> |g.player.items| == 0
    ensures |g.player.items| > 0 ==> r.text == CarryingMessage + env.listItems(g.player.items)
  {
    if |g.player.items| == 0 then
      Response(g, NotCarryingMessage)
    else
      CarryingNotEmpty(env.listItems(g.player.items));
      Response(g, CarryingMessage + env.listItems(g.player.items))
  }

  /** The two answers of `items` cannot be confused, whatever the rendering. */
  lemma CarryingNotEmpty(list: string)
    ensures CarryingMessage + list != NotCarryingMessage
  {
    var s := CarryingMessage + list;
    assert s[8] == CarryingMessage[8] == 'c';
    assert NotCarryingMessage[8] == 'n';
  }

  // ---------------------------------------------------------------------
  // help

  /** `help`: the command table is enumerated in `order` (Go leaves the
      iteration order of a map unspecified), the names are sorted and
      joined. The answer is the same for every enumeration order and every
      state. */
  function Help(g: Game, order: seq<string>): (r: Response)
    requires multiset(order) == multiset(CommandNames)
    ensures r.game == g
    ensures r.text == CanPerformMessage + HelpList
  {
    HelpSortsTable(order);
    Response(g, CanPerformMessage + Join(Sort(order), ", "))
  }

  /** Sorting any enumeration of the table gives the table as written. */
  lemma HelpSortsTable(order: seq<string>)
    requires multiset(order) == multiset(CommandNames)
    ensures Sort(order) == CommandNames
  {
    TableSorted();
    SortedUnique(Sort(order), CommandNames);
  }

  /** The table is written in sorted order. */
  lemma TableSorted()
    ensures Sorted(CommandNames)
  {
    var c := CommandNames;
    assert Less(c[0], c[1]) by { assert c[0][0] < c[1][0]; }
    assert Less(c[1], c[2]) by { assert c[1][0] < c[2][0]; }
    assert Less(c[2], c[3]) by { assert c[2][0] < c[3][0]; }
    assert Less(c[3], c[4]) by { assert c[3][0] < c[4][0]; }
    assert Less(c[4], c[5]) by { assert c[4][0] < c[5][0]; }
    assert Less(c[5], c[6]) by {
      assert c[5][0] == c[6][0] && c[5][1] < c[6][1];
    }
    assert Less(c[6], c[7]) by { assert c[6][0] < c[7][0]; }
    assert Less(c[7], c[8]) by { assert c[7][0] < c[8][0]; }
    ChainSorted(c);
  }

  /** Consecutive strict order makes a sequence sorted. */
  lemma {:induction false} ChainSorted(s: seq<string>)
    requires forall i :: 0 <= i < |s| - 1 ==> Less(s[i], s[i + 1])
    ensures Sorted(s)
    decreases |s|
  {
    if |s| > 1 {
      ChainSorted(s[1..]);
      assert forall i :: 0 <= i < |s[1..]| ==> s[1..][i] == s[i + 1];
      forall i, j | 0 <= i < j < |s| ensures LessEq(s[i], s[j]) {
        if i == 0 && j > 1 {
          assert LessEq(s[1..][0], s[1..][j - 1]);
          LessEqTransitive(s[0], s[1], s[j]);
        } else if i > 0 {
          assert LessEq(s[1..][i - 1], s[1..][j - 1]);
        }
      }
    }
  }

  // ---------------------------------------------------------------------
  // look

  /** `look`: the `Look` hook of the current place may add a text before
      the description, or replace everything by its error. */
  function Look(env: Env, g: Game): (r: Response)
    ensures r.game == g
    ensures Current(g).look.None? ==> r.text == env.describe(Current(g))
  {
    var p := Current(g);
    if p.look.Some? then
      match env.look(p.look.value, g)
      case Err(msg) => Response(g, msg)
      case Ok(text) => Response(g, text + "\n\n" + env.describe(p))
    else
      Response(g, env.describe(p))
  }

  /** Unless the `Look` hook fails, the answer of `look` ends with the
      description of the current place, after the hook's text and a blank
      line when the hook succeeds; when it fails, its message is the whole
      answer. */
  lemma LookEndsWithDescription(env: Env, g: Game)
    ensures var p := Current(g);
            var failed := p.look.Some? && env.look(p.look.value, g).Err?;
            var t := Look(env, g).text;
            && (failed ==> t == env.look(p.look.value, g).msg)
            && (p.look.Some? && env.look(p.look.value, g).Ok? ==>
                  t == env.look(p.look.value, g).text + "\n\n" + env.describe(p))
            && (!failed ==> |t| >= |env.describe(p)| && t[|t| - |env.describe(p)|..] == env.describe(p))
  {
  }

  // ---------------------------------------------------------------------
  // use

  /** `use`: only the first argument counts; an item the player does not
      carry is refused, and one without a `Use` hook cannot be used. */
  function Use(env: Env, g: Game, args: seq<string>): (r: Response)
    ensures r.game == g
    ensures |args| == 0 ==> r.text == NoUseArgs
    ensures |args| > 0 && !HasItem(g.player.items, args[0]) ==> r.text == NotCarryingItem
    ensures |args| > 0 && HasItem(g.player.items, args[0]) && g.player.items[args[0]].use.None? ==>
              r.text == CantUsePrefix + args[0]
  {
    if |args| == 0 then
      Response(g, NoUseArgs)
    else
      var name := args[0];
      if name in g.player.items then
        var it := g.player.items[name];
        if it.use.Some? then Response(g, env.use(it.use.value, g))
        else Response(g, CantUsePrefix + name)
      else
        Response(g, NotCarryingItem)
  }

  /** Arguments after the first are ignored by `use`. */
  lemma UseIgnoresExtraArgs(env: Env, g: Game, args: seq<string>)
    requires |args| > 0
    ensures Use(env, g, args) == Use(env, g, [args[0]])
  {
  }

  /** A carried item with a `Use` hook answers with the hook's text. */
  lemma UseRunsHook(env: Env, g: Game, name: string)
    requires HasItem(g.player.items, name) && g.player.items[name].use.Some?
    ensures Use(env, g, [name]).text == env.use(g.player.items[name].use.value, g)
  {
  }

  // ---------------------------------------------------------------------
  // exit

  /** `exit`: says good bye; stopping the shell is not part of the state. */
  function Exit(g: Game): (r: Response)
    ensures r.game == g && r.text == ByeMessage
  {
    Response(g, ByeMessage)
  }
}
