# Adventure command interpreter, modelled in Dafny

This project models the command interpreter of a small text adventure
(`game/game.go`). A command is a verb and its argument tokens. Each command
turns the world state into a new world state and a line of text. The world
state has three parts:

- the player's position;
- the player's item map;
- a catalog of places. Each place has a name, paths to other places, an item
  map, a visit count and optional `Look` and `Enter` hooks.

Items may carry optional `Take` and `Use` hooks.

Every handler is a pure function `(state, args) -> Response(state', text)`:

| module | file | contents |
|---|---|---|
| `Text` | `text.dfy` | `strings.Join`, ASCII `strings.ToLower`, the byte-wise string order of `sort.Strings`, an insertion sort and its uniqueness |
| `World` | `world.dfy` | the data model, `Game.Place()` with its `void` fallback, the state invariants, items as a multiset of `(name, item)` pairs |
| `Inventory` | `inventory.dfy` | `take`/`takeItem`, `drop`/`dropItem` |
| `Navigation` | `navigation.dfy` | `teleport`/`teleportPlayerTo`, `walk` |
| `Commands` | `commands.dfy` | `generic`, `items`, `help`, `look`, `use`, `exit` |
| `Interpreter` | `interpreter.dfy` | the command table as a `Verb` datatype, dispatch, the invariants every command keeps, sessions of commands |
| `Scenario` | `scenario.dfy` | a two-place example world and a walk–take–teleport run through it |

Content hooks (`Look`, `Enter`, `Take`, `Use`) and the two renderers
(`Place.describe`, `Items.String`) are defined outside the interpreter. The
model treats them as uninterpreted pure functions, passed in as an `Env`.

The helpers `Player.AddItem`, `Place.AddItem`, `Player.HasItem` and
`Place.IsNextTo` come from files that are not part of this model. They are
modelled by their evident meaning:

- map insert, overwriting an entry of the same name;
- key membership;
- membership in `Paths`.

The main invariant (`World.Valid`) has three parts:

- the player stands on a catalogued place;
- every path names a catalogued place;
- no item name is held by two containers.

Every command whose teleport target, if any, is catalogued keeps `Valid`.
Such a command also keeps the multiset of all items, over the player and all
places. Visit counts never go down, and the catalog keeps its keys, names,
paths and hooks. A teleport to a place missing from the catalog makes the Go
code dereference nil.

Some behaviour of the code, modelled as written:

- `take` stops at the first taken item with a `Take` hook and answers with the
  hook's text alone. Items named earlier have already moved; later names are
  untouched.
- `walk` evaluates each token from the position the earlier tokens reached. A
  token naming the current place ends the walk at once: earlier moves are kept
  and their lines are dropped.
- `teleport` checks for the teleporter before it counts the arguments, and it
  never runs the target's `Enter` hook.
- When the position is not a catalog key, `Place()` makes up a fresh `void`
  place whose item map is nil (game/game.go:62). `dropItem` first deletes the
  item from the player (game/game.go:179) and then calls `AddItem` on that
  place. `Place.AddItem` is not part of this model. Here it is an insert into
  a map that nobody keeps, so the item leaves the world
  (`Inventory.DropInVoidLosesItem`). If `AddItem` writes the nil map
  directly, the Go program panics at that point instead. Either way, item
  conservation needs a catalogued position, which `Valid` provides.
- The iteration order of Go's command map is unspecified. `help` is modelled
  with the order as a parameter, and its answer is proved to be the same for
  every order.

## Model

| member | source | states |
|---|---|---|
| World.Current | game/game.go:57-63 | the current place is the catalog entry under the position; without one it is a place named "void" with the single path "nowhere", no items and no hooks |
| Text.Lower | game/game.go:241 | lower-casing keeps the length, leaves no upper-case letter, shifts each upper-case ASCII letter to its lower-case counterpart and keeps every other character |
| Text.LowerIdempotent | game/game.go:241 | a lower-cased name has no upper-case letter, lower-casing changes nothing in such a name, and lower-casing twice equals lower-casing once |
| Text.Sort | game/game.go:100 | the sorted names are ordered byte-wise and are a permutation of the input |
| Text.SortedUnique | game/game.go:100 | two sorted sequences with the same elements are equal |
| Text.SortIgnoresOrder | game/game.go:96-100 | sorting any rearrangement of the names gives the same sequence |
| Text.LessTransitive | game/game.go:100 | the string order used for sorting is transitive |
| Text.LessTotal | game/game.go:100 | any two different strings are ordered one way or the other |
| Inventory.TakeItem | game/game.go:144-155 | an item is found exactly when the current place holds the name, the found item is the place's entry, and only item maps change |
| Inventory.Take | game/game.go:120-142 | `take` changes only item maps, and with no arguments it answers "You didn’t tell me what to take." and changes nothing |
| Inventory.TransferMovesNamedItems | game/game.go:144-155 | on a catalogued place the named entries leave the place's map and join the player's; in the void nothing moves |
| Inventory.TakeWithoutHooks | game/game.go:127-141 | without `Take` hooks, `take` moves every named item found; it answers with one "You took the <name>" line per name found, in argument order and joined by newlines, and with the nothing-exists message exactly when no argument names an item of the place |
| Inventory.Found | game/game.go:127-141 | the names an item loop acts on are exactly the arguments naming an entry of the item map, each found once; there are none exactly when no argument names an entry |
| Inventory.TakeEachReports | game/game.go:127-141 | without `Take` hooks, the take loop adds one confirmation per name found to the lines it already has and answers the joined lines, or the nothing-exists message when there are none |
| Inventory.TakeStopsAtHook | game/game.go:127-131 | the first taken item with a `Take` hook ends the command with that hook's text; the names before it have moved and the names after it are untouched |
| Inventory.TakeNothing | game/game.go:120-141 | when no argument names an item of the place, the state is unchanged and the answer is the no-arguments or the nothing-exists message |
| Inventory.TakeItemConserves | game/game.go:144-155 | one transfer keeps the multiset of all items and keeps item names unique |
| Inventory.TakeConserves | game/game.go:120-155 | `take` neither creates nor loses an item and keeps item names unique |
| Inventory.DropItem | game/game.go:177-186 | the item is dropped exactly when the player carries the name, and only item maps change |
| Inventory.Drop | game/game.go:157-175 | `drop` changes only item maps, and with no arguments it answers "You didn’t tell me what to drop." and changes nothing |
| Inventory.DropMovesCarriedItems | game/game.go:157-186 | the named entries leave the player's map and are added to the current place's map (in the void, to a map nobody keeps); the answer is one "You dropped the <name>" line per carried name, in argument order and joined by newlines, and the not-carrying message exactly when no argument is carried |
| Inventory.DropEachConfirms | game/game.go:164-174 | the drop loop adds one confirmation per carried name to the lines it already has and answers the joined lines, or the not-carrying message when there are none |
| Inventory.DropNothing | game/game.go:157-175 | when no argument is carried, `drop` changes nothing and answers the no-arguments or the not-carrying message |
| Inventory.DropConserves | game/game.go:157-186 | on a catalogued place `drop` neither creates nor loses an item and keeps item names unique |
| Inventory.DropInVoidLosesItem | game/game.go:177-186 | dropping a carried item while the position is not catalogued removes exactly that item from the world |
| Inventory.TakeOne | game/game.go:127-155 | taking one hook-less item of a catalogued place moves exactly that entry to the player and answers "You took the <name>" |
| Inventory.DropOne | game/game.go:157-186 | dropping one carried item on a catalogued place moves exactly that entry to the place and answers "You dropped the <name>" |
| Inventory.TakeThenDropRestores | game/game.go:144-186 | taking a hook-less item and dropping it again gives back the original state |
| Inventory.DropThenTakeRestores | game/game.go:144-186 | dropping an item and taking it again gives back the original state |
| Navigation.Visit | game/game.go:225-226 | an arrival adds exactly one to the target's visit count and changes no other place |
| Navigation.VisitEvolves | game/game.go:259-260 | an arrival changes no item and lowers no visit count |
| Navigation.TeleportTo | game/game.go:218-229 | the state changes only when the target was visited before, and then the player stands on the target |
| Navigation.Teleport | game/game.go:206-216 | items never change and counts never drop; a changed state means the player held the teleporter, gave exactly one argument naming a visited place, and now stands on its lower-cased name |
| Navigation.TeleportRejects | game/game.go:206-222 | every rejection leaves the state unchanged; a missing teleporter is reported whatever the arguments, then a wrong argument count, then an unvisited target |
| Navigation.TeleportArrives | game/game.go:215-228 | a teleport through the gates moves the player to the lower-cased target, adds exactly one to that place's count, changes no other place and reports the target |
| Navigation.WalkStep | game/game.go:239-266 | one pass returns early exactly when the token names the current place; otherwise the state changes only by a move along a path of the current place, with one arrival counted there |
| Navigation.WalkSteps | game/game.go:238-267 | the loop keeps items, never lowers counts, produces one line per token when it runs to the end, and a changed position is a catalogued place whose count grew |
| Navigation.Walk | game/game.go:231-274 | with no arguments the answer is "You need to specify where to go." and nothing changes; otherwise, unless a token names the place already reached, the answer joins the lines of all passes, so the can't-go fallback is never given |
| Navigation.EnterFailureBlocks | game/game.go:252-257 | a failing `Enter` hook leaves the state unchanged and its message is the pass's line |
| Navigation.WalkToNeighbour | game/game.go:247-263 | a step to an adjacent place whose `Enter` hook is absent or succeeds moves the player there, counts one arrival and reports the walk |
| Navigation.WalkToStranger | game/game.go:264-266 | a step to a place that is not adjacent leaves the state unchanged and reports where the player stays |
| Navigation.WalkOnce | game/game.go:269-271 | a walk with a single token answers with that pass's line and state |
| Navigation.WalkStopsWhenAlreadyThere | game/game.go:243-245 | a token naming the place reached by the earlier tokens ends the walk: the earlier moves are kept and the later tokens are ignored |
| Commands.Generic | game/game.go:79-81 | an unknown verb changes nothing and answers "You don’t know how to do that." |
| Commands.Items | game/game.go:83-91 | `items` changes nothing and answers "You are not carrying anything." exactly when the player's map is empty; otherwise the answer is "You are carrying: " followed by the rendering of the player's items |
| Commands.CarryingNotEmpty | game/game.go:86-90 | the carrying answer can never equal the not-carrying answer |
| Commands.Help | game/game.go:93-103 | `help` changes nothing, and for every iteration order of the command table it answers the heading followed by the table's names, sorted and comma-joined |
| Commands.HelpSortsTable | game/game.go:96-100 | sorting any enumeration of the command table gives the names in sorted order |
| Commands.TableSorted | game/game.go:65-77 | the nine command names, written in table order, are sorted |
| Commands.ChainSorted | game/game.go:100 | a sequence whose neighbours are strictly ordered is sorted |
| Commands.Look | game/game.go:105-118 | `look` changes nothing, and without a `Look` hook it answers the place's description |
| Commands.LookEndsWithDescription | game/game.go:108-117 | a failing `Look` hook's message is the whole answer; a succeeding hook's text comes first, then a blank line, then the description of the current place; in every case but the failure the answer ends with that description |
| Commands.Use | game/game.go:188-204 | `use` changes nothing; no arguments, an item not carried, and a carried item without a `Use` hook each get their fixed answer |
| Commands.UseIgnoresExtraArgs | game/game.go:193 | arguments after the first do not affect `use` |
| Commands.UseRunsHook | game/game.go:195-198 | a carried item with a `Use` hook answers with that hook's text |
| Commands.Exit | game/game.go:276-280 | `exit` changes nothing and says good bye |
| Interpreter.ParseVerbName | game/game.go:65-77 | every verb is found under its registered name, and a name is found only when it is that verb's name |
| Interpreter.VerbsAreTable | game/game.go:65-77 | the verbs are exactly the names of the command table |
| Interpreter.Handle | game/game.go:65-77 | for a verb of the table, counts never drop; only `teleport` and `walk` move the player or change counts; only `take` and `drop` change items; a new position is a catalogued place whose count grew |
| Interpreter.Query | game/game.go:83-118 | the answering handlers (`exit`, `help`, `items`, `look`, `use`) leave the state unchanged |
| Interpreter.Dispatch | game/game.go:44-81 | an unknown verb goes to `generic` and changes nothing; for every verb, counts never drop, only `teleport` and `walk` move the player or change counts, only `take` and `drop` change items, and a new position is a catalogued place whose count grew |
| Interpreter.HandleKeepsInvariants | game/game.go:120-274 | every verb of the table, run on a valid state, leads to a valid state and keeps the multiset of all items |
| Interpreter.DispatchKeepsInvariants | game/game.go:120-274 | from a valid state every command whose teleport target is catalogued is safe to run, leads to a valid state and keeps the multiset of all items |
| Interpreter.Play | game/game.go:276-280 | along a session of commands, ended by `exit`, the invariant holds, no item is created or lost and no visit count goes down |
| Interpreter.PlayAnswersEach | game/game.go:65-77 | a session without `exit`, whose one-argument teleports all name catalogued places, answers every command, the first with its handler's answer |
| Interpreter.TeleportsCataloguedTail | game/game.go:206-222 | the teleport targets of the rest of a session stay catalogued, since a command keeps the catalog's keys |
| Interpreter.ExitEndsSession | game/game.go:276-280 | `exit`, with any arguments, says good bye and no later command runs |
| Scenario.WalkToForest | game/game.go:247-263 | in the example world with no arrivals counted, walking from the start to the adjacent forest moves the player there, counts the forest's first arrival and answers "You walked to the forest" |
| Scenario.TakeTeleporter | game/game.go:120-155 | taking the teleporter in the forest moves it from the forest's items to the player's and answers "You took the teleporter" |
| Scenario.WalkBack | game/game.go:247-263 | walking back to the start counts its first arrival, keeps the teleporter with the player and answers "You walked to the start" |
| Scenario.TeleportToForest | game/game.go:206-228 | holding the teleporter, the player teleports to the visited forest, a second arrival is counted there and the answer is "Teleported to forest" |
| Scenario.WalkTakeTeleport | game/game.go:120-274 | from no arrivals, the four commands in sequence give their four confirmations and leave the player in the forest with the teleporter, one arrival counted at the start and two at the forest |
| Interpreter.ValidWalkSafe | game/game.go:247-248 | in a valid state every path of the current place can be looked up |

## Left out

- The `ishell` shell is not modelled: the prompt, `Setup` with its one-letter aliases, `Start` and `printLogo`. These are terminal I/O and a third-party library. The alias `t` is registered for both `take` and `teleport`, and which one wins depends on Go's map iteration order.
- Hook bodies and their side effects are not modelled. `Look`, `Enter`, `Take` and `Use` are defined outside the interpreter and may change any state. Here they are pure and uninterpreted.
- The output of `Place.describe` and `Items.String` is not modelled; both are uninterpreted string functions.
- Text.Lower: covers only the ASCII letters of `strings.ToLower`. Unicode case folding is not modelled.
- For single commands, the nil dereferences are excluded by preconditions rather than modelled as crashes. `teleport` dereferences a target missing from the catalog (game/game.go:219-221), and `walk` dereferences a path naming no catalogued place (game/game.go:248-260). `Navigation.TeleportTargetKnown` and `Navigation.WalkSafe` rule both out.
- Navigation.Visit: `VisitCount` is an unbounded natural number. The wrap-around of Go's `int` after 2^63 arrivals is not modelled.
- `exit`'s `g.Stop()` is modelled only as the end of a session (`Interpreter.Play`); the shell itself is not modelled.
- Inventory.DropInVoidLosesItem: `Place.AddItem` is not part of this model. On the void place it is modelled as an insert into a map that is then discarded. The void place's item map is nil (game/game.go:62), so if `AddItem` assigns into it directly, the Go program panics after the delete at game/game.go:179 instead of losing the item.
- Interpreter.Play: ends a session, without an answer, at a teleport to a place missing from the catalog. The Go code dereferences nil there, and whatever follows the crash is not modelled.
