/**
 The world state the interpreter works on: places with their paths, items and
 visit counts, the player's position and items, and the content hooks that
 places and items may carry. Hooks are named by a `HookId`; what a hook
 answers is given by an `Env`, so the model treats every hook (and the
 renderers `describe` and `Items.String`) as an uninterpreted pure function.
 */
module World {

  datatype Option<T> = None | Some(value: T)

  type HookId = nat

  /** What a `Look` or `Enter` hook returns: some text, or an error whose
      message the interpreter shows instead. */
  datatype HookResult = Ok(text: string) | Err(msg: string)

  /** An item; the map that holds it supplies its name. */
  datatype Item = Item(take: Option<HookId>, use: Option<HookId>)

  type ItemMap = map<string, Item>

  datatype Place = Place(
    name: string,
    paths: seq<string>,
    items: ItemMap,
    visitCount: nat,
    look: Option<HookId>,
    enter: Option<HookId>)

  datatype Player = Player(position: string, items: ItemMap)

  datatype Game = Game(player: Player, places: map<string, Place>)

  /** What every command handler returns: the new state and the text shown. */
  datatype Response = Response(game: Game, text: string)

  /** The behaviour defined outside the interpreter. */
  datatype Env = Env(
    look: (HookId, Game) -> HookResult,
    enter: (HookId, Game) -> HookResult,
    take: (HookId, Game) -> string,
    use: (HookId, Game) -> string,
    describe: Place -> string,
    listItems: ItemMap -> string)

  /** The place `Place()` makes up when the position is not in the catalog. */
  const Void := Place("void", ["nowhere"], map[], 0, None, None)

  /** `Game.Place()`: the place stored under the player's position, or a
      fresh void place with no items, the single path "nowhere" and no hooks. */
  function Current(g: Game): (p: Place)
    ensures g.player.position in g.places ==> p == g.places[g.player.position]
    ensures g.player.position !in g.places ==> p.name == "void" && p.paths == ["nowhere"]
    ensures g.player.position !in g.places ==> p.items == map[] && p.look.None? && p.enter.None?
  {
    if g.player.position in g.places then g.places[g.player.position] else Void
  }

  /** Writes a changed current place back. The Go code mutates the place
      in the catalog; the void place is a fresh object nobody keeps, so
      changes to it are lost. */
  function WithCurrent(g: Game, p: Place): Game
  {
    if g.player.position in g.places then g.(places := g.places[g.player.position := p]) else g
  }

  /** `Player.AddItem` and `Place.AddItem`: insert, overwriting an entry of the same name. */
  function AddItem(items: ItemMap, name: string, it: Item): ItemMap
  {
    items[name := it]
  }

  /** `Player.HasItem`. */
  predicate HasItem(items: ItemMap, name: string)
  {
    name in items
  }

  /** `Place.IsNextTo`. */
  predicate IsNextTo(p: Place, target: string)
  {
    target in p.paths
  }

  // ---------------------------------------------------------------------
  // Invariants

  /** Every path of every place names a place of the catalog. */
  ghost predicate PathsResolve(places: map<string, Place>)
  {
    forall k, t :: k in places && t in places[k].paths ==> t in places
  }

  /** No item name is held by two containers at once. */
  ghost predicate UniqueNames(g: Game)
  {
    && (forall k :: k in g.places ==> g.places[k].items.Keys !! g.player.items.Keys)
    && (forall k1, k2 :: k1 in g.places && k2 in g.places && k1 != k2 ==>
          g.places[k1].items.Keys !! g.places[k2].items.Keys)
  }

  /** The states the interpreter keeps: the player stands on a catalogued
      place, all paths resolve and item names are unique across containers. */
  ghost predicate Valid(g: Game)
  {
    g.player.position in g.places && PathsResolve(g.places) && UniqueNames(g)
  }

  /** The catalog keeps its shape (keys, names, paths, hooks) and no visit
      count goes down. */
  ghost predicate Evolves(g: Game, g': Game)
  {
    && g'.places.Keys == g.places.Keys
    && forall k :: k in g.places ==>
         && g'.places[k].name == g.places[k].name
         && g'.places[k].paths == g.places[k].paths
         && g'.places[k].look == g.places[k].look
         && g'.places[k].enter == g.places[k].enter
         && g'.places[k].visitCount >= g.places[k].visitCount
  }

  /** Only item maps may differ: same position, same places apart from their items. */
  ghost predicate OnlyItemsChange(g: Game, g': Game)
  {
    && g'.player.position == g.player.position
    && g'.places.Keys == g.places.Keys
    && forall k :: k in g.places ==> g'.places[k] == g.places[k].(items := g'.places[k].items)
  }

  /** No item map differs, neither the player's nor any place's. */
  ghost predicate SameItems(g: Game, g': Game)
  {
    && g'.player.items == g.player.items
    && g'.places.Keys == g.places.Keys
    && forall k :: k in g.places ==> g'.places[k].items == g.places[k].items
  }

  lemma EvolvesTransitive(g1: Game, g2: Game, g3: Game)
    requires Evolves(g1, g2) && Evolves(g2, g3)
    ensures Evolves(g1, g3)
  {
  }

  lemma OnlyItemsChangeEvolves(g: Game, g': Game)
    requires OnlyItemsChange(g, g')
    ensures Evolves(g, g')
  {
    forall k | k in g.places
      ensures g'.places[k].visitCount == g.places[k].visitCount
    {
      assert g'.places[k] == g.places[k].(items := g'.places[k].items);
    }
  }

  lemma SameItemsKeepsUniqueNames(g: Game, g': Game)
    requires SameItems(g, g') && UniqueNames(g)
    ensures UniqueNames(g')
  {
  }

  // ---------------------------------------------------------------------
  // Item bags: every (name, item) pair held anywhere in the world

  function Bag(items: ItemMap): multiset<(string, Item)>
  {
    multiset(items.Items)
  }

  /** The item maps of all places, by place key. */
  function ItemsOf(places: map<string, Place>): map<string, ItemMap>
  {
    map k | k in places :: places[k].items
  }

  /** The sum of the bags of a family of item maps. */
  ghost function BagSum(m: map<string, ItemMap>): multiset<(string, Item)>
    decreases |m|
  {
    if |m| == 0 then multiset{}
    else
      var k :| k in m;
      assert |m - {k}| < |m| by { assert (m - {k}).Keys == m.Keys - {k}; }
      Bag(m[k]) + BagSum(m - {k})
  }

  /** Everything the player and all catalogued places hold. */
  ghost function AllItems(g: Game): multiset<(string, Item)>
  {
    Bag(g.player.items) + BagSum(ItemsOf(g.places))
  }

  lemma RemoveShrinks<V>(m: map<string, V>, k: string)
    requires k in m
    ensures |m - {k}| < |m|
  {
    assert (m - {k}).Keys == m.Keys - {k};
  }

  lemma RemoveCommutes<V>(m: map<string, V>, j: string, k: string)
    ensures m - {j} - {k} == m - {k} - {j}
  {
  }

  /** BagSum may peel off any key, not only the one its definition picks. */
  lemma {:induction false} BagSumSplit(m: map<string, ItemMap>, k: string)
    requires k in m
    ensures BagSum(m) == Bag(m[k]) + BagSum(m - {k})
    decreases |m|
  {
    var j :| j in m && BagSum(m) == Bag(m[j]) + BagSum(m - {j});
    if j != k {
      var mj, mk := m - {j}, m - {k};
      RemoveShrinks(m, j);
      RemoveShrinks(m, k);
      BagSumSplit(mj, k);
      BagSumSplit(mk, j);
      RemoveCommutes(m, j, k);
      assert mj[k] == m[k] && mk[j] == m[j];
    }
  }

  lemma UpdateThenRemove<V>(m: map<string, V>, k: string, v: V)
    ensures m[k := v] - {k} == m - {k}
  {
  }

  /** Replacing one entry changes the sum by exactly the difference of the two bags. */
  lemma BagSumUpdate(m: map<string, ItemMap>, k: string, v: ItemMap)
    requires k in m
    ensures BagSum(m[k := v]) + Bag(m[k]) == BagSum(m) + Bag(v)
  {
    BagSumSplit(m, k);
    BagSumSplit(m[k := v], k);
    UpdateThenRemove(m, k, v);
  }

  lemma ItemsRemove(m: ItemMap, n: string)
    requires n in m
    ensures (m - {n}).Items == m.Items - {(n, m[n])}
  {
    forall p | p in m.Items - {(n, m[n])} ensures p in (m - {n}).Items {
      var (a, b) := p;
      assert a in m && m[a] == b;
      assert a != n;
    }
  }

  lemma BagRemove(m: ItemMap, n: string)
    requires n in m
    ensures Bag(m - {n}) + multiset{(n, m[n])} == Bag(m)
  {
    ItemsRemove(m, n);
    assert (n, m[n]) in m.Items;
  }

  lemma BagInsert(m: ItemMap, n: string, v: Item)
    requires n !in m
    ensures Bag(m[n := v]) == Bag(m) + multiset{(n, v)}
  {
    var m' := m[n := v];
    ItemsRemove(m', n);
    assert m' - {n} == m;
    assert (n, v) in m'.Items;
    assert (n, v) !in m.Items;
  }

  /** Moving the entry `n` from one item map to another that lacks it keeps
      the combined bag. */
  lemma BagMove(from: ItemMap, to: ItemMap, n: string)
    requires n in from && n !in to
    ensures Bag(from - {n}) + Bag(to[n := from[n]]) == Bag(from) + Bag(to)
  {
    BagRemove(from, n);
    BagInsert(to, n, from[n]);
  }

  lemma ItemsOfUpdate(places: map<string, Place>, k: string, p: Place)
    ensures ItemsOf(places[k := p]) == ItemsOf(places)[k := p.items]
  {
  }

  lemma Rearrange<T>(p: multiset<T>, p': multiset<T>, s: multiset<T>, s': multiset<T>, x: multiset<T>, y: multiset<T>)
    requires s' + x == s + y
    ensures (p' + s') + (x + p) == (p + s) + (y + p')
  {
    forall e ensures ((p' + s') + (x + p))[e] == ((p + s) + (y + p'))[e] {
      assert (s' + x)[e] == (s + y)[e];
    }
  }

  lemma CancelBags<T>(a: multiset<T>, b: multiset<T>, x: multiset<T>, y: multiset<T>)
    requires a + x == b + y && x == y
    ensures a == b
  {
    forall e ensures a[e] == b[e] {
      assert (a + x)[e] == (b + y)[e];
    }
  }

  /** The state in which the current place holds `items` and the player `mine`. */
  function Rearranged(g: Game, items: ItemMap, mine: ItemMap): Game
    requires g.player.position in g.places
  {
    Game(g.player.(items := mine), g.places[g.player.position := Current(g).(items := items)])
  }

  /** Replacing the current place's item map by `items` and the player's by
      `mine` changes the world bag by exactly the two differences. */
  lemma AllItemsUpdate(g: Game, items: ItemMap, mine: ItemMap)
    requires g.player.position in g.places
    ensures AllItems(Rearranged(g, items, mine)) + (Bag(Current(g).items) + Bag(g.player.items))
              == AllItems(g) + (Bag(items) + Bag(mine))
  {
    var pos := g.player.position;
    var g' := Rearranged(g, items, mine);
    var m := ItemsOf(g.places);
    ItemsOfUpdate(g.places, pos, Current(g).(items := items));
    assert m[pos] == Current(g).items;
    BagSumUpdate(m, pos, items);
    Rearrange(Bag(g.player.items), Bag(mine), BagSum(m), BagSum(ItemsOf(g'.places)), Bag(Current(g).items), Bag(items));
  }

  /** Redistributing items between the current place and the player, with
      the same combined bag, keeps the world bag. */
  lemma AllItemsRearranged(g: Game, items: ItemMap, mine: ItemMap)
    requires g.player.position in g.places
    requires Bag(items) + Bag(mine) == Bag(Current(g).items) + Bag(g.player.items)
    ensures AllItems(Rearranged(g, items, mine)) == AllItems(g)
  {
    AllItemsUpdate(g, items, mine);
    CancelBags(AllItems(Rearranged(g, items, mine)), AllItems(g),
               Bag(Current(g).items) + Bag(g.player.items), Bag(items) + Bag(mine));
  }

  /** Redistributing names between the current place and the player, with
      the same combined names and none in both, keeps names unique. */
  lemma UniqueNamesRearranged(g: Game, items: ItemMap, mine: ItemMap)
    requires g.player.position in g.places && UniqueNames(g)
    requires items.Keys + mine.Keys == Current(g).items.Keys + g.player.items.Keys
    requires items.Keys !! mine.Keys
    ensures UniqueNames(Rearranged(g, items, mine))
  {
    var pos := g.player.position;
    var g' := Rearranged(g, items, mine);
    forall k | k in g'.places && k != pos
      ensures g'.places[k].items.Keys !! items.Keys
      ensures g'.places[k].items.Keys !! mine.Keys
    {
      assert g'.places[k] == g.places[k];
      assert g.places[k].items.Keys !! g.places[pos].items.Keys;
    }
  }
}
