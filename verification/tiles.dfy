/**
 * Tiles: an id, one matcher per compass direction and a foreground flag, the
 * two reserved tiles, the atomic adjacency test and the derived constraint
 * views used when authoring a tileset.
 */
module Tiles {
  import opened Options
  import opened Compass
  import opened Matchers

  /** One matcher slot per direction, indexed by `Value`. */
  type Slots = s: seq<Matcher> | |s| == Count
    witness [Always, Always, Always, Always, Always, Always, Always, Always]

  /** A tile; matching looks only at the `id` of the other tile. */
  datatype Tile = Tile(id: int, matchers: Slots, foreground: bool)

  /** The matcher a tile applies towards direction `d`. */
  function Slot(t: Tile, d: Direction): Matcher
  {
    t.matchers[Value(d)]
  }

  /**
   * The matcher that `Tile.__init__` leaves in slot `d` for a given list of
   * (direction, matcher) entries: the last entry naming `d`, else `any_tile()`.
   */
  function SlotFor(rules: seq<(Direction, Matcher)>, d: Direction): Matcher
  {
    if rules == [] then AnyTile()
    else if rules[|rules| - 1].0 == d then rules[|rules| - 1].1
    else SlotFor(rules[..|rules| - 1], d)
  }

  /** The tile `Tile(id, matchers=rules, foreground=foreground)` builds. */
  function TileFrom(id: int, rules: seq<(Direction, Matcher)>, foreground: bool): (t: Tile)
    ensures t.id == id && t.foreground == foreground
    ensures forall d :: Slot(t, d) == SlotFor(rules, d)
  {
    var t := Tile(id, seq(Count, i requires 0 <= i < Count => SlotFor(rules, FromValue(i))), foreground);
    assert forall d :: Slot(t, d) == SlotFor(rules, d) by {
      forall d ensures Slot(t, d) == SlotFor(rules, d) { ValueIdentifies(d); }
    }
    t
  }

  /**
   * `Tile.__init__`: start with `any_tile()` in all eight slots and let every
   * (direction, matcher) entry overwrite its slot, in list order.
   */
  method NewTile(id: int, rules: seq<(Direction, Matcher)>, foreground: bool) returns (t: Tile)
    ensures t.id == id && t.foreground == foreground
    ensures forall d :: Slot(t, d) == SlotFor(rules, d)
  {
    var slots: seq<Matcher> := seq(Count, _ => AnyTile());
    for i := 0 to |rules|
      invariant |slots| == Count
      invariant forall d :: slots[Value(d)] == SlotFor(rules[..i], d)
    {
      var (d, m) := rules[i];
      assert rules[..i + 1][..i] == rules[..i];
      forall e ensures e != d ==> Value(e) != Value(d) {
        ValueIdentifies(e);
        ValueIdentifies(d);
      }
      slots := slots[Value(d) := m];
    }
    assert rules[..|rules|] == rules;
    t := Tile(id, slots, foreground);
  }

  /** A direction the entry list never names keeps `any_tile()` and accepts every id. */
  lemma {:induction false} UnnamedSlotAcceptsAll(rules: seq<(Direction, Matcher)>, d: Direction)
    requires forall k :: 0 <= k < |rules| ==> rules[k].0 != d
    ensures SlotFor(rules, d) == AnyTile()
    ensures forall id :: Accepts(SlotFor(rules, d), id)
  {
    if rules != [] {
      UnnamedSlotAcceptsAll(rules[..|rules| - 1], d);
    }
  }

  /** Of several entries for one direction, the last one is the one kept. */
  lemma {:induction false} LastEntryWins(rules: seq<(Direction, Matcher)>, k: nat, d: Direction)
    requires k < |rules| && rules[k].0 == d
    requires forall j :: k < j < |rules| ==> rules[j].0 != d
    ensures SlotFor(rules, d) == rules[k].1
  {
    if k < |rules| - 1 {
      LastEntryWins(rules[..|rules| - 1], k, d);
    }
  }

  /**
   * `add_matcher(d, m)`: slot `d` now accepts an id exactly when its old
   * matcher and `m` both do; the id, the flag and the other slots are unchanged.
   */
  function AddMatcher(t: Tile, d: Direction, m: Matcher): (r: Tile)
    ensures r.id == t.id && r.foreground == t.foreground
    ensures forall id :: Accepts(Slot(r, d), id) <==> Accepts(Slot(t, d), id) && Accepts(m, id)
    ensures forall e :: e != d ==> Slot(r, e) == Slot(t, e)
  {
    var r := t.(matchers := t.matchers[Value(d) := Both(Slot(t, d), m)]);
    assert forall e :: e != d ==> Slot(r, e) == Slot(t, e) by {
      forall e | e != d ensures Slot(r, e) == Slot(t, e) {
        ValueIdentifies(e);
        ValueIdentifies(d);
      }
    }
    r
  }

  /** `connects_with`: an absent neighbour always connects, a present one is judged by id. */
  predicate ConnectsWith(t: Tile, d: Direction, other: Option<Tile>)
  {
    other.None? || Accepts(Slot(t, d), other.value.id)
  }

  lemma ConnectsWithSpec(t: Tile, d: Direction, o: Tile, o': Tile)
    ensures ConnectsWith(t, d, None)
    ensures ConnectsWith(t, d, Some(o)) <==> Accepts(Slot(t, d), o.id)
    ensures o.id == o'.id ==> (ConnectsWith(t, d, Some(o)) <==> ConnectsWith(t, d, Some(o')))
  {
  }

  /** A rule list giving every direction, in compass order, the same matcher. */
  function EveryDirection(m: Matcher): (rules: seq<(Direction, Matcher)>)
    ensures |rules| == Count && forall k :: 0 <= k < Count ==> rules[k] == (FromValue(k), m)
  {
    seq(Count, k requires 0 <= k < Count => (FromValue(k), m))
  }

  /**
   * The tile test: `tile_a` (id 1) accepts only id 2 on every side and
   * `tile_b` (id 2) only id 1, so `tile_a` accepts `tile_b` towards west and
   * rejects a copy of itself there.
   */
  lemma MutualTilesExample()
    ensures ConnectsWith(TileFrom(1, EveryDirection(OneOf([2])), true), West, Some(TileFrom(2, EveryDirection(OneOf([1])), true)))
    ensures !ConnectsWith(TileFrom(1, EveryDirection(OneOf([2])), true), West, Some(TileFrom(1, EveryDirection(OneOf([2])), true)))
  {
    LastEntryWins(EveryDirection(OneOf([2])), 6, West);
  }

  /** `TILE_EMPTY`, id 0, accepting everything. */
  const TileEmpty: Tile := TileFrom(0, [], true)

  /** `TILE_FAIL`, id 1, the conflict marker, accepting everything. */
  const TileFail: Tile := TileFrom(1, [], true)

  lemma ReservedTilesAcceptAll(d: Direction, other: Option<Tile>)
    ensures TileEmpty.id == 0 && TileFail.id == 1
    ensures ConnectsWith(TileEmpty, d, other) && ConnectsWith(TileFail, d, other)
  {
    UnnamedSlotAcceptsAll([], d);
  }

  /** The tiles of a tileset that `t` accepts towards `d`. */
  function AcceptedSet(t: Tile, d: Direction, tileset: seq<Tile>): set<Tile>
  {
    set o | o in tileset && ConnectsWith(t, d, Some(o))
  }

  /**
   * `constraint_dict`: for every direction in which `t` accepts at least one
   * tile of the tileset, the set of those tiles; other directions are absent.
   */
  method ConstraintDict(t: Tile, tileset: seq<Tile>) returns (c: map<Direction, set<Tile>>)
    ensures forall d :: d in c <==> AcceptedSet(t, d, tileset) != {}
    ensures forall d :: d in c ==> c[d] == AcceptedSet(t, d, tileset)
  {
    c := map[];
    for i := 0 to Count
      invariant forall e :: Value(e) < i ==> (e in c <==> AcceptedSet(t, e, tileset) != {})
      invariant forall e :: Value(e) < i && e in c ==> c[e] == AcceptedSet(t, e, tileset)
      invariant forall e :: Value(e) >= i ==> e !in c
    {
      c := CollectAccepted(t, FromValue(i), tileset, c);
    }
  }

  /**
   * The inner loop of `constraint_dict` for one direction `d` not yet in
   * `c0`: adds `d`, mapped to the tiles `t` accepts there, if there are any.
   */
  method CollectAccepted(t: Tile, d: Direction, tileset: seq<Tile>, c0: map<Direction, set<Tile>>)
    returns (c: map<Direction, set<Tile>>)
    requires d !in c0
    ensures c == if AcceptedSet(t, d, tileset) != {} then c0[d := AcceptedSet(t, d, tileset)] else c0
  {
    c := c0;
    for j := 0 to |tileset|
      invariant c == if AcceptedSet(t, d, tileset[..j]) != {} then c0[d := AcceptedSet(t, d, tileset[..j])] else c0
    {
      var other := tileset[j];
      AcceptedSetGrows(t, d, tileset, j);
      if ConnectsWith(t, d, Some(other)) {
        if d !in c {
          c := c[d := {}];
        }
        ghost var before := c[d];
        assert before == AcceptedSet(t, d, tileset[..j]);
        c := c[d := c[d] + {other}];
        assert c == c0[d := before + {other}];
        assert other in AcceptedSet(t, d, tileset[..j + 1]);
      } else {
        assert AcceptedSet(t, d, tileset[..j + 1]) == AcceptedSet(t, d, tileset[..j]);
      }
    }
    assert tileset[..|tileset|] == tileset;
  }

  lemma AcceptedSetGrows(t: Tile, d: Direction, tileset: seq<Tile>, j: nat)
    requires j < |tileset|
    ensures AcceptedSet(t, d, tileset[..j + 1]) ==
      AcceptedSet(t, d, tileset[..j]) + (if ConnectsWith(t, d, Some(tileset[j])) then {tileset[j]} else {})
  {
    assert forall o :: o in tileset[..j + 1] <==> o in tileset[..j] || o == tileset[j] by {
      assert tileset[..j + 1] == tileset[..j] + [tileset[j]];
    }
  }

  /** Each direction sits in `COMPASS_MAP` at the row and column its offset points to. */
  lemma CompassMapMatchesOffsets(d: Direction)
    ensures 0 <= 1 + Dy(d) < 3 && 0 <= 1 + Dx(d) < 3
    ensures CompassMap[1 + Dy(d)][1 + Dx(d)] == Some(d)
  {
  }

  /** What `constraint_map` shows for direction `d`: the accepted tiles, or `{t}` if there are none. */
  function ShownSet(t: Tile, d: Direction, tileset: seq<Tile>): set<Tile>
  {
    if AcceptedSet(t, d, tileset) != {} then AcceptedSet(t, d, tileset) else {t}
  }

  /**
   * `constraint_map`: the 3x3 view of the constraint sets laid out as the
   * compass; the centre, and every direction accepting nothing, show `{t}`.
   */
  function ConstraintMap(t: Tile, tileset: seq<Tile>): (m: seq<seq<set<Tile>>>)
    ensures |m| == 3 && forall r :: 0 <= r < 3 ==> |m[r]| == 3
    ensures m[1][1] == {t}
    ensures forall d :: m[1 + Dy(d)][1 + Dx(d)] == ShownSet(t, d, tileset)
  {
    var m := seq(3, r requires 0 <= r < 3 => seq(3, c requires 0 <= c < 3 =>
      match CompassMap[r][c]
      case None => {t}
      case Some(d) => ShownSet(t, d, tileset)));
    assert forall d :: m[1 + Dy(d)][1 + Dx(d)] == ShownSet(t, d, tileset) by {
      forall d ensures m[1 + Dy(d)][1 + Dx(d)] == ShownSet(t, d, tileset) {
        CompassMapMatchesOffsets(d);
      }
    }
    m
  }
}
