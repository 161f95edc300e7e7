/**
 * Matchers: the per-direction acceptance rules a tile applies to the id of a
 * neighbour.  The source builds them as closures; here they are an inspectable
 * datatype with an evaluation predicate.
 */
module Matchers {
  import opened Options

  datatype Matcher =
    | Always                                  // accepts every id
    | Allow(ids: set<int>)                    // accepts exactly the listed ids
    | Deny(ids: set<int>)                     // accepts every id but the listed ones
    | Both(first: Matcher, second: Matcher)   // the conjunction built by `add_matcher`

  /** Applying a matcher to a tile id. */
  predicate Accepts(m: Matcher, id: int)
  {
    match m
    case Always => true
    case Allow(ids) => id in ids
    case Deny(ids) => id !in ids
    case Both(first, second) => Accepts(first, id) && Accepts(second, id)
  }

  /**
   * `tile_of(whitelist, blacklist)`: a given whitelist decides alone, even when
   * a blacklist is given too; otherwise a given blacklist decides; with neither,
   * every id is accepted.  The id lists are the argument tuples of the source.
   */
  function TileOf(whitelist: Option<seq<int>>, blacklist: Option<seq<int>>): (m: Matcher)
    ensures whitelist.Some? ==> forall id :: Accepts(m, id) <==> id in whitelist.value
    ensures whitelist.None? && blacklist.Some? ==> forall id :: Accepts(m, id) <==> id !in blacklist.value
    ensures whitelist.None? && blacklist.None? ==> forall id :: Accepts(m, id)
  {
    if whitelist.Some? then Allow(set id | id in whitelist.value)
    else if blacklist.Some? then Deny(set id | id in blacklist.value)
    else Always
  }

  /** `any_tile()` */
  function AnyTile(): (m: Matcher)
    ensures forall id :: Accepts(m, id)
  {
    TileOf(None, None)
  }

  /** `one_of(*ids)` */
  function OneOf(ids: seq<int>): (m: Matcher)
    ensures forall id :: Accepts(m, id) <==> id in ids
  {
    TileOf(Some(ids), None)
  }

  /** `except_of(*ids)` */
  function ExceptOf(ids: seq<int>): (m: Matcher)
    ensures forall id :: Accepts(m, id) <==> id !in ids
  {
    TileOf(None, Some(ids))
  }

  /** For the same ids, `one_of` and `except_of` are exact complements. */
  lemma OneOfExceptOfComplement(ids: seq<int>, id: int)
    ensures Accepts(OneOf(ids), id) != Accepts(ExceptOf(ids), id)
  {
  }
}
