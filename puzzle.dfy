/**
 * The protocol a configuration offers to the search engine: successor
 * configurations, a solved test, an early-pruning hint and the canonical
 * key (`str(puzzle)`) used for the visited sets.
 */
module Puzzles {
  datatype Contract<!P> = Contract(
    extensions: P -> seq<P>,
    isSolved: P -> bool,
    failFast: P -> bool,
    key: P -> string)

  /** The canonical keys of a set of configurations. */
  function Keys<P(==)>(c: Contract<P>, ps: set<P>): set<string>
  {
    set p | p in ps :: c.key(p)
  }

  /** `reach` holds every extension of each of its members. */
  ghost predicate Closed<P>(c: Contract<P>, reach: set<P>)
  {
    forall p, i | p in reach && 0 <= i < |c.extensions(p)| :: c.extensions(p)[i] in reach
  }

  /** Every extension of `p` has its key in `keys` or fails fast. */
  ghost predicate Settled<P>(c: Contract<P>, p: P, keys: set<string>)
  {
    forall k | 0 <= k < |c.extensions(p)| :: c.key(c.extensions(p)[k]) in keys || c.failFast(c.extensions(p)[k])
  }

  /** Distinct configurations of `reach` have distinct keys. */
  ghost predicate KeysInjective<P>(c: Contract<P>, reach: set<P>)
  {
    forall p, q | p in reach && q in reach && c.key(p) == c.key(q) :: p == q
  }

  /** A sequence of moves: each configuration is an extension of the one before it, and none after the first fails fast. */
  ghost predicate Chain<P>(c: Contract<P>, ps: seq<P>)
  {
    |ps| > 0 && forall i | 0 < i < |ps| :: ps[i] in c.extensions(ps[i - 1]) && !c.failFast(ps[i])
  }

  /** Adding a key of `universe` that `bound` lacks leaves fewer keys unaccounted for. */
  lemma FewerMissing(universe: set<string>, bound: set<string>, larger: set<string>, k: string)
    requires k in universe && k !in bound && k in larger && bound <= larger
    ensures |universe - larger| < |universe - bound|
  {
    assert universe - larger <= universe - bound;
    assert k in (universe - bound) - (universe - larger);
    assert (universe - bound) == (universe - larger) + ((universe - bound) - (universe - larger));
  }
}
