/**
 * The small records of the simulation package (simulation/ReactionRateIndex,
 * LocatedReaction, PossibleReaction, ChosenReaction). Reactions are
 * identified by their position in the model and membranes by their arena
 * index, so Java's object identity becomes equality of these numbers.
 */
module Values {
  import opened Wrappers

  /** Java's `int` arithmetic: the value wrapped into 32 bits. */
  function Int32(x: int): (r: int)
    ensures -0x8000_0000 <= r < 0x8000_0000
    ensures -0x8000_0000 <= x < 0x8000_0000 ==> r == x
  {
    (x + 0x8000_0000) % 0x1_0000_0000 - 0x8000_0000
  }

  /** `new HashCodeBuilder().append(a).append(b).toHashCode()`: start at 17, multiply by 37 before each value. */
  function HashPair(a: int, b: int): (h: int)
    ensures -0x8000_0000 <= h < 0x8000_0000
  {
    Int32(Int32(17 * 37 + a) * 37 + b)
  }

  /** `ReactionRateIndex`: a (reaction id, membrane id) cell of the rate table; equal exactly when both ids are. */
  datatype ReactionRateIndex = ReactionRateIndex(reactionId: nat, membraneId: nat)

  /** `ReactionRateIndex.hashCode`: built from the two ids only. */
  function IndexHash(i: ReactionRateIndex): int {
    HashPair(i.reactionId, i.membraneId)
  }

  /** `LocatedReaction`: one membrane a reaction can fire in, with its rate there. */
  datatype LocatedReaction = LocatedReaction(reaction: nat, membrane: nat, rate: real)

  /** `LocatedReaction.equals`: same reaction and same membrane, whatever the rates. */
  predicate SameLocatedReaction(a: LocatedReaction, b: LocatedReaction) {
    a.reaction == b.reaction && a.membrane == b.membrane
  }

  /** `LocatedReaction.hashCode`, from the reaction and membrane codes. */
  function LocatedReactionHash(a: LocatedReaction, reactionHash: nat -> int, membraneHash: nat -> int): int {
    HashPair(reactionHash(a.reaction), membraneHash(a.membrane))
  }

  /** Equal located reactions hash alike, so they can be set members and map keys. */
  lemma LocatedReactionHashConsistent(a: LocatedReaction, b: LocatedReaction, reactionHash: nat -> int, membraneHash: nat -> int)
    ensures SameLocatedReaction(a, b) ==>
      LocatedReactionHash(a, reactionHash, membraneHash) == LocatedReactionHash(b, reactionHash, membraneHash)
    ensures SameLocatedReaction(a, b) <==> SameLocatedReaction(a.(rate := b.rate), b)
  {
  }

  /** `PossibleReaction`: a reaction with its rate in each membrane it can fire in. */
  datatype PossibleReaction = PossibleReaction(reaction: nat, rates: map<nat, real>)

  /** `PossibleReaction.equals`: the reaction alone decides. */
  predicate SamePossibleReaction(a: PossibleReaction, b: PossibleReaction) {
    a.reaction == b.reaction
  }

  /** The sum of every rate in the map, taken in some order. */
  ghost function SumRates(m: map<nat, real>): real
    decreases |m|
  {
    if m == map[] then 0.0
    else
      var k :| k in m;
      m[k] + SumRates(m - {k})
  }

  /** The sum does not depend on the order: any entry can be taken first. */
  lemma {:induction false} SumRatesRemove(m: map<nat, real>, k: nat)
    requires k in m
    ensures SumRates(m) == m[k] + SumRates(m - {k})
    decreases |m|
  {
    var j :| j in m && SumRates(m) == m[j] + SumRates(m - {j});
    if j != k {
      var rest := m - {j};
      SumRatesRemove(rest, k);
      SumRatesRemove(m - {k}, j);
      assert rest - {k} == (m - {k}) - {j};
    }
  }

  /** Summing non-negative rates gives a non-negative total, which is 0 exactly when every rate is. */
  lemma {:induction false} SumRatesNonNegative(m: map<nat, real>)
    requires forall k :: k in m ==> m[k] >= 0.0
    ensures SumRates(m) >= 0.0
    ensures SumRates(m) == 0.0 <==> forall k :: k in m ==> m[k] == 0.0
    decreases |m|
  {
    if m != map[] {
      var k :| k in m;
      SumRatesRemove(m, k);
      SumRatesNonNegative(m - {k});
      assert forall j :: j in m - {k} ==> (m - {k})[j] == m[j];
      if SumRates(m) == 0.0 {
        forall j | j in m
          ensures m[j] == 0.0
        {
          if j != k {
            assert j in m - {k};
          }
        }
      }
    }
  }

  function Restrict(m: map<nat, real>, keys: set<nat>): map<nat, real> {
    map k | k in m && k in keys :: m[k]
  }

  /** `getRate`: every per-membrane rate added up; 0 when the reaction can fire nowhere. */
  method GetRate(p: PossibleReaction) returns (rate: real)
    ensures rate == SumRates(p.rates)
  {
    rate := 0.0;
    var keys := p.rates.Keys;
    assert Restrict(p.rates, keys) == p.rates;
    while keys != {}
      invariant keys <= p.rates.Keys
      invariant rate + SumRates(Restrict(p.rates, keys)) == SumRates(p.rates)
      decreases |keys|
    {
      var k :| k in keys;
      SumRatesRemove(Restrict(p.rates, keys), k);
      assert Restrict(p.rates, keys) - {k} == Restrict(p.rates, keys - {k});
      rate := rate + p.rates[k];
      keys := keys - {k};
    }
    assert Restrict(p.rates, keys) == map[];
  }

  /**
   * `ChosenReaction`: the outcome of one Gillespie choice. The reaction and
   * membrane are absent when the selection walk finds nothing.
   */
  datatype ChosenReaction = ChosenReaction(reaction: Option<nat>, location: Option<nat>, secondsToFiring: real)
}
