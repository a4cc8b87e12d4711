/**
 * The rate table of simulation/ReactionRateTableSimulation: one rate per
 * (reaction, membrane) pair, the fixed table of which pairs must be
 * recomputed after a pair fires, and the Gillespie choice of the next pair
 * and of the waiting time. Reactions are numbered in model order and
 * membranes in the order of the root's subtree list; `ids` takes a
 * membrane number to its arena index and `idOf` takes it back.
 */
module RateTables {
  import opened Wrappers
  import opened Species
  import opened Equations
  import opened Reactions
  import opened Models
  import opened Membranes
  import opened Values

  // ---------------------------------------------------------------- counts that agree

  /** Same shape, and every count of a species outside `names` is the same everywhere. */
  ghost predicate Agree(a: seq<Membrane>, b: seq<Membrane>, names: set<string>) {
    SameShape(a, b) &&
    forall j, s :: 0 <= j < |a| && s !in names ==>
      Count(a[j].on, s) == Count(b[j].on, s) && Count(a[j].under, s) == Count(b[j].under, s) &&
      Count(a[j].contained, s) == Count(b[j].contained, s)
  }

  lemma AgreeRefl(a: seq<Membrane>, names: set<string>)
    ensures Agree(a, a, names)
  {
  }

  lemma AgreeTrans(a: seq<Membrane>, b: seq<Membrane>, c: seq<Membrane>, names: set<string>)
    requires Agree(a, b, names) && Agree(b, c, names)
    ensures Agree(a, c, names)
  {
  }

  lemma SameShapeChildType(a: seq<Membrane>, b: seq<Membrane>, i: nat, t: string)
    requires SameShape(a, b) && i < |a|
    ensures HasChildOfType(a, i, t) == HasChildOfType(b, i, t)
  {
    if HasChildOfType(a, i, t) {
      var k :| 0 <= k < |a[i].children| && a[i].children[k] < |a| && a[a[i].children[k]].mtype == t;
      assert b[b[i].children[k]].mtype == t;
    }
    if HasChildOfType(b, i, t) {
      var k :| 0 <= k < |b[i].children| && b[i].children[k] < |b| && b[b[i].children[k]].mtype == t;
      assert a[a[i].children[k]].mtype == t;
    }
  }

  /** A located species whose name is outside `names` is counted alike in agreeing arenas. */
  lemma AgreeNumLocated(a: seq<Membrane>, b: seq<Membrane>, names: set<string>, i: nat, ls: LocatedSpecies)
    requires Agree(a, b, names) && ls.speciesName !in names
    ensures NumLocated(a, i, ls) == NumLocated(b, i, ls)
  {
    if i < |a| {
      SameShapeChildType(a, b, i, ls.membraneName);
    }
    assert ResolveNum(a, i, ls) == ResolveNum(b, i, ls);
  }

  /** Adding a species named in `names`, or adding nothing, keeps agreement outside `names`. */
  lemma AgreeAddedAt(nodes: seq<Membrane>, j: nat, loc: Location, name: string, n: int, names: set<string>)
    requires name in names || n == 0
    ensures Agree(nodes, AddedAt(nodes, j, loc, name, n), names)
  {
    var after := AddedAt(nodes, j, loc, name, n);
    AddedAtSameShape(nodes, j, loc, name, n);
    forall q, s | 0 <= q < |nodes| && s !in names
      ensures Count(nodes[q].on, s) == Count(after[q].on, s) && Count(nodes[q].under, s) == Count(after[q].under, s) &&
        Count(nodes[q].contained, s) == Count(after[q].contained, s)
    {
      if s == name {
        assert n == 0;
      }
    }
  }

  lemma AgreeAddedLocated(nodes: seq<Membrane>, i: nat, ls: LocatedSpecies, n: int, names: set<string>)
    requires ls.speciesName in names || n == 0
    ensures Agree(nodes, AddedLocated(nodes, i, ls, n), names)
  {
    match ResolveAdd(nodes, i, ls)
    case None => AgreeRefl(nodes, names);
    case Some(t) => AgreeAddedAt(nodes, t.0, t.1, ls.speciesName, n, names);
  }

  // ---------------------------------------------------------------- entries

  /**
   * The rate written for a matched pair: the computed rate when every
   * consumed species is present in the needed number, 0 otherwise.
   */
  function Recomputed(nodes: seq<Membrane>, reactions: seq<Reaction>, r: nat, j: nat, ln: real -> real): (e: Result<real>)
    requires r < |reactions|
    ensures e.Success? ==> e.value >= 0.0
  {
    if StoichiometryMatches(nodes, j, reactions[r].consumed) then ComputeRate(nodes, j, reactions[r], ln) else Success(0.0)
  }

  /** The correct entry for reaction r in membrane j: 0 wherever the reaction does not match. */
  function Entry(nodes: seq<Membrane>, reactions: seq<Reaction>, r: nat, j: nat, ln: real -> real): (e: Result<real>)
    requires r < |reactions|
    ensures e.Success? ==> e.value >= 0.0
  {
    if j in ComputeMatching(nodes, 0, reactions[r]) then Recomputed(nodes, reactions, r, j, ln) else Success(0.0)
  }

  /**
   * A positive entry is a place the reaction can fire: the membrane
   * matches, every consumed species is present in the needed number, and
   * the rate equation evaluates to the entry.
   */
  lemma EntryPositive(nodes: seq<Membrane>, reactions: seq<Reaction>, r: nat, j: nat, ln: real -> real, v: real)
    requires r < |reactions| && Entry(nodes, reactions, r, j, ln) == Success(v) && v > 0.0
    ensures j in ComputeMatching(nodes, 0, reactions[r])
    ensures forall k :: 0 <= k < |reactions[r].consumed| ==>
      NumLocated(nodes, j, reactions[r].consumed[k].species) >= reactions[r].consumed[k].stoichiometry
    ensures Eval(reactions[r].rateEquation, CountsOf(nodes, j), ln) == Success(v)
  {
  }

  /**
   * The reason the table is updated only along dependencies: when only
   * species that reaction `fr` modifies change, an entry of a reaction
   * outside `fr`'s dependents, or of a membrane the reaction does not
   * match, keeps its value.
   */
  lemma EntryUnchanged(a: seq<Membrane>, b: seq<Membrane>, reactions: seq<Reaction>, modelDeps: map<nat, set<nat>>,
                       fr: nat, r: nat, j: nat, ln: real -> real)
    requires DependencyTable(reactions, modelDeps) && fr < |reactions| && r < |reactions|
    requires ConsumedInRate(reactions[r])
    requires Agree(a, b, ModifiedSpecies(reactions[fr]))
    requires r !in modelDeps[fr] || j !in ComputeMatching(a, 0, reactions[r])
    ensures Entry(a, reactions, r, j, ln) == Entry(b, reactions, r, j, ln)
  {
    MatchingIgnoresCounts(a, b, 0, reactions[r]);
    if j in ComputeMatching(a, 0, reactions[r]) {
      var names := ModifiedSpecies(reactions[fr]);
      var e := reactions[r].rateEquation;
      assert !DependsOn(reactions, fr, r);
      forall ls | ls in RateSpecies(e)
        ensures NumLocated(a, j, ls) == NumLocated(b, j, ls)
      {
        assert ls.speciesName in RateSpeciesNames(e);
        DisjointNotIn(ls.speciesName, RateSpeciesNames(e), names);
        AgreeNumLocated(a, b, names, j, ls);
      }
      ComputeRateLocal(a, b, j, reactions[r], ln);
      var consumed := reactions[r].consumed;
      forall k | 0 <= k < |consumed|
        ensures NumLocated(a, j, consumed[k].species) == NumLocated(b, j, consumed[k].species)
      {
        assert consumed[k].species in RateSpecies(e);
      }
      assert StoichiometryMatches(a, j, consumed) == StoichiometryMatches(b, j, consumed);
    }
  }

  /** Every matched membrane is an arena index. */
  lemma MatchingInRange(nodes: seq<Membrane>, i: nat, r: Reaction)
    requires Links(nodes)
    ensures forall m :: m in ComputeMatching(nodes, i, r) ==> m < |nodes|
  {
    var name := r.membraneType;
    var base := if OfType(nodes, i, name) != {} then OfType(nodes, i, name) else WithTag(nodes, i, name);
    forall m | m in Parents(nodes, base)
      ensures m < |nodes|
    {
      var c :| c in base && c < |nodes| && nodes[c].parent.Some? && nodes[c].parent.value == m;
    }
  }

  // ---------------------------------------------------------------- membrane numbers

  /** `membraneIds` as a pair of inverse maps. */
  predicate IdsInverse(ids: seq<nat>, idOf: map<nat, nat>) {
    (forall k :: 0 <= k < |ids| ==> ids[k] in idOf && idOf[ids[k]] == k) &&
    (forall m :: m in idOf ==> idOf[m] < |ids| && ids[idOf[m]] == m)
  }

  /** The numbering of `membraneIds`: each membrane gets its position in the list. */
  method NumberMembranes(ids: seq<nat>) returns (idOf: map<nat, nat>)
    requires Distinct(ids)
    ensures IdsInverse(ids, idOf)
  {
    idOf := map[];
    var k := 0;
    while k < |ids|
      invariant 0 <= k <= |ids|
      invariant IdsInverse(ids[..k], idOf)
    {
      assert forall m :: m in idOf ==> m != ids[k];
      idOf := idOf[ids[k] := k];
      k := k + 1;
    }
    assert ids[..k] == ids;
  }

  // ---------------------------------------------------------------- dependencies

  function Get(deps: map<(nat, nat), set<(nat, nat)>>, f: (nat, nat)): set<(nat, nat)> {
    if f in deps then deps[f] else {}
  }

  /**
   * Pair d must be recomputed after pair f fires: both pairs match, d's
   * reaction is one of f's dependents, and its rate equation names a
   * species f's reaction modifies.
   */
  predicate PairDepends(reactions: seq<Reaction>, modelDeps: map<nat, set<nat>>, matches: seq<set<nat>>, ids: seq<nat>,
                        f: (nat, nat), d: (nat, nat)) {
    f.0 < |reactions| && f.0 < |matches| && f.1 < |ids| && ids[f.1] in matches[f.0] && f.0 in modelDeps &&
    d.0 in modelDeps[f.0] && d.0 < |reactions| && d.0 < |matches| && d.1 < |ids| && ids[d.1] in matches[d.0] &&
    RateSpeciesNames(reactions[d.0].rateEquation) * ModifiedSpecies(reactions[f.0]) != {}
  }

  /** `membraneDependencies` holds exactly the dependent pairs of every pair. */
  ghost predicate DepsExact(deps: map<(nat, nat), set<(nat, nat)>>, reactions: seq<Reaction>, modelDeps: map<nat, set<nat>>,
                            matches: seq<set<nat>>, ids: seq<nat>) {
    forall f: (nat, nat), d: (nat, nat) :: d in Get(deps, f) <==> PairDepends(reactions, modelDeps, matches, ids, f, d)
  }

  /** The `speciesCheck` loop: some species of the list carries one of the names. */
  method SharesName(species: set<LocatedSpecies>, names: set<string>) returns (b: bool)
    ensures b <==> exists ls :: ls in species && ls.speciesName in names
  {
    var todo := species;
    while todo != {}
      invariant todo <= species
      invariant forall ls :: ls in species - todo ==> ls.speciesName !in names
      decreases |todo|
    {
      var ls :| ls in todo;
      if ls.speciesName in names {
        return true;
      }
      todo := todo - {ls};
    }
    return false;
  }

  lemma SharedNames(e: Expr, names: set<string>)
    ensures (exists ls :: ls in RateSpecies(e) && ls.speciesName in names) <==> RateSpeciesNames(e) * names != {}
  {
    if RateSpeciesNames(e) * names != {} {
      var n :| n in RateSpeciesNames(e) * names;
      var ls :| ls in RateSpecies(e) && ls.speciesName == n;
    }
    if exists ls :: ls in RateSpecies(e) && ls.speciesName in names {
      var ls :| ls in RateSpecies(e) && ls.speciesName in names;
      assert ls.speciesName in RateSpeciesNames(e) * names;
    }
  }

  /** The pairs depending on reaction fr, whichever membrane it fires in. */
  method DependentsOf(reactions: seq<Reaction>, modelDeps: map<nat, set<nat>>, matches: seq<set<nat>>,
                      ids: seq<nat>, idOf: map<nat, nat>, fr: nat) returns (pairs: set<(nat, nat)>)
    requires fr < |reactions| && |matches| == |reactions| && DependencyTable(reactions, modelDeps)
    requires IdsInverse(ids, idOf) && forall r :: 0 <= r < |matches| ==> matches[r] <= idOf.Keys
    ensures forall d :: d in pairs <==>
      d.0 in modelDeps[fr] && d.0 < |reactions| && d.1 < |ids| && ids[d.1] in matches[d.0] &&
      RateSpeciesNames(reactions[d.0].rateEquation) * ModifiedSpecies(reactions[fr]) != {}
  {
    var modified := ModifiedSpecies(reactions[fr]);
    var dependents := modelDeps[fr];
    pairs := {};
    while dependents != {}
      invariant dependents <= modelDeps[fr]
      invariant forall d :: d in pairs <==>
        d.0 in modelDeps[fr] - dependents && d.0 < |reactions| && d.1 < |ids| && ids[d.1] in matches[d.0] &&
        RateSpeciesNames(reactions[d.0].rateEquation) * modified != {}
      decreases |dependents|
    {
      var dr :| dr in dependents;
      var species := DependentLocatedSpecies(reactions[dr].rateEquation);
      var dms := matches[dr];
      while dms != {}
        invariant dms <= matches[dr]
        invariant forall d :: d in pairs <==>
          (d.0 in modelDeps[fr] - dependents && d.0 < |reactions| && d.1 < |ids| && ids[d.1] in matches[d.0] &&
           RateSpeciesNames(reactions[d.0].rateEquation) * modified != {}) ||
          (d.0 == dr && d.1 < |ids| && ids[d.1] in matches[dr] - dms &&
           RateSpeciesNames(reactions[dr].rateEquation) * modified != {})
        decreases |dms|
      {
        var dm :| dm in dms;
        var dk := idOf[dm];
        var uses := SharesName(species, modified);
        SharedNames(reactions[dr].rateEquation, modified);
        if uses {
          pairs := pairs + {(dr, dk)};
        }
        dms := dms - {dm};
      }
      dependents := dependents - {dr};
    }
  }

  /** The table holds the dependent pairs of every pair of the first fr reactions, and of reaction fr in the membranes of `done`. */
  ghost predicate DepsUpTo(deps: map<(nat, nat), set<(nat, nat)>>, reactions: seq<Reaction>, modelDeps: map<nat, set<nat>>,
                           matches: seq<set<nat>>, ids: seq<nat>, fr: nat, done: set<nat>) {
    forall f: (nat, nat), d: (nat, nat) :: d in Get(deps, f) <==>
      PairDepends(reactions, modelDeps, matches, ids, f, d) && (f.0 < fr || (f.0 == fr && f.1 < |ids| && ids[f.1] in done))
  }

  /** Recording the dependents of reaction fr fired in one more membrane fm. */
  lemma DepsStep(deps: map<(nat, nat), set<(nat, nat)>>, reactions: seq<Reaction>, modelDeps: map<nat, set<nat>>,
                 matches: seq<set<nat>>, ids: seq<nat>, idOf: map<nat, nat>, fr: nat, done: set<nat>, fm: nat, pairs: set<(nat, nat)>)
    requires DepsUpTo(deps, reactions, modelDeps, matches, ids, fr, done)
    requires fr < |reactions| && |matches| == |reactions| && DependencyTable(reactions, modelDeps)
    requires IdsInverse(ids, idOf) && fm in idOf && fm in matches[fr] && fm !in done
    requires forall d :: d in pairs <==>
      d.0 in modelDeps[fr] && d.0 < |reactions| && d.1 < |ids| && ids[d.1] in matches[d.0] &&
      RateSpeciesNames(reactions[d.0].rateEquation) * ModifiedSpecies(reactions[fr]) != {}
    ensures var next := if pairs != {} then deps[(fr, idOf[fm]) := Get(deps, (fr, idOf[fm])) + pairs] else deps;
      DepsUpTo(next, reactions, modelDeps, matches, ids, fr, done + {fm})
  {
    var fk := idOf[fm];
    var next := if pairs != {} then deps[(fr, fk) := Get(deps, (fr, fk)) + pairs] else deps;
    assert Get(deps, (fr, fk)) == {};
    forall f: (nat, nat), d: (nat, nat)
      ensures d in Get(next, f) <==>
        PairDepends(reactions, modelDeps, matches, ids, f, d) && (f.0 < fr || (f.0 == fr && f.1 < |ids| && ids[f.1] in done + {fm}))
    {
      if f == (fr, fk) {
        assert d in Get(next, f) <==> d in pairs;
      } else {
        assert Get(next, f) == Get(deps, f);
      }
    }
  }

  /** `calculateMembraneDependencies`: for every reaction and every membrane it matches, its dependent pairs. */
  method MembraneDependencies(reactions: seq<Reaction>, modelDeps: map<nat, set<nat>>, matches: seq<set<nat>>,
                              ids: seq<nat>, idOf: map<nat, nat>) returns (deps: map<(nat, nat), set<(nat, nat)>>)
    requires |matches| == |reactions| && DependencyTable(reactions, modelDeps)
    requires IdsInverse(ids, idOf) && forall r :: 0 <= r < |matches| ==> matches[r] <= idOf.Keys
    ensures DepsExact(deps, reactions, modelDeps, matches, ids)
  {
    deps := map[];
    var fr: nat := 0;
    while fr < |reactions|
      invariant fr <= |reactions|
      invariant DepsUpTo(deps, reactions, modelDeps, matches, ids, fr, {})
    {
      var fms := matches[fr];
      while fms != {}
        invariant fms <= matches[fr]
        invariant DepsUpTo(deps, reactions, modelDeps, matches, ids, fr, matches[fr] - fms)
        decreases |fms|
      {
        var fm :| fm in fms;
        var fk := idOf[fm];
        var pairs := DependentsOf(reactions, modelDeps, matches, ids, idOf, fr);
        DepsStep(deps, reactions, modelDeps, matches, ids, idOf, fr, matches[fr] - fms, fm, pairs);
        assert matches[fr] - fms + {fm} == matches[fr] - (fms - {fm});
        if pairs != {} {
          deps := deps[(fr, fk) := Get(deps, (fr, fk)) + pairs];
        }
        fms := fms - {fm};
      }
      assert DepsUpTo(deps, reactions, modelDeps, matches, ids, fr + 1, {});
      fr := fr + 1;
    }
  }

  // ---------------------------------------------------------------- sums over the table

  /** The first k rates of row r. */
  function RowSum(a: array2<real>, r: nat, k: nat): real
    requires r < a.Length0 && k <= a.Length1
    reads a
  {
    if k == 0 then 0.0 else RowSum(a, r, k - 1) + a[r, k - 1]
  }

  /** Every rate of the first r rows. */
  function TableSum(a: array2<real>, r: nat): real
    requires r <= a.Length0
    reads a
  {
    if r == 0 then 0.0 else TableSum(a, r - 1) + RowSum(a, r - 1, a.Length1)
  }

  /** The running total of the selection walk on reaching pair (r, k), before adding it. */
  function Prefix(a: array2<real>, r: nat, k: nat): real
    requires r < a.Length0 && k <= a.Length1
    reads a
  {
    TableSum(a, r) + RowSum(a, r, k)
  }

  /** The running total just after adding pair (r, k). */
  function Through(a: array2<real>, r: nat, k: nat): real
    requires r < a.Length0 && k < a.Length1
    reads a
  {
    Prefix(a, r, k) + a[r, k]
  }

  predicate NonNegative(a: array2<real>)
    reads a
  {
    forall r, k :: 0 <= r < a.Length0 && 0 <= k < a.Length1 ==> a[r, k] >= 0.0
  }

  lemma {:induction false} RowSumBounds(a: array2<real>, r: nat, k: nat)
    requires NonNegative(a) && r < a.Length0 && k <= a.Length1
    ensures RowSum(a, r, k) >= 0.0
    ensures RowSum(a, r, k) == 0.0 <==> forall q :: 0 <= q < k ==> a[r, q] == 0.0
    decreases k
  {
    if k > 0 {
      RowSumBounds(a, r, k - 1);
    }
  }

  lemma {:induction false} TableSumBounds(a: array2<real>, r: nat)
    requires NonNegative(a) && r <= a.Length0
    ensures TableSum(a, r) >= 0.0
    ensures TableSum(a, r) == 0.0 <==> forall p, q :: 0 <= p < r && 0 <= q < a.Length1 ==> a[p, q] == 0.0
    decreases r
  {
    if r > 0 {
      TableSumBounds(a, r - 1);
      RowSumBounds(a, r - 1, a.Length1);
    }
  }

  lemma {:induction false} RowSumMonotone(a: array2<real>, r: nat, k1: nat, k2: nat)
    requires NonNegative(a) && r < a.Length0 && k1 <= k2 <= a.Length1
    ensures RowSum(a, r, k1) <= RowSum(a, r, k2)
    decreases k2
  {
    if k1 < k2 {
      RowSumMonotone(a, r, k1, k2 - 1);
    }
  }

  lemma {:induction false} TableSumMonotone(a: array2<real>, r1: nat, r2: nat)
    requires NonNegative(a) && r1 <= r2 <= a.Length0
    ensures TableSum(a, r1) <= TableSum(a, r2)
    decreases r2
  {
    if r1 < r2 {
      TableSumMonotone(a, r1, r2 - 1);
      RowSumBounds(a, r2 - 1, a.Length1);
    }
  }

  /** The running total never decreases along the walk. */
  lemma PrefixMonotone(a: array2<real>, r1: nat, k1: nat, r2: nat, k2: nat)
    requires NonNegative(a) && r1 < a.Length0 && r2 < a.Length0 && k1 <= a.Length1 && k2 <= a.Length1
    requires r1 < r2 || (r1 == r2 && k1 <= k2)
    ensures Prefix(a, r1, k1) <= Prefix(a, r2, k2)
  {
    if r1 == r2 {
      RowSumMonotone(a, r1, k1, k2);
    } else {
      RowSumMonotone(a, r1, k1, a.Length1);
      TableSumMonotone(a, r1 + 1, r2);
      RowSumBounds(a, r2, k2);
    }
  }

  // ---------------------------------------------------------------- the Gillespie selection

  /** (r, k) is the first pair, in the walk's order, whose running total reaches `target`. */
  ghost predicate FirstReaching(a: array2<real>, target: real, r: nat, k: nat)
    reads a
  {
    r < a.Length0 && k < a.Length1 && target <= Through(a, r, k) &&
    forall p, q :: 0 <= p < a.Length0 && 0 <= q < a.Length1 && (p < r || (p == r && q < k)) ==> Through(a, p, q) < target
  }

  /**
   * The chosen pair owns the part of (0, total] just above the rates walked
   * before it, of width its own rate: a uniform target picks each pair with
   * probability proportional to its rate.
   */
  lemma FirstReachingInterval(a: array2<real>, target: real, r: nat, k: nat)
    requires NonNegative(a) && 0.0 < target && FirstReaching(a, target, r, k)
    ensures Prefix(a, r, k) < target <= Prefix(a, r, k) + a[r, k]
    ensures a[r, k] > 0.0
  {
    if k > 0 {
      assert Through(a, r, k - 1) < target;
    } else if r > 0 {
      assert Through(a, r - 1, a.Length1 - 1) < target;
    }
  }

  /** Conversely the pair whose interval holds the target is the one the walk stops at. */
  lemma IntervalIsFirstReaching(a: array2<real>, target: real, r: nat, k: nat)
    requires NonNegative(a) && r < a.Length0 && k < a.Length1
    requires Prefix(a, r, k) < target <= Prefix(a, r, k) + a[r, k]
    ensures FirstReaching(a, target, r, k)
  {
    forall p, q | 0 <= p < a.Length0 && 0 <= q < a.Length1 && (p < r || (p == r && q < k))
      ensures Through(a, p, q) < target
    {
      PrefixMonotone(a, p, q + 1, r, k);
    }
  }

  /** The pair reached first is unique. */
  lemma FirstReachingUnique(a: array2<real>, target: real, r1: nat, k1: nat, r2: nat, k2: nat)
    requires FirstReaching(a, target, r1, k1) && FirstReaching(a, target, r2, k2)
    ensures r1 == r2 && k1 == k2
  {
  }

  /** Equation 21a of Gillespie's method: ln(1/u)/omega hours, given in seconds. */
  function WaitSeconds(omega: real, u: real, ln: real -> real): real
    requires omega != 0.0 && u != 0.0
  {
    (1.0 / omega) * ln(1.0 / u) * 60.0 * 60.0
  }

  /** The point of (0, omega] the second draw selects. */
  function Target(omega: real, u: real): real {
    omega * u
  }

  /** A draw strictly inside (0, 1) scales a positive total to a target strictly inside (0, total). */
  lemma ScaledInside(omega: real, u: real)
    requires omega > 0.0 && 0.0 < u < 1.0
    ensures 0.0 < omega * u < omega
  {
    assert omega * (1.0 - u) > 0.0;
  }

  /** The `omega` loop: the sum of every rate in the table. */
  method TotalRate(a: array2<real>) returns (omega: real)
    ensures omega == TableSum(a, a.Length0)
  {
    omega := 0.0;
    var r := 0;
    while r < a.Length0
      invariant 0 <= r <= a.Length0 && omega == TableSum(a, r)
    {
      var k := 0;
      while k < a.Length1
        invariant 0 <= k <= a.Length1 && omega == Prefix(a, r, k)
      {
        omega := omega + a[r, k];
        k := k + 1;
      }
      r := r + 1;
    }
  }

  /**
   * The arithmetic of `chooseRandomReaction` on an up-to-date table: the
   * total omega; nothing when it is 0; otherwise the waiting time from the
   * first draw (in hours, converted to seconds) and the pair the second
   * draw selects.
   */
  method Gillespie(a: array2<real>, u1: real, u2: real, ln: real -> real) returns (choice: Option<(nat, nat)>, seconds: real, omega: real)
    requires NonNegative(a) && 0.0 < u1 < 1.0 && 0.0 < u2 < 1.0
    ensures omega == TableSum(a, a.Length0)
    ensures choice.None? <==> omega == 0.0
    ensures choice.Some? ==>
      omega > 0.0 && FirstReaching(a, Target(omega, u2), choice.value.0, choice.value.1) && a[choice.value.0, choice.value.1] > 0.0 &&
      seconds == WaitSeconds(omega, u1, ln)
  {
    omega := TotalRate(a);
    if omega == 0.0 {
      return None, 0.0, omega;
    }
    TableSumBounds(a, a.Length0);
    var hoursToNextReaction := (1.0 / omega) * ln(1.0 / u1);
    seconds := hoursToNextReaction * 60.0 * 60.0;
    var whichReaction := omega * u2;
    ScaledInside(omega, u2);
    choice := SelectPair(a, whichReaction);
    FirstReachingInterval(a, whichReaction, choice.value.0, choice.value.1);
  }

  /** The selection walk: add the rates in order until the running total reaches the target. */
  method SelectPair(a: array2<real>, target: real) returns (found: Option<(nat, nat)>)
    requires 0.0 < target
    ensures found.Some? ==> FirstReaching(a, target, found.value.0, found.value.1)
    ensures found.None? ==> TableSum(a, a.Length0) < target
  {
    var current := 0.0;
    var r := 0;
    while r < a.Length0
      invariant 0 <= r <= a.Length0
      invariant current == TableSum(a, r) && current < target
      invariant forall p, q :: 0 <= p < r && 0 <= q < a.Length1 ==> Through(a, p, q) < target
    {
      var k := 0;
      while k < a.Length1
        invariant 0 <= k <= a.Length1
        invariant current == Prefix(a, r, k) && current < target
        invariant forall p, q :: 0 <= p < r && 0 <= q < a.Length1 ==> Through(a, p, q) < target
        invariant forall q :: 0 <= q < k ==> Through(a, r, q) < target
      {
        current := current + a[r, k];
        if target <= current {
          return Some((r, k));
        }
        k := k + 1;
      }
      r := r + 1;
    }
    return None;
  }

  /**
   * The loop of `updateViableReactions`: each listed pair gets the rate
   * its reaction has now in its membrane (0 when a consumed species falls
   * short); the first rate that cannot be computed stops the loop.
   */
  method RecomputeEntries(tree: Tree, rates: array2<real>, reactions: seq<Reaction>, ids: seq<nat>, ln: real -> real,
                          all: set<(nat, nat)>) returns (res: Result<()>)
    requires rates.Length0 == |reactions| && rates.Length1 == |ids|
    requires forall d :: d in all ==> d.0 < |reactions| && d.1 < |ids|
    modifies rates
    ensures res.Success? <==> forall d :: d in all ==> Recomputed(tree.nodes, reactions, d.0, ids[d.1], ln).Success?
    ensures res.Success? ==> forall r: nat, k: nat :: r < |reactions| && k < |ids| ==>
      if (r, k) in all then Success(rates[r, k]) == Recomputed(tree.nodes, reactions, r, ids[k], ln)
      else rates[r, k] == old(rates[r, k])
  {
    var todo := all;
    while todo != {}
      invariant todo <= all
      invariant forall d :: d in all - todo ==> Recomputed(tree.nodes, reactions, d.0, ids[d.1], ln).Success?
      invariant forall r: nat, k: nat :: r < |reactions| && k < |ids| ==>
        if (r, k) in all - todo then Success(rates[r, k]) == Recomputed(tree.nodes, reactions, r, ids[k], ln)
        else rates[r, k] == old(rates[r, k])
      decreases |todo|
    {
      var d :| d in todo;
      var j := ids[d.1];
      var enough := tree.StoichiometryMatches(j, reactions[d.0].consumed);
      if enough {
        var v := ComputeRate(tree.nodes, j, reactions[d.0], ln);
        if v.Failure? {
          assert !Recomputed(tree.nodes, reactions, d.0, ids[d.1], ln).Success?;
          return Failure(v.error);
        }
        rates[d.0, d.1] := v.value;
      } else {
        rates[d.0, d.1] := 0.0;
      }
      todo := todo - {d};
    }
    return Success(());
  }

  /**
   * `calculateRates` of one table: the entry of every (reaction, membrane)
   * pair; the first rate that cannot be computed stops the filling.
   */
  method FillRates(tree: Tree, rates: array2<real>, reactions: seq<Reaction>, matches: seq<set<nat>>,
                   ids: seq<nat>, ln: real -> real) returns (res: Result<()>)
    requires rates.Length0 == |reactions| == |matches| && rates.Length1 == |ids|
    requires forall r :: 0 <= r < |reactions| ==> matches[r] == ComputeMatching(tree.nodes, 0, reactions[r])
    modifies rates
    ensures res.Success? <==>
      forall r, k :: 0 <= r < |reactions| && 0 <= k < |ids| ==> Entry(tree.nodes, reactions, r, ids[k], ln).Success?
    ensures res.Success? ==>
      forall r, k :: 0 <= r < |reactions| && 0 <= k < |ids| ==> Entry(tree.nodes, reactions, r, ids[k], ln) == Success(rates[r, k])
  {
    var r := 0;
    while r < |reactions|
      invariant 0 <= r <= |reactions|
      invariant forall p, q :: 0 <= p < r && 0 <= q < |ids| ==> Entry(tree.nodes, reactions, p, ids[q], ln) == Success(rates[p, q])
    {
      var k := 0;
      while k < |ids|
        invariant 0 <= k <= |ids|
        invariant forall p, q :: 0 <= p < r && 0 <= q < |ids| ==> Entry(tree.nodes, reactions, p, ids[q], ln) == Success(rates[p, q])
        invariant forall q :: 0 <= q < k ==> Entry(tree.nodes, reactions, r, ids[q], ln) == Success(rates[r, q])
      {
        var j := ids[k];
        if j in matches[r] {
          var enough := tree.StoichiometryMatches(j, reactions[r].consumed);
          if enough {
            var v := ComputeRate(tree.nodes, j, reactions[r], ln);
            if v.Failure? {
              assert !Entry(tree.nodes, reactions, r, ids[k], ln).Success?;
              return Failure(v.error);
            }
            rates[r, k] := v.value;
          } else {
            rates[r, k] := 0.0;
          }
        } else {
          rates[r, k] := 0.0;
        }
        k := k + 1;
      }
      r := r + 1;
    }
    return Success(());
  }

  // ---------------------------------------------------------------- the table

  class RateTable {
    /** The simulation's current state. */
    const tree: Tree
    const reactions: seq<Reaction>
    /** The model's `getDependentReactions`, by reaction index. */
    const modelDeps: map<nat, set<nat>>
    /** `Math.log`. */
    const ln: real -> real
    /** `membraneIds.inverse()`: membrane number to arena index. */
    const ids: seq<nat>
    /** `membraneIds`: arena index to membrane number. */
    const idOf: map<nat, nat>
    /** `reactionRates`: reactions are the first index, membrane numbers the second. */
    const rates: array2<real>
    /** `membraneDependencies`. */
    const deps: map<(nat, nat), set<(nat, nat)>>
    /** The tree's shape when the table was built; only counts change afterwards. */
    ghost const shape: seq<Membrane>
    /** `getMatchingMembranes(reaction)` for every reaction, on the initial tree. */
    ghost const matches: seq<set<nat>>
    /** `previousReactionId` and `previousMembraneId`: the pair chosen last, if any. */
    var previous: Option<(nat, nat)>
    /** The state the entries were last all correct for. */
    ghost var snapshot: seq<Membrane>

    /** The facts fixed at construction: they read no field that changes afterwards except the tree's counts. */
    ghost predicate Fixed()
      reads tree
    {
      tree.Valid() &&
      SameShape(shape, tree.nodes) &&
      (forall k :: 0 <= k < |ids| ==> ids[k] < |shape|) &&
      IdsInverse(ids, idOf) &&
      DependencyTable(reactions, modelDeps) &&
      (forall r :: 0 <= r < |reactions| ==> ConsumedInRate(reactions[r])) &&
      |matches| == |reactions| &&
      (forall r :: 0 <= r < |reactions| ==> matches[r] == ComputeMatching(shape, 0, reactions[r]) && matches[r] <= idOf.Keys) &&
      rates.Length0 == |reactions| && rates.Length1 == |ids| &&
      DepsExact(deps, reactions, modelDeps, matches, ids)
    }

    ghost predicate Valid()
      reads this, tree
    {
      Fixed() && SameShape(shape, snapshot) &&
      (previous.Some? ==> previous.value.0 < |reactions| && previous.value.1 < |ids|)
    }

    /** Every entry holds the correct rate for the arena `a`. */
    ghost predicate CoherentWith(a: seq<Membrane>)
      reads rates
    {
      rates.Length0 == |reactions| && rates.Length1 == |ids| &&
      forall r, k :: 0 <= r < |reactions| && 0 <= k < |ids| ==> Entry(a, reactions, r, ids[k], ln) == Success(rates[r, k])
    }

    /**
     * What the table knows between steps: with no pair pending every entry
     * is correct; with a pending pair the entries were correct for a state
     * that differs from the current one only in species the pair's reaction
     * modifies, and the pair is a place its reaction matches.
     */
    ghost predicate Tracking()
      reads this, tree, rates
    {
      match previous
      case None => CoherentWith(tree.nodes)
      case Some(p) =>
        p.0 < |reactions| && p.0 < |matches| && p.1 < |ids| && ids[p.1] in matches[p.0] &&
        CoherentWith(snapshot) && Agree(snapshot, tree.nodes, ModifiedSpecies(reactions[p.0]))
    }

    /** Every pair of `s` is in range and its rate can be computed. */
    ghost predicate Recomputable(s: set<(nat, nat)>)
      reads this, tree
    {
      forall d :: d in s ==> d.0 < |reactions| && d.1 < |ids| && Recomputed(tree.nodes, reactions, d.0, ids[d.1], ln).Success?
    }

    lemma CoherentNonNegative(a: seq<Membrane>)
      requires CoherentWith(a)
      ensures NonNegative(rates)
    {
      forall r, k | 0 <= r < rates.Length0 && 0 <= k < rates.Length1
        ensures rates[r, k] >= 0.0
      {
        assert Entry(a, reactions, r, ids[k], ln) == Success(rates[r, k]);
      }
    }

    constructor (tree: Tree, reactions: seq<Reaction>, modelDeps: map<nat, set<nat>>, ln: real -> real,
                 ids: seq<nat>, idOf: map<nat, nat>, rates: array2<real>, deps: map<(nat, nat), set<(nat, nat)>>,
                 ghost matches: seq<set<nat>>)
      ensures this.tree == tree && this.reactions == reactions && this.modelDeps == modelDeps && this.ln == ln
      ensures this.ids == ids && this.idOf == idOf && this.rates == rates && this.deps == deps && this.matches == matches
      ensures previous == None && shape == tree.nodes && snapshot == tree.nodes
    {
      this.tree := tree;
      this.reactions := reactions;
      this.modelDeps := modelDeps;
      this.ln := ln;
      this.ids := ids;
      this.idOf := idOf;
      this.rates := rates;
      this.deps := deps;
      this.matches := matches;
      shape := tree.nodes;
      snapshot := tree.nodes;
      previous := None;
    }

    /**
     * `updateViableReactions`: nothing to do before the first choice;
     * otherwise the pairs depending on the pair fired last get their rates
     * recomputed, and every other entry keeps its value. Afterwards every
     * entry is correct for the current state.
     */
    method UpdateViableReactions() returns (res: Result<()>)
      requires Valid()
      modifies rates
      ensures previous.None? ==> res.Success?
      ensures previous.None? ==> forall r, k :: 0 <= r < rates.Length0 && 0 <= k < rates.Length1 ==> rates[r, k] == old(rates[r, k])
      ensures previous.Some? ==> (res.Success? <==> Recomputable(Get(deps, previous.value)))
      ensures previous.Some? && res.Success? ==> forall r: nat, k: nat :: r < rates.Length0 && k < rates.Length1 ==>
        if (r, k) in Get(deps, previous.value) then Success(rates[r, k]) == Recomputed(tree.nodes, reactions, r, ids[k], ln)
        else rates[r, k] == old(rates[r, k])
      ensures old(Tracking()) && res.Success? ==> CoherentWith(tree.nodes)
    {
      ghost var tracking := Tracking();
      if previous.None? {
        return Success(());
      }
      var p := previous.value;
      var all := Get(deps, p);
      res := RecomputeEntries(tree, rates, reactions, ids, ln, all);
      if res.Failure? {
        return;
      }
      if tracking {
        forall r: nat, k: nat | r < |reactions| && k < |ids|
          ensures Entry(tree.nodes, reactions, r, ids[k], ln) == Success(rates[r, k])
        {
          MatchingIgnoresCounts(shape, tree.nodes, 0, reactions[r]);
          MatchingIgnoresCounts(shape, snapshot, 0, reactions[r]);
          if (r, k) !in all {
            assert !PairDepends(reactions, modelDeps, matches, ids, p, (r, k));
            EntryUnchanged(snapshot, tree.nodes, reactions, modelDeps, p.0, r, ids[k], ln);
          }
        }
      }
    }

    /**
     * `chooseRandomReaction`: brings the table up to date, sums every rate
     * into omega, and returns nothing (drawing no number) when omega is 0;
     * otherwise the first draw u1 gives the waiting time
     * ln(1/u1)/omega hours and the second draw u2 the pair at which the
     * running total reaches omega * u2, which becomes the pending pair.
     */
    method ChooseRandomReaction(u1: real, u2: real) returns (res: Result<Option<ChosenReaction>>, draws: nat)
      requires Valid() && Tracking()
      requires 0.0 < u1 < 1.0 && 0.0 < u2 < 1.0
      modifies rates, this`previous, this`snapshot
      ensures Valid()
      ensures old(previous).None? ==> res.Success?
      ensures old(previous).Some? ==> (res.Success? <==> Recomputable(Get(deps, old(previous).value)))
      ensures res.Failure? ==> draws == 0
      ensures res.Success? ==> Tracking() && CoherentWith(tree.nodes) && snapshot == tree.nodes
      ensures res.Success? && res.value.None? ==>
        draws == 0 && previous == old(previous) && TableSum(rates, rates.Length0) == 0.0
      ensures res.Success? && res.value.Some? ==>
        draws == 2 && previous.Some? &&
        var (r, k) := previous.value;
        var omega := TableSum(rates, rates.Length0);
        omega > 0.0 && FirstReaching(rates, Target(omega, u2), r, k) && rates[r, k] > 0.0 &&
        res.value.value == ChosenReaction(Some(r), Some(ids[k]), WaitSeconds(omega, u1, ln))
    {
      var updated := UpdateViableReactions();
      if updated.Failure? {
        return Failure(updated.error), 0;
      }
      var choice;
      choice, draws := DrawPending(u1, u2);
      res := Success(choice);
    }

    /**
     * The drawing half of `chooseRandomReaction`, on an up-to-date table:
     * the table becomes the new snapshot, and a drawn pair becomes the
     * pending pair.
     */
    method DrawPending(u1: real, u2: real) returns (choice: Option<ChosenReaction>, draws: nat)
      requires Valid() && CoherentWith(tree.nodes)
      requires previous.Some? ==> previous.value.0 < |matches| && ids[previous.value.1] in matches[previous.value.0]
      requires 0.0 < u1 < 1.0 && 0.0 < u2 < 1.0
      modifies this`previous, this`snapshot
      ensures Valid() && Tracking() && CoherentWith(tree.nodes) && snapshot == tree.nodes
      ensures choice.None? ==> draws == 0 && previous == old(previous) && TableSum(rates, rates.Length0) == 0.0
      ensures choice.Some? ==>
        draws == 2 && previous.Some? &&
        var (r, k) := previous.value;
        var omega := TableSum(rates, rates.Length0);
        omega > 0.0 && FirstReaching(rates, Target(omega, u2), r, k) && rates[r, k] > 0.0 &&
        choice.value == ChosenReaction(Some(r), Some(ids[k]), WaitSeconds(omega, u1, ln))
    {
      snapshot := tree.nodes;
      CoherentNonNegative(tree.nodes);
      var pair, secondsToNextReaction, omega := Gillespie(rates, u1, u2, ln);
      if pair.None? {
        if previous.Some? {
          AgreeRefl(tree.nodes, ModifiedSpecies(reactions[previous.value.0]));
        }
        return None, 0;
      }
      var (r, k) := pair.value;
      ChosenIsPending(r, k);
      previous := Some((r, k));
      choice := Some(ChosenReaction(Some(r), Some(ids[k]), secondsToNextReaction));
      draws := 2;
    }

    /** A pair with a positive correct rate is a place its reaction matches, and may become the pending pair. */
    lemma ChosenIsPending(r: nat, k: nat)
      requires Valid() && CoherentWith(tree.nodes) && snapshot == tree.nodes
      requires r < |reactions| && k < |ids| && rates[r, k] > 0.0
      ensures r < |matches| && ids[k] in matches[r]
      ensures Agree(snapshot, tree.nodes, ModifiedSpecies(reactions[r]))
    {
      MatchingIgnoresCounts(shape, tree.nodes, 0, reactions[r]);
      assert Entry(tree.nodes, reactions, r, ids[k], ln) == Success(rates[r, k]);
      AgreeRefl(tree.nodes, ModifiedSpecies(reactions[r]));
    }

    /** `getReactionPropensity`: the reaction's rates over every membrane, added up. */
    method GetReactionPropensity(r: nat) returns (propensity: real)
      requires r < rates.Length0
      ensures propensity == RowSum(rates, r, rates.Length1)
    {
      propensity := 0.0;
      var k := 0;
      while k < rates.Length1
        invariant 0 <= k <= rates.Length1 && propensity == RowSum(rates, r, k)
      {
        propensity := propensity + rates[r, k];
        k := k + 1;
      }
    }

    /** With correct entries a propensity is never negative, and it is 0 exactly when the reaction can fire nowhere. */
    lemma PropensityZeroIffNowhere(a: seq<Membrane>, r: nat)
      requires CoherentWith(a) && r < |reactions|
      ensures RowSum(rates, r, rates.Length1) >= 0.0
      ensures RowSum(rates, r, rates.Length1) == 0.0 <==>
        forall k :: 0 <= k < |ids| ==> Entry(a, reactions, r, ids[k], ln) == Success(0.0)
    {
      CoherentNonNegative(a);
      RowSumBounds(rates, r, rates.Length1);
    }

    /**
     * `recalculatePropensitiesFrom`: treats (r, m) as the pair fired last,
     * updates the table from it, and leaves no pending pair.
     */
    method RecalculatePropensitiesFrom(r: nat, m: nat) returns (res: Result<()>)
      requires Valid() && r < |reactions| && m in idOf
      modifies rates, this`previous
      ensures Valid() && previous == None
      ensures res.Success? <==> Recomputable(Get(deps, (r, idOf[m])))
      ensures res.Success? ==> forall r': nat, k: nat :: r' < rates.Length0 && k < rates.Length1 ==>
        if (r', k) in Get(deps, (r, idOf[m])) then Success(rates[r', k]) == Recomputed(tree.nodes, reactions, r', ids[k], ln)
        else rates[r', k] == old(rates[r', k])
      ensures (res.Success? && m in matches[r] &&
               old(CoherentWith(snapshot)) && Agree(snapshot, tree.nodes, ModifiedSpecies(reactions[r])))
        ==> CoherentWith(tree.nodes)
    {
      previous := Some((r, idOf[m]));
      res := UpdateViableReactions();
      previous := None;
    }
  }

  /**
   * The `ReactionRateTableSimulation` constructor: numbers the membranes in
   * the order of the root's subtree list, finds each reaction's matching
   * membranes, fills every entry, then computes the dependent pairs. It
   * fails when some rate cannot be computed.
   */
  method NewRateTable(tree: Tree, reactions: seq<Reaction>, modelDeps: map<nat, set<nat>>, ln: real -> real)
    returns (res: Result<RateTable>)
    requires tree.Valid() && tree.CacheCoherent() && |tree.nodes| > 0
    requires forall m :: 0 <= m < |tree.nodes| ==> m in tree.nodes[0].all
    requires DependencyTable(reactions, modelDeps)
    requires forall r :: 0 <= r < |reactions| ==> ConsumedInRate(reactions[r])
    modifies tree`cache
    ensures tree.nodes == old(tree.nodes) && tree.CacheCoherent()
    ensures res.Success? <==> forall r, k :: 0 <= r < |reactions| && 0 <= k < |tree.nodes[0].all| ==>
      Entry(tree.nodes, reactions, r, tree.nodes[0].all[k], ln).Success?
    ensures res.Success? ==>
      var t := res.value;
      fresh(t) && fresh(t.rates) && t.Valid() && t.Tracking() && t.previous == None &&
      t.tree == tree && t.reactions == reactions && t.modelDeps == modelDeps && t.ln == ln &&
      t.ids == tree.nodes[0].all && t.shape == tree.nodes
  {
    var ids := tree.nodes[0].all;
    var idOf := NumberMembranes(ids);
    var matches: seq<set<nat>> := [];
    var r := 0;
    while r < |reactions|
      invariant 0 <= r <= |reactions| && |matches| == r
      invariant tree.CacheCoherent() && tree.nodes == old(tree.nodes)
      invariant forall p :: 0 <= p < r ==> matches[p] == ComputeMatching(tree.nodes, 0, reactions[p])
    {
      var ms := tree.MatchingFor(0, reactions[r]);
      matches := matches + [ms];
      r := r + 1;
    }
    forall p | 0 <= p < |reactions|
      ensures matches[p] <= idOf.Keys
    {
      MatchingInRange(tree.nodes, 0, reactions[p]);
      forall m | m in matches[p]
        ensures m in idOf
      {
        assert m in ids;
        var k :| 0 <= k < |ids| && ids[k] == m;
      }
    }
    var rates := new real[|reactions|, |ids|];
    var filled := FillRates(tree, rates, reactions, matches, ids, ln);
    if filled.Failure? {
      return Failure(filled.error);
    }
    var deps := MembraneDependencies(reactions, modelDeps, matches, ids, idOf);
    var t := new RateTable(tree, reactions, modelDeps, ln, ids, idOf, rates, deps, matches);
    return Success(t);
  }
}
