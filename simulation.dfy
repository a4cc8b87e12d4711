/**
 * The stepping loop of simulation/Simulation: each step either fires the
 * reaction the rate table chose or runs the earliest queued product
 * release, and the run loops advance the clock in chunks. Membranes are
 * arena indices of the tree, reactions positions in the model, and the
 * random number generator is a stream of draws `rand(0), rand(1), ...`.
 */
module Simulations {
  import opened Wrappers
  import opened Species
  import opened Reactions
  import opened Membranes
  import opened RateTables
  import opened Values
  import Text

  // ---------------------------------------------------------------- the event queue

  /** `AddProductsEvent`: products to add to a membrane at a set time, then recompute from (reaction, membrane). */
  datatype Event = AddProducts(executionSeconds: real, speciesToAdd: seq<StoichiometrySpecies>, membrane: nat, reaction: nat)

  /** The queue in `compareTo` order: by execution time. */
  predicate Sorted(q: seq<Event>) {
    forall i, j :: 0 <= i < j < |q| ==> q[i].executionSeconds <= q[j].executionSeconds
  }

  /**
   * `PriorityQueue.add`: the event goes in after every event that is not
   * later, and the queue gains exactly that event.
   */
  function Insert(q: seq<Event>, e: Event): (r: seq<Event>)
    ensures multiset(r) == multiset(q) + multiset{e}
  {
    if q == [] then [e]
    else if e.executionSeconds < q[0].executionSeconds then [e] + q
    else
      assert q == [q[0]] + q[1..];
      [q[0]] + Insert(q[1..], e)
  }

  /** Inserting an event no earlier than `lo` into a queue of such events gives a queue of such events. */
  lemma {:induction false} InsertBounded(q: seq<Event>, e: Event, lo: real)
    requires forall i :: 0 <= i < |q| ==> q[i].executionSeconds >= lo
    requires e.executionSeconds >= lo
    ensures forall i :: 0 <= i < |Insert(q, e)| ==> Insert(q, e)[i].executionSeconds >= lo
  {
    if q != [] && e.executionSeconds >= q[0].executionSeconds {
      InsertBounded(q[1..], e, lo);
    }
  }

  /** An event no later than every event of an ordered queue can go in front of it. */
  lemma ConsSorted(x: Event, rest: seq<Event>)
    requires Sorted(rest)
    requires forall i :: 0 <= i < |rest| ==> x.executionSeconds <= rest[i].executionSeconds
    ensures Sorted([x] + rest)
  {
    var r := [x] + rest;
    forall i, j | 0 <= i < j < |r|
      ensures r[i].executionSeconds <= r[j].executionSeconds
    {
      assert r[j] == rest[j - 1];
      if i > 0 {
        assert r[i] == rest[i - 1];
      }
    }
  }

  /** Inserting keeps the queue ordered. */
  lemma {:induction false} InsertSorted(q: seq<Event>, e: Event)
    requires Sorted(q)
    ensures Sorted(Insert(q, e))
  {
    if q == [] {
      assert Insert(q, e) == [e];
    } else if e.executionSeconds < q[0].executionSeconds {
      ConsSorted(e, q);
    } else {
      var rest := Insert(q[1..], e);
      assert Sorted(q[1..]) by {
        forall i, j | 0 <= i < j < |q| - 1
          ensures q[1..][i].executionSeconds <= q[1..][j].executionSeconds
        {
          assert q[1..][i] == q[i + 1] && q[1..][j] == q[j + 1];
        }
      }
      InsertSorted(q[1..], e);
      assert forall i :: 0 <= i < |q| - 1 ==> q[0].executionSeconds <= q[1..][i].executionSeconds by {
        forall i | 0 <= i < |q| - 1
          ensures q[0].executionSeconds <= q[1..][i].executionSeconds
        {
          assert q[1..][i] == q[i + 1];
        }
      }
      InsertBounded(q[1..], e, q[0].executionSeconds);
      ConsSorted(q[0], rest);
    }
  }

  /** `PriorityQueue.remove` takes the head, which is no later than any other event. */
  lemma HeadIsEarliest(q: seq<Event>)
    requires Sorted(q) && q != []
    ensures forall i :: 0 <= i < |q| ==> q[0].executionSeconds <= q[i].executionSeconds
  {
  }

  // ---------------------------------------------------------------- adding species

  /**
   * Each entry with a non-zero stoichiometry added `sign * stoichiometry`
   * times at membrane m, in list order, with `addSpecies(locatedSpecies, n)`;
   * entries with stoichiometry 0 (genes, catalysts) are skipped.
   */
  function Applied(nodes: seq<Membrane>, m: nat, ss: seq<StoichiometrySpecies>, sign: int): seq<Membrane>
    decreases |ss|
  {
    if ss == [] then nodes
    else
      var before := Applied(nodes, m, ss[..|ss| - 1], sign);
      var s := ss[|ss| - 1];
      if s.stoichiometry != 0 then AddedLocated(before, m, s.species, sign * s.stoichiometry) else before
  }

  /** Adding species never changes the tree's shape. */
  lemma {:induction false} AppliedSameShape(nodes: seq<Membrane>, m: nat, ss: seq<StoichiometrySpecies>, sign: int)
    ensures SameShape(nodes, Applied(nodes, m, ss, sign))
    decreases |ss|
  {
    if ss != [] {
      var before := Applied(nodes, m, ss[..|ss| - 1], sign);
      AppliedSameShape(nodes, m, ss[..|ss| - 1], sign);
      var s := ss[|ss| - 1];
      AddedLocatedSameShape(before, m, s.species, sign * s.stoichiometry);
    }
  }

  /** Every non-zero entry's name is in `names`. */
  predicate NamesWithin(ss: seq<StoichiometrySpecies>, names: set<string>) {
    forall i :: 0 <= i < |ss| && ss[i].stoichiometry != 0 ==> ss[i].species.speciesName in names
  }

  /** Only the species named by non-zero entries change: every other count stays put everywhere. */
  lemma {:induction false} AppliedAgree(nodes: seq<Membrane>, m: nat, ss: seq<StoichiometrySpecies>, sign: int, names: set<string>)
    requires NamesWithin(ss, names)
    ensures Agree(nodes, Applied(nodes, m, ss, sign), names)
    decreases |ss|
  {
    if ss == [] {
      AgreeRefl(nodes, names);
    } else {
      var init := ss[..|ss| - 1];
      assert NamesWithin(init, names) by {
        forall i | 0 <= i < |init| && init[i].stoichiometry != 0
          ensures init[i].species.speciesName in names
        {
          assert init[i] == ss[i];
        }
      }
      AppliedAgree(nodes, m, init, sign, names);
      var before := Applied(nodes, m, init, sign);
      var s := ss[|ss| - 1];
      if s.stoichiometry != 0 {
        AgreeAddedLocated(before, m, s.species, sign * s.stoichiometry, names);
        AgreeTrans(nodes, before, Applied(nodes, m, ss, sign), names);
      }
    }
  }

  /** A list of zero-stoichiometry entries (genes and catalysts only) changes nothing. */
  lemma {:induction false} AppliedZero(nodes: seq<Membrane>, m: nat, ss: seq<StoichiometrySpecies>, sign: int)
    requires forall i :: 0 <= i < |ss| ==> ss[i].stoichiometry == 0
    ensures Applied(nodes, m, ss, sign) == nodes
    decreases |ss|
  {
    if ss != [] {
      AppliedZero(nodes, m, ss[..|ss| - 1], sign);
    }
  }

  /** The consumed and produced entries that change anything name modified species of the reaction. */
  lemma ModifiedCovers(r: Reaction)
    ensures NamesWithin(r.consumed, ModifiedSpecies(r))
    ensures NamesWithin(r.produced, ModifiedSpecies(r))
  {
    var s := r.consumed + r.produced;
    forall i | 0 <= i < |r.consumed| && r.consumed[i].stoichiometry != 0
      ensures r.consumed[i].species.speciesName in ModifiedSpecies(r)
    {
      assert s[i] == r.consumed[i];
    }
    forall i | 0 <= i < |r.produced| && r.produced[i].stoichiometry != 0
      ensures r.produced[i].species.speciesName in ModifiedSpecies(r)
    {
      assert s[|r.consumed| + i] == r.produced[i];
    }
  }

  /** One more entry of the list applied. */
  lemma AppliedStep(nodes: seq<Membrane>, m: nat, ss: seq<StoichiometrySpecies>, i: nat, sign: int)
    requires i < |ss|
    ensures Applied(nodes, m, ss[..i + 1], sign) ==
      if ss[i].stoichiometry != 0 then AddedLocated(Applied(nodes, m, ss[..i], sign), m, ss[i].species, sign * ss[i].stoichiometry)
      else Applied(nodes, m, ss[..i], sign)
  {
    assert ss[..i + 1][..i] == ss[..i];
  }

  /** The loop `for (stoichSpecies : species) if (stoich != 0) membrane.addSpecies(stoichSpecies, sign * stoich)`. */
  method ApplySpecies(tree: Tree, m: nat, ss: seq<StoichiometrySpecies>, sign: int)
    requires tree.Valid() && m < |tree.nodes|
    modifies tree
    ensures tree.Valid() && tree.nodes == Applied(old(tree.nodes), m, ss, sign)
    ensures tree.typeIndices == old(tree.typeIndices) && tree.cache == old(tree.cache) && tree.resetMark == old(tree.resetMark)
  {
    var i := 0;
    while i < |ss|
      invariant 0 <= i <= |ss|
      invariant tree.Valid() && tree.nodes == Applied(old(tree.nodes), m, ss[..i], sign)
      invariant |tree.nodes| == |old(tree.nodes)|
      invariant tree.typeIndices == old(tree.typeIndices) && tree.cache == old(tree.cache) && tree.resetMark == old(tree.resetMark)
    {
      AppliedStep(old(tree.nodes), m, ss, i, sign);
      if ss[i].stoichiometry != 0 {
        AddedLocatedSameShape(tree.nodes, m, ss[i].species, sign * ss[i].stoichiometry);
        tree.AddLocatedSpecies(m, ss[i].species, sign * ss[i].stoichiometry);
      }
      i := i + 1;
    }
    assert ss[..i] == ss;
  }

  // ---------------------------------------------------------------- timing

  /** A waiting time is never negative when ln is non-negative above 1, as `Math.log` is. */
  lemma WaitNonNegative(omega: real, u: real, ln: real -> real)
    requires omega > 0.0 && 0.0 < u < 1.0
    requires forall x :: x > 1.0 ==> ln(x) >= 0.0
    ensures WaitSeconds(omega, u, ln) >= 0.0
  {
    assert 1.0 / u > 1.0;
    assert 1.0 / omega > 0.0;
    var l := ln(1.0 / u);
    assert l >= 0.0;
    assert (1.0 / omega) * l >= 0.0;
  }

  /**
   * The execution time the `QueueEvent` constructor gives an event as
   * written: the delay after the clock, which at that point has not yet
   * been advanced by the waiting time of the reaction being fired.
   */
  function EnqueueTimeAsWritten(currentSeconds: real, delaySeconds: real): real {
    delaySeconds + currentSeconds
  }

  /** The execution time the delay evidently means: the delay after the firing itself. */
  function EnqueueTime(currentSeconds: real, waitSeconds: real, delaySeconds: real): (t: real)
    ensures waitSeconds >= 0.0 && delaySeconds >= 0.0 ==> t >= currentSeconds + waitSeconds
    ensures t - (currentSeconds + waitSeconds) == delaySeconds
  {
    currentSeconds + waitSeconds + delaySeconds
  }

  /** What one step did, for the contracts. */
  datatype StepKind = Fired(reaction: nat, membraneId: nat) | RanEvent(event: Event) | Stopped

  /** How a run ended: `runForSeconds` false, true, or the step bound was reached first. */
  datatype RunOutcome = Reached | StoppedEarly | OutOfSteps

  // ---------------------------------------------------------------- chunks

  /** The ceiling of n / p, for a non-zero p. */
  function CeilDiv(n: int, p: int): (c: int)
    requires p != 0
    ensures p > 0 ==> (c - 1) * p < n <= c * p
    ensures p < 0 ==> c * p <= n < (c - 1) * p
  {
    if p > 0 then -((-n) / p) else -(n / (-p))
  }

  /** Java's `(int)` cast of a double that holds an integer: values beyond the range saturate. */
  function ClampInt(x: int): (r: int)
    ensures Text.IntMin <= r <= Text.IntMax
    ensures Text.IntMin <= x <= Text.IntMax ==> r == x
    ensures x > Text.IntMax ==> r == Text.IntMax
    ensures x < Text.IntMin ==> r == Text.IntMin
  {
    if x > Text.IntMax then Text.IntMax else if x < Text.IntMin then Text.IntMin else x
  }

  /**
   * `(int) Math.ceil((double) numSeconds / secondsBeforePrint)`. Division by
   * zero gives infinity (the largest int), minus infinity (the smallest) or
   * NaN (0).
   */
  function NumUpdates(numSeconds: int, secondsBeforePrint: int): (u: int)
    ensures Text.IntMin <= u <= Text.IntMax
    ensures secondsBeforePrint == 0 ==>
      (numSeconds > 0 ==> u == Text.IntMax) && (numSeconds == 0 ==> u == 0) && (numSeconds < 0 ==> u == Text.IntMin)
  {
    if secondsBeforePrint == 0 then
      if numSeconds > 0 then Text.IntMax else if numSeconds < 0 then Text.IntMin else 0
    else ClampInt(CeilDiv(numSeconds, secondsBeforePrint))
  }

  /**
   * With a positive chunk length and no saturation, the chunks cover the
   * requested time and one fewer would not.
   */
  lemma ChunksCover(numSeconds: int, secondsBeforePrint: int)
    requires secondsBeforePrint > 0 && 0 <= numSeconds <= Text.IntMax
    ensures NumUpdates(numSeconds, secondsBeforePrint) >= 0
    ensures NumUpdates(numSeconds, secondsBeforePrint) * secondsBeforePrint >= numSeconds
    ensures (NumUpdates(numSeconds, secondsBeforePrint) - 1) * secondsBeforePrint < numSeconds
  {
    var p := secondsBeforePrint;
    var c := CeilDiv(numSeconds, p);
    if c < 0 {
      AtLeastFactor(-c, p);
      assert false;
    }
    if c > numSeconds {
      AtLeastFactor(c - 1, p);
      assert false;
    }
    assert NumUpdates(numSeconds, p) == c;
  }

  /** How many chunks `runSeconds` runs: `NumUpdates`, or none when that is negative. */
  function Chunks(numSeconds: int, secondsBeforePrint: int): (c: nat)
    ensures c == 0 || c == NumUpdates(numSeconds, secondsBeforePrint)
    ensures secondsBeforePrint > 0 && 0 <= numSeconds <= Text.IntMax ==> c * secondsBeforePrint >= numSeconds
  {
    var u := NumUpdates(numSeconds, secondsBeforePrint);
    if secondsBeforePrint > 0 && 0 <= numSeconds <= Text.IntMax then
      ChunksCover(numSeconds, secondsBeforePrint);
      u
    else if u > 0 then u else 0
  }

  /** The length of `chunks` chunks of `p` seconds, added up one at a time. */
  function ChunkTotal(chunks: nat, p: int): int {
    if chunks == 0 then 0 else ChunkTotal(chunks - 1, p) + p
  }

  lemma {:induction false} ChunkTotalIsProduct(chunks: nat, p: int)
    ensures ChunkTotal(chunks, p) == chunks * p
  {
    if chunks > 0 {
      ChunkTotalIsProduct(chunks - 1, p);
      assert (chunks - 1) * p + p == chunks * p;
    }
  }

  /** A non-negative number times a positive one is at least the first. */
  lemma AtLeastFactor(a: int, p: int)
    requires a >= 0 && p >= 1
    ensures a * p >= a
  {
    assert a * p == a * (p - 1) + a;
  }

  /**
   * The counts after reaction r fires at membrane m: its consumed species
   * removed and, when it has no delay, its products added.
   */
  function FiredNodes(nodes: seq<Membrane>, reaction: Reaction, m: nat): seq<Membrane> {
    var consumed := Applied(nodes, m, reaction.consumed, -1);
    if DelaySeconds(reaction) > 0.0 then consumed else Applied(consumed, m, reaction.produced, 1)
  }

  /** The queue after reaction r fires at m: a product release after the delay when there is one. */
  function FiredQueue(q: seq<Event>, reaction: Reaction, r: nat, m: nat, now: real, wait: real): seq<Event> {
    if DelaySeconds(reaction) > 0.0 then
      Insert(q, AddProducts(EnqueueTime(now, wait, DelaySeconds(reaction)), reaction.produced, m, r))
    else q
  }

  /** The guard of `step`'s firing branch: the queue is empty or the firing is due strictly before its head. */
  predicate FiresFirst(q: seq<Event>, clock: real, wait: real) {
    q == [] || clock + wait < q[0].executionSeconds
  }

  /** The queue after reaction r fires at m as written: the release is timed from the clock before the step. */
  function FiredQueueAsWritten(q: seq<Event>, reaction: Reaction, r: nat, m: nat, now: real): seq<Event> {
    if DelaySeconds(reaction) > 0.0 then
      Insert(q, AddProducts(EnqueueTimeAsWritten(now, DelaySeconds(reaction)), reaction.produced, m, r))
    else q
  }

  /**
   * As written, a reaction whose delay is shorter than its waiting time
   * puts its release at the head of the queue, due before the clock the
   * firing leaves. Whatever the next draw, the next step cannot fire, so it
   * runs that release and reports delay - wait seconds, a negative time.
   */
  lemma AsWrittenEventPrecedesFiring(q: seq<Event>, reaction: Reaction, r: nat, m: nat, now: real, wait: real, nextWait: real)
    requires Sorted(q) && FiresFirst(q, now, wait)
    requires 0.0 < DelaySeconds(reaction) < wait && nextWait >= 0.0
    ensures var after := FiredQueueAsWritten(q, reaction, r, m, now);
      var clock := now + wait;
      after != [] && after[0] == AddProducts(now + DelaySeconds(reaction), reaction.produced, m, r) &&
      !FiresFirst(after, clock, nextWait) &&
      after[0].executionSeconds - clock == DelaySeconds(reaction) - wait &&
      after[0].executionSeconds - clock < 0.0
  {
    var e := AddProducts(EnqueueTimeAsWritten(now, DelaySeconds(reaction)), reaction.produced, m, r);
    assert Insert(q, e) == [e] + q;
  }

  /**
   * With the corrected time, every event queued after a firing is due no
   * earlier than the clock the firing leaves, so the following event step
   * reports a time that is not negative.
   */
  lemma FiredEventFollowsFiring(q: seq<Event>, reaction: Reaction, r: nat, m: nat, now: real, wait: real)
    requires Sorted(q) && FiresFirst(q, now, wait) && wait >= 0.0
    ensures var after := FiredQueue(q, reaction, r, m, now, wait);
      Sorted(after) && forall i :: 0 <= i < |after| ==> after[i].executionSeconds >= now + wait
  {
    if q != [] {
      HeadIsEarliest(q);
    }
    if DelaySeconds(reaction) > 0.0 {
      var e := AddProducts(EnqueueTime(now, wait, DelaySeconds(reaction)), reaction.produced, m, r);
      InsertBounded(q, e, now + wait);
      InsertSorted(q, e);
    }
  }

  // ---------------------------------------------------------------- the simulation

  /** The time a step reports: its elapsed seconds, or none when it stopped. */
  function Elapsed(o: Option<real>): real {
    if o.Some? then o.value else 0.0
  }

  class Simulation {
    /** The propensity engine; its tree is the simulation's current state. */
    const table: RateTable
    /** The random stream: `rand(i)` is the i-th number drawn. */
    const rand: nat -> real
    /** How many numbers have been drawn so far. */
    var drawn: nat
    /** `eventQueue`. */
    var queue: seq<Event>
    var currentSeconds: real
    /** The requested time; the clock runs until it is not below it. */
    var nominalSeconds: int

    /** An event as firing creates it: its reaction's products, at a membrane that reaction matches. */
    ghost predicate EventOk(e: Event) {
      e.reaction < |table.reactions| && e.reaction < |table.matches| &&
      e.membrane in table.matches[e.reaction] &&
      e.speciesToAdd == table.reactions[e.reaction].produced
    }

    /** The invariant with the clock at t: every queued event is due no earlier than t. */
    ghost predicate ValidAt(t: real)
      reads this, table, table.tree, table.rates
    {
      table.Valid() && table.Tracking() &&
      (forall i :: 0.0 < rand(i) < 1.0) &&
      (forall x :: x > 1.0 ==> table.ln(x) >= 0.0) &&
      QueueOk(queue, t)
    }

    /** An ordered queue of well-formed events, none due before t. */
    ghost predicate QueueOk(q: seq<Event>, t: real) {
      Sorted(q) && forall i :: 0 <= i < |q| ==> EventOk(q[i]) && q[i].executionSeconds >= t
    }

    /** A well-formed event due no earlier than t can join such a queue. */
    lemma QueueInsert(q: seq<Event>, e: Event, t: real)
      requires QueueOk(q, t) && EventOk(e) && e.executionSeconds >= t
      ensures QueueOk(Insert(q, e), t)
    {
      InsertSorted(q, e);
      InsertMembers(q, e);
    }

    /** When the head is due after t, the whole queue is. */
    lemma QueueLater(q: seq<Event>, t: real, t': real)
      requires QueueOk(q, t) && (q == [] || t' < q[0].executionSeconds)
      ensures QueueOk(q, t')
    {
      if q != [] {
        HeadIsEarliest(q);
      }
    }

    /** Taking the head leaves a queue due no earlier than the head. */
    lemma QueueTail(q: seq<Event>, t: real)
      requires QueueOk(q, t) && q != []
      ensures QueueOk(q[1..], q[0].executionSeconds) && EventOk(q[0]) && q[0].executionSeconds >= t
    {
      forall i | 0 <= i < |q| - 1
        ensures q[1..][i] == q[i + 1]
      {
      }
    }

    ghost predicate Valid()
      reads this, table, table.tree, table.rates
    {
      currentSeconds >= 0.0 && ValidAt(currentSeconds)
    }

    /** The `Simulation` constructor: an empty queue and both clocks at 0. */
    constructor (table: RateTable, rand: nat -> real)
      requires table.Valid() && table.Tracking()
      requires forall i :: 0.0 < rand(i) < 1.0
      requires forall x :: x > 1.0 ==> table.ln(x) >= 0.0
      ensures Valid()
      ensures this.table == table && this.rand == rand
      ensures drawn == 0 && queue == [] && currentSeconds == 0.0 && nominalSeconds == 0
    {
      this.table := table;
      this.rand := rand;
      drawn := 0;
      queue := [];
      currentSeconds := 0.0;
      nominalSeconds := 0;
    }

    /** Membranes the rate table knows are inside the tree. */
    lemma KnownMembrane(m: nat)
      requires table.Fixed()
      requires m in table.idOf
      ensures m < |table.tree.nodes|
    {
      var k := table.idOf[m];
      assert table.ids[k] == m;
    }

    /**
     * Adding species at a membrane keeps the rate table's fixed facts, and
     * only the counts of species named in `names` change.
     */
    method AddAt(m: nat, ss: seq<StoichiometrySpecies>, sign: int, ghost names: set<string>)
      requires table.Fixed() && m < |table.tree.nodes| && NamesWithin(ss, names)
      modifies table.tree
      ensures table.Fixed() && table.tree.nodes == Applied(old(table.tree.nodes), m, ss, sign)
      ensures Agree(old(table.tree.nodes), table.tree.nodes, names)
    {
      ghost var before := table.tree.nodes;
      ApplySpecies(table.tree, m, ss, sign);
      AppliedAgree(before, m, ss, sign, names);
    }

    /** The events already queued and the one added are all that the queue then holds. */
    lemma InsertMembers(q: seq<Event>, e: Event)
      ensures forall i :: 0 <= i < |Insert(q, e)| ==> Insert(q, e)[i] == e || Insert(q, e)[i] in q
    {
      var r := Insert(q, e);
      forall i | 0 <= i < |r|
        ensures r[i] == e || r[i] in q
      {
        assert r[i] in multiset(r);
      }
    }

    /**
     * The firing half of `step`: the consumed species with a non-zero
     * stoichiometry are removed at once; the products are queued for after
     * the delay when there is one and added at once otherwise.
     */
    method FireReaction(r: nat, k: nat, wait: real)
      requires Valid() && table.previous == Some((r, k)) && table.snapshot == table.tree.nodes
      requires wait >= 0.0 && (queue == [] || currentSeconds + wait < queue[0].executionSeconds)
      modifies this`queue, table.tree
      ensures ValidAt(currentSeconds + wait)
      ensures table.tree.nodes == FiredNodes(old(table.tree.nodes), table.reactions[r], table.ids[k])
      ensures queue == FiredQueue(old(queue), table.reactions[r], r, table.ids[k], currentSeconds, wait)
    {
      var reaction := table.reactions[r];
      var m := table.ids[k];
      QueueLater(queue, currentSeconds, currentSeconds + wait);
      FireAt(r, k);
      var delay := DelaySeconds(reaction);
      if delay > 0.0 {
        var e := AddProducts(EnqueueTime(currentSeconds, wait, delay), reaction.produced, m, r);
        QueueInsert(queue, e, currentSeconds + wait);
        queue := Insert(queue, e);
      }
    }

    /**
     * The species half of firing: the consumed species go at once, and the
     * products too when the reaction has no delay. The table keeps tracking
     * the state, since only the reaction's modified species change.
     */
    method FireAt(r: nat, k: nat)
      requires table.Valid() && table.Tracking() && table.previous == Some((r, k)) && table.snapshot == table.tree.nodes
      modifies table.tree
      ensures table.Valid() && table.Tracking()
      ensures table.tree.nodes == FiredNodes(old(table.tree.nodes), table.reactions[r], table.ids[k])
    {
      var reaction := table.reactions[r];
      var m := table.ids[k];
      ghost var names := ModifiedSpecies(reaction);
      assert m in table.idOf;
      KnownMembrane(m);
      ModifiedCovers(reaction);
      ghost var before := table.tree.nodes;
      AddAt(m, reaction.consumed, -1, names);
      if DelaySeconds(reaction) <= 0.0 {
        ghost var middle := table.tree.nodes;
        AddAt(m, reaction.produced, 1, names);
        AgreeTrans(before, middle, table.tree.nodes, names);
      }
    }

    /**
     * The event half of `step`: the head of the queue is removed, its
     * products are added at its membrane, and the rates are recomputed as
     * if its reaction had just fired there. The clock will land on its
     * execution time.
     */
    method RunHeadEvent() returns (res: Result<()>)
      requires Valid() && queue != [] && table.CoherentWith(table.tree.nodes) && table.snapshot == table.tree.nodes
      modifies this`queue, table, table.tree, table.rates
      ensures queue == old(queue)[1..]
      ensures table.tree.nodes == Applied(old(table.tree.nodes), old(queue)[0].membrane, old(queue)[0].speciesToAdd, 1)
      ensures table.previous == None
      ensures res.Success? <==>
        table.Recomputable(Get(table.deps, (old(queue)[0].reaction, table.idOf[old(queue)[0].membrane])))
      ensures res.Success? ==> ValidAt(old(queue)[0].executionSeconds) && table.CoherentWith(table.tree.nodes)
    {
      var e := queue[0];
      QueueTail(queue, currentSeconds);
      queue := queue[1..];
      KnownMembrane(e.membrane);
      ModifiedCovers(table.reactions[e.reaction]);
      AddAt(e.membrane, e.speciesToAdd, 1, ModifiedSpecies(table.reactions[e.reaction]));
      res := table.RecalculatePropensitiesFrom(e.reaction, e.membrane);
    }

    /**
     * The choice at the start of `step`: the rate table is brought up to
     * date and picks a reaction from the next two draws, or none (drawing
     * nothing) when no rate is positive.
     */
    method ChooseNext() returns (res: Result<Option<ChosenReaction>>, ghost omega: real)
      requires Valid()
      modifies this`drawn, table, table.rates
      ensures res.Success? ==>
        Valid() && table.CoherentWith(table.tree.nodes) && table.snapshot == table.tree.nodes &&
        omega == TableSum(table.rates, table.rates.Length0) && omega >= 0.0
      ensures res.Success? && res.value.None? ==> omega == 0.0 && drawn == old(drawn)
      ensures res.Success? && res.value.Some? ==>
        omega > 0.0 && drawn == old(drawn) + 2 && table.previous.Some? &&
        var (r, k) := table.previous.value;
        FirstReaching(table.rates, Target(omega, rand(old(drawn) + 1)), r, k) &&
        res.value.value == ChosenReaction(Some(r), Some(table.ids[k]), WaitSeconds(omega, rand(old(drawn)), table.ln)) &&
        WaitSeconds(omega, rand(old(drawn)), table.ln) >= 0.0
    {
      var chosen, used := table.ChooseRandomReaction(rand(drawn), rand(drawn + 1));
      if chosen.Failure? {
        return Failure(chosen.error), 0.0;
      }
      omega := TableSum(table.rates, table.rates.Length0);
      table.CoherentNonNegative(table.tree.nodes);
      TableSumBounds(table.rates, table.rates.Length0);
      if chosen.value.Some? {
        WaitNonNegative(omega, rand(drawn), table.ln);
      }
      drawn := drawn + used;
      res := chosen;
    }

    /**
     * `step`: asks the rate table for a reaction (two draws when one is
     * viable); fires it when the queue is empty or it is due strictly
     * before the head event, otherwise runs the head event, and reports
     * nothing when there is neither. The reported time is never negative
     * and every queued event stays due no earlier than the clock after it.
     */
    method Step() returns (res: Result<Option<real>>, ghost taken: StepKind, ghost omega: real)
      requires Valid()
      modifies this, table, table.tree, table.rates
      ensures currentSeconds == old(currentSeconds) && nominalSeconds == old(nominalSeconds)
      ensures res.Success? ==> Elapsed(res.value) >= 0.0 && ValidAt(currentSeconds + Elapsed(res.value))
      ensures res.Success? ==> omega >= 0.0 && (res.value.None? <==> taken.Stopped?)
      ensures res.Success? && taken.Stopped? ==>
        omega == 0.0 && old(queue) == [] && queue == [] && drawn == old(drawn) &&
        table.tree.nodes == old(table.tree.nodes) && table.CoherentWith(table.tree.nodes) &&
        TableSum(table.rates, table.rates.Length0) == 0.0
      ensures res.Success? && taken.Fired? ==>
        var r, k := taken.reaction, taken.membraneId;
        omega > 0.0 && drawn == old(drawn) + 2 && table.previous == Some((r, k)) &&
        omega == TableSum(table.rates, table.rates.Length0) &&
        FirstReaching(table.rates, Target(omega, rand(old(drawn) + 1)), r, k) &&
        var wait := WaitSeconds(omega, rand(old(drawn)), table.ln);
        res.value.Some? && res.value.value == wait &&
        (old(queue) == [] || old(currentSeconds) + wait < old(queue)[0].executionSeconds) &&
        table.tree.nodes == FiredNodes(old(table.tree.nodes), table.reactions[r], table.ids[k]) &&
        queue == FiredQueue(old(queue), table.reactions[r], r, table.ids[k], currentSeconds, wait)
      ensures res.Success? && taken.RanEvent? ==>
        var e := taken.event;
        old(queue) != [] && e == old(queue)[0] && queue == old(queue)[1..] &&
        (omega == 0.0 || old(currentSeconds) + WaitSeconds(omega, rand(old(drawn)), table.ln) >= e.executionSeconds) &&
        drawn == old(drawn) + (if omega == 0.0 then 0 else 2) &&
        res.value.Some? && res.value.value == e.executionSeconds - currentSeconds &&
        table.tree.nodes == Applied(old(table.tree.nodes), e.membrane, e.speciesToAdd, 1) &&
        table.previous == None && table.CoherentWith(table.tree.nodes)
    {
      var chosen;
      chosen, omega := ChooseNext();
      if chosen.Failure? {
        return Failure(chosen.error), Stopped, 0.0;
      }
      res, taken := Dispatch(chosen.value);
    }

    /**
     * The second half of `step`, once the table has chosen `c`: fire it when
     * the queue is empty or it is due strictly before the head event,
     * otherwise run the head event, and report nothing when there is neither.
     */
    method Dispatch(c: Option<ChosenReaction>) returns (res: Result<Option<real>>, ghost taken: StepKind)
      requires Valid() && table.CoherentWith(table.tree.nodes) && table.snapshot == table.tree.nodes
      requires c.Some? ==> c.value.secondsToFiring >= 0.0 && table.previous.Some?
      modifies this`queue, table, table.tree, table.rates
      ensures res.Success? ==> Elapsed(res.value) >= 0.0 && ValidAt(currentSeconds + Elapsed(res.value))
      ensures res.Success? ==> (res.value.None? <==> taken.Stopped?)
      ensures res.Success? && taken.Stopped? ==>
        c.None? && old(queue) == [] && queue == [] && table.tree.nodes == old(table.tree.nodes) &&
        table.CoherentWith(table.tree.nodes) && unchanged(table.rates) && table.previous == old(table.previous)
      ensures res.Success? && taken.Fired? ==>
        var r, k := taken.reaction, taken.membraneId;
        c.Some? && table.previous == old(table.previous) == Some((r, k)) && unchanged(table.rates) &&
        res.value.Some? && res.value.value == c.value.secondsToFiring &&
        (old(queue) == [] || currentSeconds + c.value.secondsToFiring < old(queue)[0].executionSeconds) &&
        table.tree.nodes == FiredNodes(old(table.tree.nodes), table.reactions[r], table.ids[k]) &&
        queue == FiredQueue(old(queue), table.reactions[r], r, table.ids[k], currentSeconds, c.value.secondsToFiring)
      ensures res.Success? && taken.RanEvent? ==>
        var e := taken.event;
        old(queue) != [] && e == old(queue)[0] && queue == old(queue)[1..] &&
        (c.None? || currentSeconds + c.value.secondsToFiring >= e.executionSeconds) &&
        res.value.Some? && res.value.value == e.executionSeconds - currentSeconds &&
        table.tree.nodes == Applied(old(table.tree.nodes), e.membrane, e.speciesToAdd, 1) &&
        table.previous == None && table.CoherentWith(table.tree.nodes)
    {
      if c.Some? && (queue == [] || currentSeconds + c.value.secondsToFiring < queue[0].executionSeconds) {
        var (r, k) := table.previous.value;
        var wait := c.value.secondsToFiring;
        FireReaction(r, k, wait);
        return Success(Some(wait)), Fired(r, k);
      } else if queue != [] {
        var e := queue[0];
        var ran := RunHeadEvent();
        if ran.Failure? {
          return Failure(ran.error), RanEvent(e);
        }
        return Success(Some(e.executionSeconds - currentSeconds)), RanEvent(e);
      } else {
        return Success(None), Stopped;
      }
    }

    /**
     * One pass of the `runForSeconds` loop body: a step, then the clock moves
     * on by the time it reports. False when the step found nothing to do.
     */
    method Advance() returns (res: Result<bool>)
      requires Valid()
      modifies this, table, table.tree, table.rates
      ensures nominalSeconds == old(nominalSeconds) && currentSeconds >= old(currentSeconds)
      ensures res.Success? ==> Valid()
      ensures res == Success(false) ==>
        currentSeconds == old(currentSeconds) && queue == [] &&
        table.CoherentWith(table.tree.nodes) && TableSum(table.rates, table.rates.Length0) == 0.0
    {
      var elapsed, taken, omega := Step();
      if elapsed.Failure? {
        return Failure(elapsed.error);
      }
      if elapsed.value.None? {
        return Success(false);
      }
      currentSeconds := currentSeconds + elapsed.value.value;
      return Success(true);
    }

    /**
     * `runForSeconds`: the requested time grows by numSeconds and steps run
     * while the clock is below it. The clock never goes back. A step that
     * finds nothing to do ends the run early, with no event queued and
     * every rate 0. `fuel` bounds the number of steps.
     */
    method RunForSeconds(numSeconds: int, fuel: nat) returns (res: Result<RunOutcome>)
      requires Valid()
      modifies this, table, table.tree, table.rates
      ensures nominalSeconds == old(nominalSeconds) + numSeconds
      ensures res.Success? ==> Valid() && currentSeconds >= old(currentSeconds)
      ensures res == Success(Reached) ==> currentSeconds >= nominalSeconds as real
      ensures res == Success(StoppedEarly) ==>
        currentSeconds < nominalSeconds as real && queue == [] &&
        table.CoherentWith(table.tree.nodes) && TableSum(table.rates, table.rates.Length0) == 0.0
      ensures res == Success(OutOfSteps) ==> currentSeconds < nominalSeconds as real
    {
      nominalSeconds := nominalSeconds + numSeconds;
      var steps := 0;
      while currentSeconds < nominalSeconds as real
        invariant Valid() && currentSeconds >= old(currentSeconds)
        invariant nominalSeconds == old(nominalSeconds) + numSeconds
        invariant steps <= fuel
        decreases fuel - steps
      {
        if steps == fuel {
          return Success(OutOfSteps);
        }
        var moved := Advance();
        if moved.Failure? {
          return Failure(moved.error);
        }
        if !moved.value {
          return Success(StoppedEarly);
        }
        steps := steps + 1;
      }
      return Success(Reached);
    }

    /**
     * `runSeconds`: both clocks restart at 0 and the run goes in
     * `NumUpdates` chunks of secondsBeforePrint, ending after the first
     * chunk that stops early. A run that is not cut short has requested
     * exactly that many chunks and the clock has reached them.
     */
    method RunSeconds(numSeconds: int, secondsBeforePrint: int, fuel: nat) returns (res: Result<RunOutcome>)
      requires Valid()
      modifies this, table, table.tree, table.rates
      ensures res.Success? ==> Valid()
      ensures res == Success(Reached) ==>
        nominalSeconds == Chunks(numSeconds, secondsBeforePrint) * secondsBeforePrint &&
        currentSeconds >= nominalSeconds as real
      ensures res == Success(Reached) && secondsBeforePrint > 0 && 0 <= numSeconds <= Text.IntMax ==>
        currentSeconds >= numSeconds as real
      ensures res == Success(StoppedEarly) ==>
        queue == [] && table.CoherentWith(table.tree.nodes) && TableSum(table.rates, table.rates.Length0) == 0.0
    {
      currentSeconds := 0.0;
      nominalSeconds := 0;
      var numUpdates := NumUpdates(numSeconds, secondsBeforePrint);
      var i := 0;
      while i < numUpdates
        invariant Valid() && 0 <= i && (i == 0 || i <= numUpdates)
        invariant nominalSeconds == ChunkTotal(i, secondsBeforePrint)
        invariant currentSeconds >= nominalSeconds as real
      {
        var chunk := RunForSeconds(secondsBeforePrint, fuel);
        if chunk.Failure? {
          return Failure(chunk.error);
        }
        if chunk.value != Reached {
          return chunk;
        }
        i := i + 1;
      }
      assert i == Chunks(numSeconds, secondsBeforePrint);
      ChunkTotalIsProduct(i, secondsBeforePrint);
      if secondsBeforePrint > 0 && 0 <= numSeconds <= Text.IntMax {
        ChunksCover(numSeconds, secondsBeforePrint);
      }
      return Success(Reached);
    }

    /** `getCurrentHours`: the clock in hours. */
    function CurrentHours(): (h: real)
      reads this
      ensures h * 3600.0 == currentSeconds
    {
      currentSeconds / 3600.0
    }

    /**
     * `resolveAroundSpecies`: a species not `around` stands for itself; an
     * `around X` species stands for `contained P` for the type P of each
     * membrane that is the parent of an X membrane (one entry per such
     * parent).
     */
    method ResolveAroundSpecies(ls: LocatedSpecies) returns (results: seq<LocatedSpecies>)
      requires table.tree.Valid() && |table.tree.nodes| > 0
      ensures ls.location != Around ==> results == [ls]
      ensures ls.location == Around ==>
        var nodes := table.tree.nodes;
        var parents := MatchingMembranes(nodes, 0, ls.membraneName, Around);
        |results| == |parents| &&
        forall x :: x in results <==>
          exists m :: m in parents && m < |nodes| && x == LocatedSpecies(ls.speciesName, Contained, nodes[m].mtype)
    {
      if ls.location != Around {
        return [ls];
      }
      var nodes := table.tree.nodes;
      var parents := table.tree.MatchingMembranesOf(0, ls.membraneName, Around);
      results := [];
      var left := parents;
      while left != {}
        invariant left <= parents
        invariant |results| + |left| == |parents|
        invariant forall x :: x in results <==>
          exists m :: m in parents - left && m < |nodes| && x == LocatedSpecies(ls.speciesName, Contained, nodes[m].mtype)
        decreases |left|
      {
        var m :| m in left;
        assert m < |nodes| by {
          var base := if OfType(nodes, 0, ls.membraneName) != {} then OfType(nodes, 0, ls.membraneName)
                      else WithTag(nodes, 0, ls.membraneName);
          var c :| c in base && c < |nodes| && nodes[c].parent.Some? && nodes[c].parent.value == m;
        }
        results := results + [LocatedSpecies(ls.speciesName, Contained, nodes[m].mtype)];
        left := left - {m};
      }
    }
  }
}
