/** The name draw as a function of its inputs: the participant snapshot, the
    assignment log, the random source and the current year. The imperative draw
    (DrawEngine.Run) is proved equal to `Draw`; the guarantees of the draw are
    proved here as lemmas about `Draw`. */
module DrawSpec {
  import opened Entities

  /** A random source. The k-th call `random.nextInt(bound)` made during a draw
      answers `rng(k) % bound`; every sequence of in-range answers comes from
      some `rng`, so a property proved for all `rng` holds for every run. */
  type Rng = nat -> nat

  /** Pairs given within this many years may not be repeated. */
  const WindowYears := 3

  function NextInt(rng: Rng, k: nat, bound: nat): (v: nat)
    requires bound > 0
    ensures v < bound
  {
    rng(k) % bound
  }

  /** Kotlin's `shuffle(random)` on a copy: for i from the last index down to 1,
      swap position i with position `nextInt(i + 1)`. Calls are numbered from k. */
  function ShuffleDown<T>(xs: seq<T>, i: nat, rng: Rng, k: nat): (r: seq<T>)
    requires i < |xs|
    ensures |r| == |xs|
    decreases i
  {
    if i == 0 then xs
    else
      var j := NextInt(rng, k, i + 1);
      ShuffleDown(xs[i := xs[j]][j := xs[i]], i - 1, rng, k + 1)
  }

  /** `participants.shuffled(random)`: uses calls 0 .. |xs| - 2 of the source. */
  function Shuffled<T>(xs: seq<T>, rng: Rng): (r: seq<T>)
    ensures |r| == |xs| && multiset(r) == multiset(xs)
  {
    if xs == [] then []
    else
      ShuffleDownPermutes(xs, |xs| - 1, rng, 0);
      ShuffleDown(xs, |xs| - 1, rng, 0)
  }

  /** Each swap keeps the multiset of elements, so the shuffle is a permutation. */
  lemma {:induction false} ShuffleDownPermutes<T>(xs: seq<T>, i: nat, rng: Rng, k: nat)
    requires i < |xs|
    ensures multiset(ShuffleDown(xs, i, rng, k)) == multiset(xs)
    decreases i
  {
    if i > 0 {
      var j := NextInt(rng, k, i + 1);
      var swapped := xs[i := xs[j]][j := xs[i]];
      ShuffleDownPermutes(swapped, i - 1, rng, k + 1);
      assert multiset(swapped) == multiset(xs);
    }
  }

  /** Ids of the receivers returned by
      `findByGiverAndYearGreaterThan(giver, year - 3).map { it.receiver }`;
      rows are matched to the giver by id, as the foreign key is. */
  function RecentReceiverIds(log: seq<GiftAssignment>, giver: Participant, year: int): (r: set<Id>)
    ensures forall a :: a in log && a.giver.id == giver.id && a.year > year - WindowYears ==> a.receiver.id in r
    ensures forall id :: id in r ==>
      exists a :: a in log && a.giver.id == giver.id && a.year > year - WindowYears && a.receiver.id == id
  {
    set a | a in log && a.giver.id == giver.id && a.year > year - WindowYears :: a.receiver.id
  }

  /** `availableReceivers.filter { it != giver && !invalidReceivers.contains(it) }`. */
  function ValidReceivers(available: seq<Participant>, giver: Participant, invalid: set<Id>): (r: seq<Participant>)
    ensures |r| <= |available|
    decreases |available|
  {
    if available == [] then []
    else
      var c := available[0];
      (if c != giver && c.id !in invalid then [c] else []) + ValidReceivers(available[1..], giver, invalid)
  }

  /** `MutableList.remove(element)`: drops the first occurrence. */
  function RemoveFirst(xs: seq<Participant>, x: Participant): (r: seq<Participant>)
    ensures |r| == if x in xs then |xs| - 1 else |xs|
    decreases |xs|
  {
    if xs == [] then []
    else if xs[0] == x then xs[1..] else [xs[0]] + RemoveFirst(xs[1..], x)
  }

  /** The filter keeps exactly the members of the pool that are neither the giver
      nor excluded by id. */
  lemma {:induction false} ValidReceiversMembers(available: seq<Participant>, giver: Participant, invalid: set<Id>)
    ensures forall c :: c in ValidReceivers(available, giver, invalid) <==>
                        c in available && c != giver && c.id !in invalid
    decreases |available|
  {
    if available != [] {
      ValidReceiversMembers(available[1..], giver, invalid);
      assert available == [available[0]] + available[1..];
    }
  }

  /** Removing x takes exactly one copy of x out of the pool, if there is one. */
  lemma {:induction false} RemoveFirstMultiset(xs: seq<Participant>, x: Participant)
    ensures multiset(RemoveFirst(xs, x)) == multiset(xs) - multiset{x}
    decreases |xs|
  {
    if xs != [] {
      assert xs == [xs[0]] + xs[1..];
      if xs[0] != x {
        RemoveFirstMultiset(xs[1..], x);
      }
    }
  }

  /** The mutable state of the draw loop: the pool of receivers still free, the
      assignments made so far, and the records saved so far in this draw. */
  datatype DrawState = DrawState(available: seq<Participant>, assignments: map<Participant, Participant>, saved: seq<GiftAssignment>)

  datatype LoopOutcome = Completed(state: DrawState) | Stuck(giver: Participant)

  /** The outcome of a draw, before either service turns it into its own error kind. */
  datatype DrawOutcome =
    | Drawn(assignments: map<Participant, Participant>)
    | TooFewParticipants
    | NoValidReceiver(giver: Participant)

  /** The random call that picks giver i's receiver: the shuffle made the first
      |givers| - 1 calls. */
  function PickCall(givers: seq<Participant>, i: nat): nat
    requires i < |givers|
  {
    |givers| - 1 + i
  }

  /** The `forEach` over the shuffled givers, from giver i on. The exclusion query
      reads the live log: the original log plus the records this draw saved. */
  ghost function DrawLoop(givers: seq<Participant>, i: nat, st: DrawState, log: seq<GiftAssignment>,
                          rng: Rng, year: int): (r: LoopOutcome)
    requires i <= |givers|
    ensures r.Stuck? ==> r.giver in givers[i..]
    ensures r.Completed? ==>
      && |r.state.saved| == |st.saved| + |givers| - i && r.state.saved[..|st.saved|] == st.saved
    decreases |givers| - i
  {
    if i == |givers| then Completed(st)
    else
      assert givers[i..] == [givers[i]] + givers[i + 1..];
      var giver := givers[i];
      var valid := ValidReceivers(st.available, giver, RecentReceiverIds(log + st.saved, giver, year));
      if valid == [] then Stuck(giver)
      else
        var receiver := valid[NextInt(rng, PickCall(givers, i), |valid|)];
        DrawLoop(givers, i + 1,
                 DrawState(RemoveFirst(st.available, receiver),
                           st.assignments[giver := receiver],
                           st.saved + [GiftAssignment(giver, receiver, year)]),
                 log, rng, year)
  }

  ghost function InitialState(participants: seq<Participant>): DrawState
  {
    DrawState(participants, map[], [])
  }

  /** `drawNames`: refuse fewer than two participants, shuffle the givers (random
      calls 0 .. n - 2), then run the loop (one random call per giver, n - 1 onwards). */
  ghost function Draw(participants: seq<Participant>, log: seq<GiftAssignment>, rng: Rng, year: int): (r: DrawOutcome)
    ensures r.TooFewParticipants? <==> |participants| < 2
    ensures r.NoValidReceiver? ==> r.giver in participants
  {
    if |participants| < 2 then TooFewParticipants
    else
      var givers := Shuffled(participants, rng);
      assert givers[0..] == givers;
      assert forall g :: g in givers ==> g in multiset(givers);
      match DrawLoop(givers, 0, InitialState(participants), log, rng, year)
      case Completed(st) => Drawn(st.assignments)
      case Stuck(g) => NoValidReceiver(g)
  }

  /** The records a completed draw saves: one per giver, in giver order. */
  function RecordsFor(givers: seq<Participant>, m: map<Participant, Participant>, year: int): (r: seq<GiftAssignment>)
    requires forall g :: g in givers ==> g in m
    ensures |r| == |givers|
    ensures forall j :: 0 <= j < |givers| ==> r[j] == GiftAssignment(givers[j], m[givers[j]], year)
  {
    seq(|givers|, j requires 0 <= j < |givers| => GiftAssignment(givers[j], m[givers[j]], year))
  }

  function Givers(log: seq<GiftAssignment>): (r: seq<Participant>)
    ensures |r| == |log| && forall j :: 0 <= j < |log| ==> r[j] == log[j].giver
  {
    seq(|log|, j requires 0 <= j < |log| => log[j].giver)
  }

  // ---------------------------------------------------------------------------
  // What a valid draw is

  /** Every participant gives exactly once and receives exactly once, and nobody
      gives to themselves. */
  ghost predicate IsDerangement(ps: seq<Participant>, m: map<Participant, Participant>)
  {
    && m.Keys == Elems(ps)
    && m.Values == Elems(ps)
    && (forall g, h :: g in m && h in m && g != h ==> m[g] != m[h])
    && (forall g :: g in m ==> m[g] != g)
  }

  /** No assigned pair was given in a record newer than `year - 3`. */
  ghost predicate AvoidsRecentPairs(m: map<Participant, Participant>, log: seq<GiftAssignment>, year: int)
  {
    forall g, a :: g in m && a in log && a.giver.id == g.id && a.receiver.id == m[g].id ==>
      a.year <= year - WindowYears
  }
}
