/** The body of `drawNames`, run against the repositories: it reads the
    participants, shuffles the givers, and for each giver queries the live log,
    filters the pool, picks a receiver, records the pair and saves one record.
    Both services call it and differ only in how they report its outcome. */
module DrawEngine {
  import opened Wrappers
  import opened Entities
  import opened Repositories
  import opened DrawSpec
  import opened DrawProperties

  method Run(store: Store, rng: Rng, year: int) returns (o: DrawOutcome)
    requires store.Valid()
    modifies store
    ensures store.Valid()
    ensures store.participants == old(store.participants) && store.nextId == old(store.nextId)
    ensures o == Draw(old(store.participants), old(store.assignments), rng, year)
    ensures o.Drawn? ==> IsDerangement(old(store.participants), o.assignments)
    ensures o.Drawn? ==> AvoidsRecentPairs(o.assignments, old(store.assignments), year)
    ensures o.Drawn? ==> Elems(Shuffled(old(store.participants), rng)) == Elems(old(store.participants))
    ensures o.Drawn? ==>
      store.assignments == old(store.assignments) + RecordsFor(Shuffled(old(store.participants), rng), o.assignments, year)
    // A failed run may leave the records it saved before failing; the caller's
    // transaction discards them.
    ensures !o.Drawn? ==> old(store.assignments) <= store.assignments
  {
    var participants := store.participants;
    if |participants| < 2 {
      return TooFewParticipants;
    }
    var givers := Shuffled(participants, rng);
    ghost var log := store.assignments;
    var stuckAt, assignments := AssignAll(store, givers, rng, year);
    ghost var outcome := DrawLoop(givers, 0, InitialState(participants), log, rng, year);
    if stuckAt.Some? {
      StuckDraw(participants, log, rng, year, stuckAt.value);
      return NoValidReceiver(stuckAt.value);
    }
    CompletedDraw(participants, log, rng, year, outcome.state);
    o := Drawn(assignments);
  }

  /** The loop of `drawNames` over the shuffled givers, from a full pool and an
      empty assignment map; it stops at the first giver left without a receiver. */
  method AssignAll(store: Store, givers: seq<Participant>, rng: Rng, year: int)
    returns (stuckAt: Option<Participant>, assignments: map<Participant, Participant>)
    requires |store.participants| >= 2 && givers == Shuffled(store.participants, rng)
    modifies store
    ensures store.participants == old(store.participants) && store.nextId == old(store.nextId)
    ensures old(store.assignments) <= store.assignments
    ensures stuckAt.Some? ==>
      DrawLoop(givers, 0, InitialState(store.participants), old(store.assignments), rng, year) == Stuck(stuckAt.value)
    ensures stuckAt.None? ==>
      var outcome := DrawLoop(givers, 0, InitialState(store.participants), old(store.assignments), rng, year);
      && outcome.Completed?
      && outcome.state.assignments == assignments
      && store.assignments == old(store.assignments) + outcome.state.saved
  {
    var participants := store.participants;
    var availableReceivers := participants;
    assignments := map[];
    var calls := |participants| - 1;   // random calls the shuffle made
    ghost var log := store.assignments;
    ghost var saved: seq<GiftAssignment> := [];
    ghost var whole := DrawLoop(givers, 0, InitialState(participants), log, rng, year);
    var i := 0;
    while i < |givers|
      invariant 0 <= i <= |givers|
      invariant calls == |participants| - 1 + i
      invariant store.participants == participants && store.nextId == old(store.nextId)
      invariant store.assignments == log + saved
      invariant DrawLoop(givers, i, DrawState(availableReceivers, assignments, saved), log, rng, year) == whole
    {
      var stuck;
      ghost var saved';
      stuck, availableReceivers, assignments, saved' := AssignOne(store, givers, i, availableReceivers, assignments, log, saved, rng, calls, year);
      if stuck {
        return Some(givers[i]), assignments;
      }
      saved := saved';
      calls := calls + 1;
      i := i + 1;
    }
    stuckAt := None;
  }

  /** One turn of the `forEach`: query the receivers this giver had within the
      window (the live log), filter the pool, and either stop (no valid receiver)
      or pick one at random, record the pair, remove the receiver from the pool
      and save the record. */
  method AssignOne(store: Store, givers: seq<Participant>, i: nat, available: seq<Participant>,
                   assignments: map<Participant, Participant>, ghost log: seq<GiftAssignment>,
                   ghost saved: seq<GiftAssignment>, rng: Rng, calls: nat, year: int)
    returns (stuck: bool, available': seq<Participant>, assignments': map<Participant, Participant>, ghost saved': seq<GiftAssignment>)
    requires i < |givers| && calls == PickCall(givers, i)
    requires store.assignments == log + saved
    modifies store
    ensures store.participants == old(store.participants) && store.nextId == old(store.nextId)
    ensures store.assignments == log + saved'
    ensures stuck ==> saved' == saved && DrawLoop(givers, i, DrawState(available, assignments, saved), log, rng, year) == Stuck(givers[i])
    ensures !stuck ==> DrawLoop(givers, i, DrawState(available, assignments, saved), log, rng, year) ==
                       DrawLoop(givers, i + 1, DrawState(available', assignments', saved'), log, rng, year)
  {
    var giver := givers[i];
    var invalidReceivers := RecentReceiverIds(store.assignments, giver, year);
    var validReceivers := ValidReceivers(available, giver, invalidReceivers);
    if validReceivers == [] {
      LoopStuck(givers, i, DrawState(available, assignments, saved), log, rng, year);
      return true, available, assignments, saved;
    }
    var receiver := validReceivers[NextInt(rng, calls, |validReceivers|)];
    LoopUnfold(givers, i, DrawState(available, assignments, saved), log, rng, year, receiver);
    assignments' := assignments[giver := receiver];
    available' := RemoveFirst(available, receiver);
    store.assignments := store.assignments + [GiftAssignment(giver, receiver, year)];
    saved' := saved + [GiftAssignment(giver, receiver, year)];
    stuck := false;
  }

  /** One turn of the loop that finds a receiver, as `DrawLoop` defines it. */
  lemma LoopUnfold(givers: seq<Participant>, i: nat, st: DrawState, log: seq<GiftAssignment>,
                   rng: Rng, year: int, receiver: Participant)
    requires i < |givers|
    requires
      var valid := ValidReceivers(st.available, givers[i], RecentReceiverIds(log + st.saved, givers[i], year));
      valid != [] && receiver == valid[NextInt(rng, PickCall(givers, i), |valid|)]
    ensures DrawLoop(givers, i, st, log, rng, year) ==
            DrawLoop(givers, i + 1,
                     DrawState(RemoveFirst(st.available, receiver),
                               st.assignments[givers[i] := receiver],
                               st.saved + [GiftAssignment(givers[i], receiver, year)]),
                     log, rng, year)
  {
  }

  /** A turn of the loop that finds no receiver stops the loop. */
  lemma LoopStuck(givers: seq<Participant>, i: nat, st: DrawState, log: seq<GiftAssignment>, rng: Rng, year: int)
    requires i < |givers|
    requires ValidReceivers(st.available, givers[i], RecentReceiverIds(log + st.saved, givers[i], year)) == []
    ensures DrawLoop(givers, i, st, log, rng, year) == Stuck(givers[i])
  {
  }

  lemma StuckDraw(ps: seq<Participant>, log: seq<GiftAssignment>, rng: Rng, year: int, giver: Participant)
    requires |ps| >= 2
    requires DrawLoop(Shuffled(ps, rng), 0, InitialState(ps), log, rng, year) == Stuck(giver)
    ensures Draw(ps, log, rng, year) == NoValidReceiver(giver)
  {
  }

  /** A loop that ran to the end gives a derangement and saved one record per
      giver, in the shuffled order. */
  lemma CompletedDraw(ps: seq<Participant>, log: seq<GiftAssignment>, rng: Rng, year: int, st: DrawState)
    requires DistinctIds(ps) && |ps| >= 2
    requires DrawLoop(Shuffled(ps, rng), 0, InitialState(ps), log, rng, year) == Completed(st)
    ensures Draw(ps, log, rng, year) == Drawn(st.assignments)
    ensures IsDerangement(ps, st.assignments)
    ensures AvoidsRecentPairs(st.assignments, log, year)
    ensures Elems(Shuffled(ps, rng)) == Elems(ps)
    ensures st.saved == RecordsFor(Shuffled(ps, rng), st.assignments, year)
  {
    InitialLoopInv(ps, log, rng, year);
    DrawLoopSound(ps, Shuffled(ps, rng), 0, InitialState(ps), log, rng, year);
    ShuffledIsPermutation(ps, rng);
  }
}
