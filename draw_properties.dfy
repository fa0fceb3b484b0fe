/** The guarantees of the name draw, proved about `DrawSpec.Draw` for every random
    source: a derangement over the participants, no recent pair repeated, one
    record per giver, the exact failure cases, and the window's strictness. */
module DrawProperties {
  import opened Entities
  import opened ParticipantStore
  import opened DrawSpec

  // ---------------------------------------------------------------------------
  // Distinct ids survive the list operations the draw performs

  lemma ConsDistinctIds(p: Participant, xs: seq<Participant>)
    requires DistinctIds(xs)
    requires forall q :: q in xs ==> q.id != p.id
    ensures DistinctIds([p] + xs)
  {
    var r := [p] + xs;
    forall a, b | 0 <= a < |r| && 0 <= b < |r| && a != b
      ensures r[a].id != r[b].id
    {
      if a > 0 && b > 0 {
        assert r[a] == xs[a - 1] && r[b] == xs[b - 1];
      } else {
        var c := if a == 0 then b else a;
        assert r[c] in xs;
      }
    }
  }

  lemma TailDistinctIds(xs: seq<Participant>)
    requires xs != [] && DistinctIds(xs)
    ensures DistinctIds(xs[1..])
    ensures forall q :: q in xs[1..] ==> q.id != xs[0].id
  {
    forall a, b | 0 <= a < |xs| - 1 && 0 <= b < |xs| - 1 && a != b
      ensures xs[1..][a].id != xs[1..][b].id
    {
      assert xs[1..][a] == xs[a + 1] && xs[1..][b] == xs[b + 1];
    }
    forall q | q in xs[1..] ensures q.id != xs[0].id {
      var c :| 0 <= c < |xs[1..]| && xs[1..][c] == q;
      assert xs[c + 1] == q;
    }
  }

  /** Swapping two positions keeps the ids distinct. */
  lemma SwapKeepsDistinctIds(xs: seq<Participant>, i: nat, j: nat)
    requires i < |xs| && j < |xs| && DistinctIds(xs)
    ensures DistinctIds(xs[i := xs[j]][j := xs[i]])
  {
    var r := xs[i := xs[j]][j := xs[i]];
    forall a, b | 0 <= a < |r| && 0 <= b < |r| && a != b
      ensures r[a].id != r[b].id
    {
      var sa := if a == j then i else if a == i then j else a;
      var sb := if b == j then i else if b == i then j else b;
      assert r[a] == xs[sa] && r[b] == xs[sb];
    }
  }

  lemma {:induction false} ShuffleDownKeepsDistinctIds(xs: seq<Participant>, i: nat, rng: Rng, k: nat)
    requires i < |xs| && DistinctIds(xs)
    ensures DistinctIds(ShuffleDown(xs, i, rng, k))
    decreases i
  {
    if i > 0 {
      var j := NextInt(rng, k, i + 1);
      var swapped := xs[i := xs[j]][j := xs[i]];
      SwapKeepsDistinctIds(xs, i, j);
      ShuffleDownKeepsDistinctIds(swapped, i - 1, rng, k + 1);
      assert ShuffleDown(xs, i, rng, k) == ShuffleDown(swapped, i - 1, rng, k + 1);
    }
  }

  /** The giver order is a permutation of the participants, with the same ids. */
  lemma ShuffledIsPermutation(ps: seq<Participant>, rng: Rng)
    requires DistinctIds(ps)
    ensures DistinctIds(Shuffled(ps, rng))
    ensures Elems(Shuffled(ps, rng)) == Elems(ps)
  {
    if ps != [] {
      ShuffleDownKeepsDistinctIds(ps, |ps| - 1, rng, 0);
    }
    SameMultisetSameElems(Shuffled(ps, rng), ps);
  }

  lemma SameMultisetSameElems<T>(a: seq<T>, b: seq<T>)
    requires multiset(a) == multiset(b)
    ensures Elems(a) == Elems(b)
  {
    forall x ensures x in a <==> x in b {
      assert x in a <==> x in multiset(a);
      assert x in b <==> x in multiset(b);
    }
  }

  /** Removing the chosen receiver from a pool of distinct participants takes out
      exactly that receiver. */
  lemma {:induction false} RemoveFirstDistinct(xs: seq<Participant>, x: Participant)
    requires DistinctIds(xs)
    ensures DistinctIds(RemoveFirst(xs, x))
    ensures forall c :: c in RemoveFirst(xs, x) <==> c in xs && c != x
    ensures x in xs ==> |RemoveFirst(xs, x)| == |xs| - 1
    decreases |xs|
  {
    if xs != [] {
      TailDistinctIds(xs);
      assert xs == [xs[0]] + xs[1..];
      if xs[0] != x {
        RemoveFirstDistinct(xs[1..], x);
        ConsDistinctIds(xs[0], RemoveFirst(xs[1..], x));
      }
    }
  }

  // ---------------------------------------------------------------------------
  // The loop invariant of the draw

  /** The givers assigned so far are exactly the first i of the order. */
  ghost predicate KeysInv(givers: seq<Participant>, i: nat, m: map<Participant, Participant>)
  {
    i <= |givers| && m.Keys == Elems(givers[..i])
  }

  /** The pool holds exactly the participants nobody has drawn yet: pool and
      assigned receivers partition the participants. */
  ghost predicate PoolInv(ps: seq<Participant>, i: nat, available: seq<Participant>, m: map<Participant, Participant>)
  {
    && DistinctIds(available)
    && (forall c :: c in available ==> c !in m.Values)
    && Elems(available) + m.Values == Elems(ps)
    && |available| + i == |ps|
  }

  /** The assignments so far are injective, have no fixed point and avoid recent pairs. */
  ghost predicate MapInv(m: map<Participant, Participant>, log: seq<GiftAssignment>, year: int)
  {
    && (forall g, h :: g in m && h in m && g != h ==> m[g] != m[h])
    && (forall g :: g in m ==> m[g] != g)
    && AvoidsRecentPairs(m, log, year)
  }

  /** One record per assigned giver has been saved, in giver order. */
  ghost predicate SavedInv(givers: seq<Participant>, i: nat, m: map<Participant, Participant>,
                           saved: seq<GiftAssignment>, year: int)
  {
    && i <= |givers|
    && |saved| == i
    && (forall j :: 0 <= j < i ==>
          givers[j] in m && saved[j] == GiftAssignment(givers[j], m[givers[j]], year))
  }

  /** The loop invariant after i givers: the four parts above, over a giver order
      that is a permutation of the participants with distinct ids. */
  ghost predicate LoopInv(ps: seq<Participant>, givers: seq<Participant>, i: nat, st: DrawState,
                          log: seq<GiftAssignment>, year: int)
  {
    && DistinctIds(ps) && DistinctIds(givers) && Elems(givers) == Elems(ps) && |givers| == |ps|
    && KeysInv(givers, i, st.assignments)
    && PoolInv(ps, i, st.available, st.assignments)
    && MapInv(st.assignments, log, year)
    && SavedInv(givers, i, st.assignments, st.saved, year)
  }

  lemma InitialLoopInv(ps: seq<Participant>, log: seq<GiftAssignment>, rng: Rng, year: int)
    requires DistinctIds(ps)
    ensures LoopInv(ps, Shuffled(ps, rng), 0, InitialState(ps), log, year)
  {
    ShuffledIsPermutation(ps, rng);
    assert Shuffled(ps, rng)[..0] == [];
  }

  /** One iteration that finds a receiver keeps the invariant. */
  lemma LoopStep(ps: seq<Participant>, givers: seq<Participant>, i: nat, st: DrawState,
                 log: seq<GiftAssignment>, year: int, receiver: Participant)
    requires LoopInv(ps, givers, i, st, log, year) && i < |givers|
    requires receiver in ValidReceivers(st.available, givers[i], RecentReceiverIds(log + st.saved, givers[i], year))
    ensures LoopInv(ps, givers, i + 1,
                    DrawState(RemoveFirst(st.available, receiver),
                              st.assignments[givers[i] := receiver],
                              st.saved + [GiftAssignment(givers[i], receiver, year)]),
                    log, year)
  {
    var g := givers[i];
    var m := st.assignments;
    ValidReceiversMembers(st.available, g, RecentReceiverIds(log + st.saved, g, year));
    KeysStep(givers, i, m, receiver);
    PoolStep(ps, i, st.available, m, g, receiver);
    MapStep(m, log, st.saved, year, g, receiver);
    SavedStep(givers, i, m, st.saved, year, receiver);
  }

  lemma KeysStep(givers: seq<Participant>, i: nat, m: map<Participant, Participant>, receiver: Participant)
    requires DistinctIds(givers) && KeysInv(givers, i, m) && i < |givers|
    ensures givers[i] !in m
    ensures KeysInv(givers, i + 1, m[givers[i] := receiver])
  {
    var g := givers[i];
    assert givers[..i + 1] == givers[..i] + [g];
    forall j | 0 <= j < i ensures givers[..i][j] != g {
      assert givers[..i][j] == givers[j];
    }
  }

  lemma PoolStep(ps: seq<Participant>, i: nat, available: seq<Participant>, m: map<Participant, Participant>,
                 g: Participant, receiver: Participant)
    requires PoolInv(ps, i, available, m) && g !in m && receiver in available
    ensures PoolInv(ps, i + 1, RemoveFirst(available, receiver), m[g := receiver])
  {
    RemoveFirstDistinct(available, receiver);
    var m' := m[g := receiver];
    assert m'.Values == m.Values + {receiver} by {
      forall v ensures v in m'.Values <==> v in m.Values || v == receiver {
        if v in m.Values {
          var h :| h in m && m[h] == v;
          assert h != g && m'[h] == v;
        }
        if v == receiver {
          assert m'[g] == v;
        }
        if v in m'.Values {
          var h :| h in m' && m'[h] == v;
          if h != g { assert m[h] == v; }
        }
      }
    }
    assert Elems(RemoveFirst(available, receiver)) == Elems(available) - {receiver};
  }

  lemma MapStep(m: map<Participant, Participant>, log: seq<GiftAssignment>, saved: seq<GiftAssignment>,
                year: int, g: Participant, receiver: Participant)
    requires MapInv(m, log, year) && g !in m && receiver !in m.Values && receiver != g
    requires receiver.id !in RecentReceiverIds(log + saved, g, year)
    ensures MapInv(m[g := receiver], log, year)
  {
    var m' := m[g := receiver];
    forall h, a | h in m' && a in log && a.giver.id == h.id && a.receiver.id == m'[h].id
      ensures a.year <= year - WindowYears
    {
      if h == g {
        assert a in log + saved;
        assert a.year > year - WindowYears ==> receiver.id in RecentReceiverIds(log + saved, g, year);
      }
    }
    forall h, h' | h in m' && h' in m' && h != h' ensures m'[h] != m'[h'] {
      if h != g && h' != g {
        assert m'[h] == m[h] && m'[h'] == m[h'];
      } else if h == g {
        assert m[h'] in m.Values;
      } else {
        assert m[h] in m.Values;
      }
    }
  }

  lemma SavedStep(givers: seq<Participant>, i: nat, m: map<Participant, Participant>,
                  saved: seq<GiftAssignment>, year: int, receiver: Participant)
    requires DistinctIds(givers) && SavedInv(givers, i, m, saved, year) && i < |givers|
    ensures SavedInv(givers, i + 1, m[givers[i] := receiver],
                     saved + [GiftAssignment(givers[i], receiver, year)], year)
  {
    var g := givers[i];
    var m' := m[g := receiver];
    var saved' := saved + [GiftAssignment(g, receiver, year)];
    forall j | 0 <= j < i + 1
      ensures givers[j] in m' && saved'[j] == GiftAssignment(givers[j], m'[givers[j]], year)
    {
      if j < i {
        assert givers[j].id != g.id;
      }
    }
  }

  /** What the loop promises on return: a completed run has assigned every giver
      (a derangement avoiding recent pairs) and saved one record per giver in order;
      a stuck run names one of the participants. */
  ghost predicate LoopResultOk(ps: seq<Participant>, givers: seq<Participant>, log: seq<GiftAssignment>,
                               year: int, outcome: LoopOutcome)
  {
    match outcome
    case Completed(fin) =>
      && IsDerangement(ps, fin.assignments)
      && AvoidsRecentPairs(fin.assignments, log, year)
      && (forall g :: g in givers ==> g in fin.assignments)
      && fin.saved == RecordsFor(givers, fin.assignments, year)
    case Stuck(g) => g in ps
  }

  /** When every giver has been processed the invariant is the loop's promise. */
  lemma LoopDone(ps: seq<Participant>, givers: seq<Participant>, st: DrawState,
                 log: seq<GiftAssignment>, year: int)
    requires LoopInv(ps, givers, |givers|, st, log, year)
    ensures LoopResultOk(ps, givers, log, year, Completed(st))
  {
    DoneCoversAll(ps, givers, st.available, st.assignments);
    DoneRecords(givers, st.assignments, st.saved, year);
  }

  /** With every giver processed, the map's keys and values are all participants. */
  lemma DoneCoversAll(ps: seq<Participant>, givers: seq<Participant>, available: seq<Participant>,
                      m: map<Participant, Participant>)
    requires Elems(givers) == Elems(ps) && |givers| == |ps|
    requires KeysInv(givers, |givers|, m) && PoolInv(ps, |givers|, available, m)
    ensures m.Keys == Elems(ps) && m.Values == Elems(ps)
    ensures forall g :: g in givers ==> g in m
  {
    assert givers[..|givers|] == givers;
    assert available == [];
    assert Elems(available) == {};
  }

  /** With every giver processed, the saved records are `RecordsFor` the givers. */
  lemma DoneRecords(givers: seq<Participant>, m: map<Participant, Participant>,
                    saved: seq<GiftAssignment>, year: int)
    requires SavedInv(givers, |givers|, m, saved, year)
    ensures forall g :: g in givers ==> g in m
    ensures saved == RecordsFor(givers, m, year)
  {
    forall g | g in givers ensures g in m {
      var j :| 0 <= j < |givers| && givers[j] == g;
    }
    var recs := RecordsFor(givers, m, year);
    forall j | 0 <= j < |givers| ensures saved[j] == recs[j] {
    }
  }

  /** Soundness of the loop, by induction on the givers still to process. */
  lemma {:induction false} DrawLoopSound(ps: seq<Participant>, givers: seq<Participant>, i: nat, st: DrawState,
                                         log: seq<GiftAssignment>, rng: Rng, year: int)
    requires LoopInv(ps, givers, i, st, log, year)
    ensures LoopResultOk(ps, givers, log, year, DrawLoop(givers, i, st, log, rng, year))
    decreases |givers| - i
  {
    if i == |givers| {
      LoopDone(ps, givers, st, log, year);
    } else {
      var giver := givers[i];
      var valid := ValidReceivers(st.available, giver, RecentReceiverIds(log + st.saved, giver, year));
      if valid == [] {
        assert giver in Elems(givers);
      } else {
        var receiver := valid[NextInt(rng, PickCall(givers, i), |valid|)];
        var next := DrawState(RemoveFirst(st.available, receiver),
                              st.assignments[giver := receiver],
                              st.saved + [GiftAssignment(giver, receiver, year)]);
        LoopStep(ps, givers, i, st, log, year, receiver);
        DrawLoopSound(ps, givers, i + 1, next, log, rng, year);
        assert DrawLoop(givers, i, st, log, rng, year) == DrawLoop(givers, i + 1, next, log, rng, year);
      }
    }
  }

  // ---------------------------------------------------------------------------
  // Guarantees of a draw

  /** A completed draw is a derangement of the participants that repeats no pair
      from the window; a failed giver is one of the participants. */
  lemma DrawSound(ps: seq<Participant>, log: seq<GiftAssignment>, rng: Rng, year: int)
    requires DistinctIds(ps)
    ensures match Draw(ps, log, rng, year)
      case Drawn(m) => IsDerangement(ps, m) && AvoidsRecentPairs(m, log, year)
      case NoValidReceiver(g) => g in ps && |ps| >= 2
      case TooFewParticipants => |ps| < 2
  {
    if |ps| >= 2 {
      InitialLoopInv(ps, log, rng, year);
      DrawLoopSound(ps, Shuffled(ps, rng), 0, InitialState(ps), log, rng, year);
    }
  }

  /** The records a completed draw saves name participant rows only, as giver and
      as receiver. */
  lemma RecordsAreRows(ps: seq<Participant>, givers: seq<Participant>, m: map<Participant, Participant>, year: int)
    requires Elems(givers) == Elems(ps) && m.Values == Elems(ps)
    requires forall g :: g in givers ==> g in m
    ensures forall a :: a in RecordsFor(givers, m, year) ==> a.giver in ps && a.receiver in ps
  {
    var recs := RecordsFor(givers, m, year);
    forall a | a in recs ensures a.giver in ps && a.receiver in ps {
      var j :| 0 <= j < |recs| && recs[j] == a;
      var g := givers[j];
      assert a == GiftAssignment(g, m[g], year);
      assert g in Elems(givers);
      assert m[g] in m.Values;
      assert g in Elems(ps) && m[g] in Elems(ps);
    }
  }

  /** Saving the records of a completed draw keeps the history reading current rows. */
  lemma DrawKeepsHistoryCurrent(ps: seq<Participant>, log: seq<GiftAssignment>, nextId: Id,
                                givers: seq<Participant>, m: map<Participant, Participant>, year: int)
    requires HistoryCurrent(ps, log, nextId)
    requires DistinctIds(ps) && forall p :: p in ps ==> p.id < nextId
    requires IsDerangement(ps, m) && Elems(givers) == Elems(ps)
    requires forall g :: g in givers ==> g in m
    ensures HistoryCurrent(ps, log + RecordsFor(givers, m, year), nextId)
  {
    RecordsAreRows(ps, givers, m, year);
    AppendKeepsHistoryCurrent(ps, log, RecordsFor(givers, m, year), nextId);
  }
}
