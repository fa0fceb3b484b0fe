/** Further consequences of the draw: what it saves, when it must fail, which
    history it looks at, and where the one-pass greedy choice falls short. */
module DrawFacts {
  import opened Entities
  import opened ParticipantStore
  import opened DrawSpec
  import opened DrawProperties

  /** The records a successful draw saves name every participant exactly once as
      giver (their receivers and year are fixed by `RecordsFor`). */
  lemma RecordsCoverParticipants(ps: seq<Participant>, rng: Rng, m: map<Participant, Participant>, year: int)
    requires DistinctIds(ps) && IsDerangement(ps, m)
    ensures forall g :: g in Shuffled(ps, rng) ==> g in m
    ensures multiset(Givers(RecordsFor(Shuffled(ps, rng), m, year))) == multiset(ps)
  {
    var order := Shuffled(ps, rng);
    ShuffledIsPermutation(ps, rng);
    forall g | g in order ensures g in m {
      assert g in Elems(order);
    }
    RecordGivers(order, m, year);
  }

  /** The givers of the records, in order, are the giver order itself. */
  lemma RecordGivers(order: seq<Participant>, m: map<Participant, Participant>, year: int)
    requires forall g :: g in order ==> g in m
    ensures Givers(RecordsFor(order, m, year)) == order
  {
    var gs := Givers(RecordsFor(order, m, year));
    forall j | 0 <= j < |order| ensures gs[j] == order[j] {
    }
  }

  /** When every ordered pair of distinct participants was given within the window,
      the first giver of the shuffled order already has nobody left, so the draw
      fails naming that giver. */
  lemma SaturatedHistoryFails(ps: seq<Participant>, log: seq<GiftAssignment>, rng: Rng, year: int)
    requires |ps| >= 2
    requires forall p, q :: p in ps && q in ps && p != q ==>
      exists a :: a in log && a.giver.id == p.id && a.receiver.id == q.id && a.year > year - WindowYears
    ensures Draw(ps, log, rng, year) == NoValidReceiver(Shuffled(ps, rng)[0])
  {
    var givers := Shuffled(ps, rng);
    var g := givers[0];
    assert g in multiset(ps);
    var invalid := RecentReceiverIds(log + [], g, year);
    assert log + [] == log;
    forall c | c in ps && c != g
      ensures c.id in invalid
    {
      var a :| a in log && a.giver.id == g.id && a.receiver.id == c.id && a.year > year - WindowYears;
      assert a in log + [];
    }
    AllExcludedNoneValid(ps, g, invalid);
  }

  /** The filter leaves nothing when every member of the pool is the giver or excluded. */
  lemma {:induction false} AllExcludedNoneValid(available: seq<Participant>, giver: Participant, invalid: set<Id>)
    requires forall c :: c in available ==> c == giver || c.id in invalid
    ensures ValidReceivers(available, giver, invalid) == []
    decreases |available|
  {
    if available != [] {
      assert forall c :: c in available[1..] ==> c in available;
      AllExcludedNoneValid(available[1..], giver, invalid);
    }
  }

  /** Only records inside the window matter: two logs with the same records newer
      than `year - 3` give the same draw, whatever else they hold and in whatever
      order. In particular a record exactly three years old excludes nothing. */
  lemma SameRecentHistorySameDraw(ps: seq<Participant>, log: seq<GiftAssignment>, log': seq<GiftAssignment>,
                                  rng: Rng, year: int)
    requires forall a: GiftAssignment :: a.year > year - WindowYears ==> (a in log <==> a in log')
    ensures Draw(ps, log, rng, year) == Draw(ps, log', rng, year)
  {
    forall g: Participant, saved: seq<GiftAssignment>
      ensures RecentReceiverIds(log + saved, g, year) == RecentReceiverIds(log' + saved, g, year)
    {
      RecentOfSameHistory(log, log', saved, g, year);
    }
    SameExclusionsSameDraw(ps, log, log', rng, year);
  }

  lemma RecentOfSameHistory(log: seq<GiftAssignment>, log': seq<GiftAssignment>, saved: seq<GiftAssignment>,
                            g: Participant, year: int)
    requires forall a: GiftAssignment :: a.year > year - WindowYears ==> (a in log <==> a in log')
    ensures RecentReceiverIds(log + saved, g, year) == RecentReceiverIds(log' + saved, g, year)
  {
    forall id ensures id in RecentReceiverIds(log + saved, g, year) ==> id in RecentReceiverIds(log' + saved, g, year) {
      if id in RecentReceiverIds(log + saved, g, year) {
        var a :| a in log + saved && a.giver.id == g.id && a.year > year - WindowYears && a.receiver.id == id;
        assert a in log' + saved;
      }
    }
    forall id ensures id in RecentReceiverIds(log' + saved, g, year) ==> id in RecentReceiverIds(log + saved, g, year) {
      if id in RecentReceiverIds(log' + saved, g, year) {
        var a :| a in log' + saved && a.giver.id == g.id && a.year > year - WindowYears && a.receiver.id == id;
        assert a in log + saved;
      }
    }
  }

  /** The draw sees the log only through the exclusion query: two logs that exclude
      the same receivers for every giver, whatever this draw has saved so far, give
      the same draw. */
  lemma SameExclusionsSameDraw(ps: seq<Participant>, log: seq<GiftAssignment>, log': seq<GiftAssignment>,
                               rng: Rng, year: int)
    requires forall g: Participant, saved: seq<GiftAssignment> ::
      RecentReceiverIds(log + saved, g, year) == RecentReceiverIds(log' + saved, g, year)
    ensures Draw(ps, log, rng, year) == Draw(ps, log', rng, year)
  {
    if |ps| >= 2 {
      SameExclusionsSameLoop(Shuffled(ps, rng), 0, InitialState(ps), log, log', rng, year);
    }
  }

  lemma {:induction false} SameExclusionsSameLoop(givers: seq<Participant>, i: nat, st: DrawState,
                                                  log: seq<GiftAssignment>, log': seq<GiftAssignment>,
                                                  rng: Rng, year: int)
    requires i <= |givers|
    requires forall g: Participant, saved: seq<GiftAssignment> ::
      RecentReceiverIds(log + saved, g, year) == RecentReceiverIds(log' + saved, g, year)
    ensures DrawLoop(givers, i, st, log, rng, year) == DrawLoop(givers, i, st, log', rng, year)
    decreases |givers| - i
  {
    if i < |givers| {
      var valid := ValidReceivers(st.available, givers[i], RecentReceiverIds(log + st.saved, givers[i], year));
      if valid != [] {
        var receiver := valid[NextInt(rng, PickCall(givers, i), |valid|)];
        SameExclusionsSameLoop(givers, i + 1,
                               DrawState(RemoveFirst(st.available, receiver),
                                         st.assignments[givers[i] := receiver],
                                         st.saved + [GiftAssignment(givers[i], receiver, year)]),
                               log, log', rng, year);
      }
    }
  }

  /** A rename shows in the history but excludes no one new: the exclusion query
      matches records by id, and a rename keeps every id and year. */
  lemma RenameKeepsExclusions(log: seq<GiftAssignment>, id: Id, name: string, saved: seq<GiftAssignment>,
                              g: Participant, year: int)
    ensures RecentReceiverIds(RenameInLog(log, id, name) + saved, g, year) == RecentReceiverIds(log + saved, g, year)
  {
    var log' := RenameInLog(log, id, name);
    forall x ensures x in RecentReceiverIds(log' + saved, g, year) <==> x in RecentReceiverIds(log + saved, g, year) {
      if x in RecentReceiverIds(log' + saved, g, year) {
        var a :| a in log' + saved && a.giver.id == g.id && a.year > year - WindowYears && a.receiver.id == x;
        if a in saved {
          assert a in log + saved;
        } else {
          var k :| 0 <= k < |log'| && log'[k] == a;
          assert log[k] in log + saved;
        }
      }
      if x in RecentReceiverIds(log + saved, g, year) {
        var a :| a in log + saved && a.giver.id == g.id && a.year > year - WindowYears && a.receiver.id == x;
        if a in saved {
          assert a in log' + saved;
        } else {
          var k :| 0 <= k < |log| && log[k] == a;
          assert log'[k] in log' + saved;
        }
      }
    }
  }

  /** Renaming a participant never changes a later draw. */
  lemma RenameKeepsDraw(ps: seq<Participant>, log: seq<GiftAssignment>, id: Id, name: string, rng: Rng, year: int)
    ensures Draw(ps, RenameInLog(log, id, name), rng, year) == Draw(ps, log, rng, year)
  {
    forall g: Participant, saved: seq<GiftAssignment>
      ensures RecentReceiverIds(RenameInLog(log, id, name) + saved, g, year) == RecentReceiverIds(log + saved, g, year)
    {
      RenameKeepsExclusions(log, id, name, saved, g, year);
    }
    SameExclusionsSameDraw(ps, RenameInLog(log, id, name), log, rng, year);
  }

  /** No record of this giver's within the window excludes anyone. */
  lemma NoRecentRecords(log: seq<GiftAssignment>, g: Participant, year: int)
    requires forall a :: a in log ==> a.giver.id != g.id
    ensures RecentReceiverIds(log, g, year) == {}
  {
  }

  /** Two participants with no recent pair between them always swap, whatever the
      random source: each is the other's only candidate. */
  lemma TwoParticipantsSwap(a: Participant, b: Participant, log: seq<GiftAssignment>, rng: Rng, year: int)
    requires a.id != b.id
    requires forall r :: r in log && r.year > year - WindowYears ==>
      !(r.giver.id == a.id && r.receiver.id == b.id) && !(r.giver.id == b.id && r.receiver.id == a.id)
    ensures Draw([a, b], log, rng, year) == Drawn(map[a := b, b := a])
  {
    TwoShuffle(a, b, rng);
    var givers := Shuffled([a, b], rng);
    var g, h := givers[0], givers[1];
    assert givers == [g, h];
    TwoGiversSwap(a, b, g, h, log, rng, year);
    var st := DrawState([], map[g := h, h := g], [GiftAssignment(g, h, year), GiftAssignment(h, g, year)]);
    DrawOfCompletedLoop([a, b], log, rng, year, st);
    SwapMap(a, b, g, h);
  }

  lemma SwapMap(a: Participant, b: Participant, g: Participant, h: Participant)
    requires (g == a && h == b) || (g == b && h == a)
    ensures map[g := h, h := g] == map[a := b, b := a]
  {
  }

  lemma DrawOfCompletedLoop(ps: seq<Participant>, log: seq<GiftAssignment>, rng: Rng, year: int, st: DrawState)
    requires |ps| >= 2
    requires DrawLoop(Shuffled(ps, rng), 0, InitialState(ps), log, rng, year) == Completed(st)
    ensures Draw(ps, log, rng, year) == Drawn(st.assignments)
  {
  }

  /** Shuffling two elements gives one of their two orders. */
  lemma TwoShuffle(a: Participant, b: Participant, rng: Rng)
    ensures Shuffled([a, b], rng) == [a, b] || Shuffled([a, b], rng) == [b, a]
  {
    var j := NextInt(rng, 0, 2);
    assert Shuffled([a, b], rng) == ShuffleDown([a, b][1 := [a, b][j]][j := [a, b][1]], 0, rng, 1);
  }

  /** One turn of the loop, given the filtered candidates and the random pick. */
  lemma TurnPicks(givers: seq<Participant>, i: nat, st: DrawState, log: seq<GiftAssignment>, rng: Rng, year: int,
                  valid: seq<Participant>, k: nat)
    requires i < |givers|
    requires valid == ValidReceivers(st.available, givers[i], RecentReceiverIds(log + st.saved, givers[i], year))
    requires k < |valid| && NextInt(rng, PickCall(givers, i), |valid|) == k
    ensures DrawLoop(givers, i, st, log, rng, year) ==
            DrawLoop(givers, i + 1,
                     DrawState(RemoveFirst(st.available, valid[k]), st.assignments[givers[i] := valid[k]],
                               st.saved + [GiftAssignment(givers[i], valid[k], year)]),
                     log, rng, year)
  {
  }

  /** The filter, one candidate at a time. */
  lemma FilterCons(c: Participant, rest: seq<Participant>, giver: Participant, invalid: set<Id>)
    ensures ValidReceivers([c] + rest, giver, invalid) ==
            (if c != giver && c.id !in invalid then [c] else []) + ValidReceivers(rest, giver, invalid)
  {
    assert ([c] + rest)[1..] == rest;
  }

  /** Removing from the pool, one element at a time. */
  lemma RemoveCons(c: Participant, rest: seq<Participant>, x: Participant)
    ensures RemoveFirst([c] + rest, x) == if c == x then rest else [c] + RemoveFirst(rest, x)
  {
    assert ([c] + rest)[1..] == rest;
  }

  lemma TwoGiversSwap(a: Participant, b: Participant, g: Participant, h: Participant,
                      log: seq<GiftAssignment>, rng: Rng, year: int)
    requires a.id != b.id && ((g == a && h == b) || (g == b && h == a))
    requires forall r :: r in log && r.year > year - WindowYears ==>
      !(r.giver.id == a.id && r.receiver.id == b.id) && !(r.giver.id == b.id && r.receiver.id == a.id)
    ensures DrawLoop([g, h], 0, InitialState([a, b]), log, rng, year) == Completed(
      DrawState([], map[g := h, h := g], [GiftAssignment(g, h, year), GiftAssignment(h, g, year)]))
  {
    SwapFirstTurn(a, b, g, h, log, rng, year);
    SwapSecondTurn(a, b, g, h, log, rng, year);
  }

  /** The first giver's only candidate is the other participant. */
  lemma SwapFirstTurn(a: Participant, b: Participant, g: Participant, h: Participant,
                      log: seq<GiftAssignment>, rng: Rng, year: int)
    requires a.id != b.id && ((g == a && h == b) || (g == b && h == a))
    requires forall r :: r in log && r.year > year - WindowYears ==>
      !(r.giver.id == a.id && r.receiver.id == b.id) && !(r.giver.id == b.id && r.receiver.id == a.id)
    ensures DrawLoop([g, h], 0, InitialState([a, b]), log, rng, year) ==
            DrawLoop([g, h], 1, DrawState([g], map[g := h], [GiftAssignment(g, h, year)]), log, rng, year)
  {
    var invalid := RecentReceiverIds(log + [], g, year);
    assert log + [] == log;
    assert h.id !in invalid;
    SwapFirstCandidates(a, b, g, h, invalid);
    var st0 := InitialState([a, b]);
    assert st0 == DrawState([a, b], map[], []);
    TurnPicks([g, h], 0, st0, log, rng, year, [h], 0);
    assert st0.assignments[g := h] == map[g := h];
    assert st0.saved + [GiftAssignment(g, h, year)] == [GiftAssignment(g, h, year)];
  }

  /** The first giver's candidates are the other participant alone, who then
      leaves the pool. */
  lemma SwapFirstCandidates(a: Participant, b: Participant, g: Participant, h: Participant, invalid: set<Id>)
    requires a.id != b.id && ((g == a && h == b) || (g == b && h == a))
    requires h.id !in invalid
    ensures ValidReceivers([a, b], g, invalid) == [h]
    ensures RemoveFirst([a, b], h) == [g]
  {
    FilterCons(b, [], g, invalid);
    FilterCons(a, [b], g, invalid);
    assert [a] + [b] == [a, b] && [b] + [] == [b];
    RemoveCons(b, [], h);
    RemoveCons(a, [b], h);
  }

  /** The second giver's only candidate is the first giver, who is the one left. */
  lemma SwapSecondTurn(a: Participant, b: Participant, g: Participant, h: Participant,
                       log: seq<GiftAssignment>, rng: Rng, year: int)
    requires a.id != b.id && ((g == a && h == b) || (g == b && h == a))
    requires forall r :: r in log && r.year > year - WindowYears ==>
      !(r.giver.id == a.id && r.receiver.id == b.id) && !(r.giver.id == b.id && r.receiver.id == a.id)
    ensures DrawLoop([g, h], 1, DrawState([g], map[g := h], [GiftAssignment(g, h, year)]), log, rng, year) ==
            Completed(DrawState([], map[g := h, h := g], [GiftAssignment(g, h, year), GiftAssignment(h, g, year)]))
  {
    var saved := [GiftAssignment(g, h, year)];
    var invalid := RecentReceiverIds(log + saved, h, year);
    assert g.id !in invalid by {
      forall r | r in log + saved && r.giver.id == h.id && r.year > year - WindowYears
        ensures r.receiver.id != g.id
      {
        assert r in log;
      }
    }
    var valid := ValidReceivers([g], h, invalid);
    FilterCons(g, [], h, invalid);
    assert [g] + [] == [g];
    assert valid == [g];
    TurnPicks([g, h], 1, DrawState([g], map[g := h], saved), log, rng, year, valid, 0);
    RemoveCons(g, [], g);
    assert RemoveFirst([g], g) == [];
  }

  /** The random source of the stranding example: the shuffle keeps the order and
      every pick takes the first candidate. */
  function StrandRng(): Rng
  {
    k => if k == 0 then 2 else if k == 1 then 1 else 0
  }

  /** Alice, Bob and Charlie. */
  function Trio(): (ps: seq<Participant>)
    ensures |ps| == 3
  {
    [Participant(1, "Alice"), Participant(2, "Bob"), Participant(3, "Charlie")]
  }

  /** The draw is a single greedy pass and may strand the last giver although a
      valid assignment exists: with Alice, Bob and Charlie, no history, and a random
      source that keeps the order and picks the first candidate each time, Alice
      draws Bob, Bob draws Alice and Charlie is left with only himself; yet
      Alice to Bob, Bob to Charlie, Charlie to Alice is a valid draw. */
  lemma GreedyCanStrand(year: int)
    ensures Draw(Trio(), [], StrandRng(), year) == NoValidReceiver(Trio()[2])
    ensures IsDerangement(Trio(), map[Trio()[0] := Trio()[1], Trio()[1] := Trio()[2], Trio()[2] := Trio()[0]])
  {
    StrandShuffle(Trio());
    StrandFirst(year);
    StrandSecond(year);
    StrandThird(year);
    CycleIsDerangement(Trio()[0], Trio()[1], Trio()[2]);
  }

  /** Three distinct participants each giving to the next form a derangement. */
  lemma CycleIsDerangement(a: Participant, b: Participant, c: Participant)
    requires a != b && b != c && a != c
    ensures IsDerangement([a, b, c], map[a := b, b := c, c := a])
  {
    CycleKeys(a, b, c);
    CycleValues(a, b, c);
    CycleInjective(a, b, c);
  }

  lemma CycleInjective(a: Participant, b: Participant, c: Participant)
    requires a != b && b != c && a != c
    ensures var m := map[a := b, b := c, c := a];
      && (forall g, h :: g in m && h in m && g != h ==> m[g] != m[h])
      && (forall g :: g in m ==> m[g] != g)
  {
  }

  lemma CycleKeys(a: Participant, b: Participant, c: Participant)
    ensures map[a := b, b := c, c := a].Keys == Elems([a, b, c])
  {
    assert Elems([a, b, c]) == {a, b, c};
  }

  lemma CycleValues(a: Participant, b: Participant, c: Participant)
    requires a != b && b != c && a != c
    ensures map[a := b, b := c, c := a].Values == Elems([a, b, c])
  {
    var m := map[a := b, b := c, c := a];
    assert Elems([a, b, c]) == {a, b, c};
    forall v | v in m.Values ensures v == a || v == b || v == c {
      var k :| k in m && m[k] == v;
    }
    assert m[a] == b && m[b] == c && m[c] == a;
  }

  lemma StrandShuffle(ps: seq<Participant>)
    requires |ps| == 3
    ensures Shuffled(ps, StrandRng()) == ps
  {
    var rng := StrandRng();
    assert NextInt(rng, 0, 3) == 2;
    assert NextInt(rng, 1, 2) == 1;
    assert ShuffleDown(ps, 1, rng, 1) == ShuffleDown(ps, 0, rng, 2);
  }

  /** Alice draws Bob. */
  lemma StrandFirst(year: int)
    ensures var t := Trio();
      DrawLoop(t, 0, InitialState(t), [], StrandRng(), year) ==
      DrawLoop(t, 1, DrawState([t[0], t[2]], map[t[0] := t[1]], [GiftAssignment(t[0], t[1], year)]), [], StrandRng(), year)
  {
    var t := Trio();
    var alice, bob, charlie := t[0], t[1], t[2];
    var none: seq<GiftAssignment> := [];
    NoRecentRecords(none + [], alice, year);
    StrandFirstCandidates();
    var v := [bob, charlie];
    assert NextInt(StrandRng(), PickCall(t, 0), 2) == 0;
    var st0 := InitialState(t);
    assert st0 == DrawState(t, map[], []);
    TurnPicks(t, 0, st0, none, StrandRng(), year, v, 0);
    var st1 := DrawState(RemoveFirst(st0.available, bob), st0.assignments[alice := bob],
                         st0.saved + [GiftAssignment(alice, bob, year)]);
    assert st1 == DrawState([alice, charlie], map[alice := bob], [GiftAssignment(alice, bob, year)]) by {
      assert st0.assignments[alice := bob] == map[alice := bob];
      assert st0.saved + [GiftAssignment(alice, bob, year)] == [GiftAssignment(alice, bob, year)];
    }
  }

  lemma StrandFirstCandidates()
    ensures var t := Trio();
      && ValidReceivers(t, t[0], {}) == [t[1], t[2]]
      && RemoveFirst(t, t[1]) == [t[0], t[2]]
  {
    StrandFirstValid();
    StrandFirstRemove();
  }

  lemma StrandFirstValid()
    ensures var t := Trio(); ValidReceivers(t, t[0], {}) == [t[1], t[2]]
  {
    var t := Trio();
    var alice, bob, charlie := t[0], t[1], t[2];
    FilterCons(charlie, [], alice, {});
    FilterCons(bob, [charlie], alice, {});
    FilterCons(alice, [bob, charlie], alice, {});
    assert [charlie] + [] == [charlie] && [bob] + [charlie] == [bob, charlie] && [alice] + [bob, charlie] == t;
  }

  lemma StrandFirstRemove()
    ensures var t := Trio(); RemoveFirst(t, t[1]) == [t[0], t[2]]
  {
    var t := Trio();
    var alice, bob, charlie := t[0], t[1], t[2];
    assert [alice] + [bob, charlie] == t;
    RemoveCons(bob, [charlie], bob);
    RemoveCons(alice, [bob, charlie], bob);
  }

  /** Bob draws Alice. */
  lemma StrandSecond(year: int)
    ensures var t := Trio();
      DrawLoop(t, 1, DrawState([t[0], t[2]], map[t[0] := t[1]], [GiftAssignment(t[0], t[1], year)]), [], StrandRng(), year) ==
      DrawLoop(t, 2, DrawState([t[2]], map[t[0] := t[1], t[1] := t[0]],
                               [GiftAssignment(t[0], t[1], year), GiftAssignment(t[1], t[0], year)]), [], StrandRng(), year)
  {
    var t := Trio();
    var alice, bob, charlie := t[0], t[1], t[2];
    var none: seq<GiftAssignment> := [];
    var s1 := [GiftAssignment(alice, bob, year)];
    NoRecentRecords(none + s1, bob, year);
    var p1 := [alice, charlie];
    var v := ValidReceivers(p1, bob, {});
    FilterCons(charlie, [], bob, {});
    FilterCons(alice, [charlie], bob, {});
    assert [charlie] + [] == [charlie] && [alice] + [charlie] == p1;
    assert v == [alice, charlie];
    assert NextInt(StrandRng(), PickCall(t, 1), 2) == 0;
    TurnPicks(t, 1, DrawState(p1, map[alice := bob], s1), none, StrandRng(), year, v, 0);
    assert RemoveFirst(p1, alice) == [charlie];
  }

  /** Charlie is left with only himself. */
  lemma StrandThird(year: int)
    ensures var t := Trio();
      DrawLoop(t, 2, DrawState([t[2]], map[t[0] := t[1], t[1] := t[0]],
                               [GiftAssignment(t[0], t[1], year), GiftAssignment(t[1], t[0], year)]), [], StrandRng(), year)
      == Stuck(t[2])
  {
    var t := Trio();
    var none: seq<GiftAssignment> := [];
    var s2 := [GiftAssignment(t[0], t[1], year), GiftAssignment(t[1], t[0], year)];
    NoRecentRecords(none + s2, t[2], year);
    FilterCons(t[2], [], t[2], {});
    assert [t[2]] + [] == [t[2]];
  }
}
