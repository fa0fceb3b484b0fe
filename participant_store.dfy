/** The participant table as an ordered sequence of rows (the order `findAll`
    returns them in), and the three row operations the services perform on it:
    `findById`, saving a renamed copy, and `deleteById`. */
module ParticipantStore {
  import opened Wrappers
  import opened Entities

  /** `findById(id)`: the row with that id, or empty. */
  function Find(ps: seq<Participant>, id: Id): (r: Option<Participant>)
    ensures r.Some? ==> r.value in ps && r.value.id == id
    ensures r.None? ==> forall p :: p in ps ==> p.id != id
    decreases |ps|
  {
    if ps == [] then None
    else if ps[0].id == id then Some(ps[0])
    else Find(ps[1..], id)
  }

  /** Saving `existing.copy(name = name)`: the row with that id gets the new name,
      keeping its id and its place; every other row is untouched. */
  function Rename(ps: seq<Participant>, id: Id, name: string): (r: seq<Participant>)
    ensures |r| == |ps|
    ensures forall i :: 0 <= i < |ps| ==> r[i].id == ps[i].id
    ensures forall i :: 0 <= i < |ps| && ps[i].id != id ==> r[i] == ps[i]
    ensures forall i :: 0 <= i < |ps| && ps[i].id == id ==> r[i].name == name
    decreases |ps|
  {
    if ps == [] then []
    else [if ps[0].id == id then ps[0].(name := name) else ps[0]] + Rename(ps[1..], id, name)
  }

  /** The participant with that id as it reads after the rename; any other unchanged. */
  function Renamed(p: Participant, id: Id, name: string): (r: Participant)
    ensures r.id == p.id
    ensures r.name == if p.id == id then name else p.name
  {
    if p.id == id then p.(name := name) else p
  }

  /** The gift-assignment rows as they read after the rename: `giver` and
      `receiver` are `@ManyToOne` references to participant rows, so every record
      naming that participant shows the new name; ids, years and order stay. */
  function RenameInLog(log: seq<GiftAssignment>, id: Id, name: string): (r: seq<GiftAssignment>)
    ensures |r| == |log|
    ensures forall i :: 0 <= i < |log| ==>
      && r[i].year == log[i].year
      && r[i].giver.id == log[i].giver.id && r[i].receiver.id == log[i].receiver.id
      && r[i].giver.name == (if log[i].giver.id == id then name else log[i].giver.name)
      && r[i].receiver.name == (if log[i].receiver.id == id then name else log[i].receiver.name)
  {
    seq(|log|, i requires 0 <= i < |log| =>
      GiftAssignment(Renamed(log[i].giver, id, name), Renamed(log[i].receiver, id, name), log[i].year))
  }

  /** The history rows reference participant rows: every id in the log was handed
      out before `nextId`, and a record whose giver or receiver is still a row
      shows that row as it is now, since the join reads the current row. */
  ghost predicate HistoryCurrent(ps: seq<Participant>, log: seq<GiftAssignment>, nextId: Id)
  {
    && (forall a :: a in log ==> a.giver.id < nextId && a.receiver.id < nextId)
    && (forall a, p :: a in log && p in ps && a.giver.id == p.id ==> a.giver == p)
    && (forall a, p :: a in log && p in ps && a.receiver.id == p.id ==> a.receiver == p)
  }

  /** `deleteById(id)`: drops the row with that id, if any, keeping the order of the rest. */
  function Without(ps: seq<Participant>, id: Id): (r: seq<Participant>)
    ensures forall p :: p in r <==> p in ps && p.id != id
    ensures |r| <= |ps|
    decreases |ps|
  {
    if ps == [] then []
    else if ps[0].id == id then Without(ps[1..], id)
    else [ps[0]] + Without(ps[1..], id)
  }

  /** A saved rename is visible through `findById`: same id, new name. */
  lemma {:induction false} FindAfterRename(ps: seq<Participant>, id: Id, name: string)
    requires Find(ps, id).Some?
    ensures Find(Rename(ps, id, name), id) == Some(Participant(id, name))
    decreases |ps|
  {
    if ps[0].id != id {
      assert Rename(ps, id, name)[1..] == Rename(ps[1..], id, name);
      FindAfterRename(ps[1..], id, name);
    }
  }

  /** Renaming one row leaves every other id's lookup as it was. */
  lemma {:induction false} FindOtherAfterRename(ps: seq<Participant>, id: Id, name: string, other: Id)
    requires other != id
    ensures Find(Rename(ps, id, name), other) == Find(ps, other)
    decreases |ps|
  {
    if ps != [] {
      assert Rename(ps, id, name)[1..] == Rename(ps[1..], id, name);
      FindOtherAfterRename(ps[1..], id, name, other);
    }
  }

  /** Renaming cannot break the primary-key constraint. */
  lemma RenameKeepsDistinctIds(ps: seq<Participant>, id: Id, name: string)
    requires DistinctIds(ps)
    ensures DistinctIds(Rename(ps, id, name))
  {
  }

  /** After `deleteById(id)` the id is not found, whether or not it was there. */
  lemma FindAfterDelete(ps: seq<Participant>, id: Id)
    ensures Find(Without(ps, id), id) == None
  {
  }

  /** Deleting one id leaves every other id's lookup as it was. */
  lemma {:induction false} FindOtherAfterDelete(ps: seq<Participant>, id: Id, other: Id)
    requires other != id
    ensures Find(Without(ps, id), other) == Find(ps, other)
    decreases |ps|
  {
    if ps != [] {
      FindOtherAfterDelete(ps[1..], id, other);
      if ps[0].id != id {
        assert ([ps[0]] + Without(ps[1..], id))[1..] == Without(ps[1..], id);
      }
    }
  }

  /** Deleting an absent id changes nothing; so deleting twice is deleting once. */
  lemma {:induction false} DeleteAbsent(ps: seq<Participant>, id: Id)
    requires Find(ps, id) == None
    ensures Without(ps, id) == ps
    decreases |ps|
  {
    if ps != [] {
      DeleteAbsent(ps[1..], id);
    }
  }

  lemma DeleteIdempotent(ps: seq<Participant>, id: Id)
    ensures Without(Without(ps, id), id) == Without(ps, id)
  {
    FindAfterDelete(ps, id);
    DeleteAbsent(Without(ps, id), id);
  }

  /** Deleting cannot break the primary-key constraint. */
  lemma {:induction false} DeleteKeepsDistinctIds(ps: seq<Participant>, id: Id)
    requires DistinctIds(ps)
    ensures DistinctIds(Without(ps, id))
    decreases |ps|
  {
    if ps != [] {
      assert DistinctIds(ps[1..]) by {
        forall a, b | 0 <= a < |ps[1..]| && 0 <= b < |ps[1..]| && a != b
          ensures ps[1..][a].id != ps[1..][b].id
        {
          assert ps[1..][a] == ps[a + 1] && ps[1..][b] == ps[b + 1];
        }
      }
      DeleteKeepsDistinctIds(ps[1..], id);
      if ps[0].id != id {
        var rest := Without(ps[1..], id);
        var r := [ps[0]] + rest;
        forall a, b | 0 <= a < |r| && 0 <= b < |r| && a != b
          ensures r[a].id != r[b].id
        {
          if a == 0 || b == 0 {
            var c := if a == 0 then b else a;
            assert r[c] in rest;
            assert r[c] in ps[1..];
          }
        }
      }
    }
  }

  /** A row appended with an id above every existing id keeps the ids distinct and is
      then found by that id. */
  lemma AppendFresh(ps: seq<Participant>, p: Participant)
    requires DistinctIds(ps)
    requires forall q :: q in ps ==> q.id < p.id
    ensures DistinctIds(ps + [p])
    ensures Find(ps + [p], p.id) == Some(p)
  {
    AppendFind(ps, p);
  }

  lemma {:induction false} AppendFind(ps: seq<Participant>, p: Participant)
    requires forall q :: q in ps ==> q.id != p.id
    ensures Find(ps + [p], p.id) == Some(p)
    decreases |ps|
  {
    if ps != [] {
      assert (ps + [p])[1..] == ps[1..] + [p];
      AppendFind(ps[1..], p);
    }
  }

  /** A new row takes an id no record mentions, so the history still reads current rows. */
  lemma InsertKeepsHistoryCurrent(ps: seq<Participant>, log: seq<GiftAssignment>, nextId: Id, name: string)
    requires HistoryCurrent(ps, log, nextId)
    ensures HistoryCurrent(ps + [Participant(nextId, name)], log, nextId + 1)
  {
    var added := Participant(nextId, name);
    forall p | p in ps + [added] ensures p in ps || p == added { }
  }

  /** A rename reaches the row and every record that references it alike. */
  lemma RenameKeepsHistoryCurrent(ps: seq<Participant>, log: seq<GiftAssignment>, nextId: Id, id: Id, name: string)
    requires HistoryCurrent(ps, log, nextId)
    ensures HistoryCurrent(Rename(ps, id, name), RenameInLog(log, id, name), nextId)
  {
    var ps', log' := Rename(ps, id, name), RenameInLog(log, id, name);
    RenameKeepsLogIds(log, nextId, id, name);
    forall a', p' | a' in log' && p' in ps' ensures (a'.giver.id == p'.id ==> a'.giver == p') && (a'.receiver.id == p'.id ==> a'.receiver == p') {
      var k :| 0 <= k < |log'| && log'[k] == a';
      var j :| 0 <= j < |ps'| && ps'[j] == p';
      var a, p := log[k], ps[j];
      assert a in log && p in ps;
      RenamedPairAgrees(a.giver, a'.giver, p, p', id, name);
      RenamedPairAgrees(a.receiver, a'.receiver, p, p', id, name);
    }
  }

  /** A rename leaves every id in the log as it was, so below `nextId`. */
  lemma RenameKeepsLogIds(log: seq<GiftAssignment>, nextId: Id, id: Id, name: string)
    requires forall a :: a in log ==> a.giver.id < nextId && a.receiver.id < nextId
    ensures forall a :: a in RenameInLog(log, id, name) ==> a.giver.id < nextId && a.receiver.id < nextId
  {
    var log' := RenameInLog(log, id, name);
    forall a' | a' in log' ensures a'.giver.id < nextId && a'.receiver.id < nextId {
      var k :| 0 <= k < |log'| && log'[k] == a';
      assert log[k] in log;
    }
  }

  /** One reference and one row, before and after a rename: if they were the same
      participant they still are. */
  lemma RenamedPairAgrees(x: Participant, x': Participant, p: Participant, p': Participant, id: Id, name: string)
    requires x.id == p.id ==> x == p
    requires x'.id == x.id && x'.name == (if x.id == id then name else x.name)
    requires p'.id == p.id && (p.id != id ==> p' == p) && (p.id == id ==> p'.name == name)
    ensures x'.id == p'.id ==> x' == p'
  {
  }

  /** Appending records whose parties are rows keeps the history current. */
  lemma AppendKeepsHistoryCurrent(ps: seq<Participant>, log: seq<GiftAssignment>, recs: seq<GiftAssignment>, nextId: Id)
    requires HistoryCurrent(ps, log, nextId)
    requires DistinctIds(ps) && forall p :: p in ps ==> p.id < nextId
    requires forall a :: a in recs ==> a.giver in ps && a.receiver in ps
    ensures HistoryCurrent(ps, log + recs, nextId)
  {
    forall a, p | a in recs && p in ps ensures (a.giver.id == p.id ==> a.giver == p) && (a.receiver.id == p.id ==> a.receiver == p) {
      SameIdSameRow(ps, a.giver, p);
      SameIdSameRow(ps, a.receiver, p);
    }
  }

  /** Under the primary key, two rows with the same id are the same row. */
  lemma SameIdSameRow(ps: seq<Participant>, p: Participant, q: Participant)
    requires DistinctIds(ps) && p in ps && q in ps
    ensures p.id == q.id ==> p == q
  {
    var i :| 0 <= i < |ps| && ps[i] == p;
    var j :| 0 <= j < |ps| && ps[j] == q;
  }
}
