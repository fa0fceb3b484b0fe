/** The two repositories the services are built on, as one mutable store: the
    participant table, its IDENTITY counter, and the append-only gift-assignment log. */
module Repositories {
  import opened Wrappers
  import opened Entities
  import opened ParticipantStore

  class Store {
    /** participantRepository's rows, in `findAll` order. */
    var participants: seq<Participant>
    /** The id the database hands to the next inserted participant. */
    var nextId: Id
    /** giftAssignmentRepository's rows, in `findAll` (insertion) order. */
    var assignments: seq<GiftAssignment>

    /** Ids are unique, and every existing id was handed out before `nextId`. */
    ghost predicate Valid()
      reads this
    {
      DistinctIds(participants) && forall p :: p in participants ==> p.id < nextId
    }

    /** `Valid`, and the history reads the participant rows as they are now. */
    ghost predicate Consistent()
      reads this
    {
      Valid() && HistoryCurrent(participants, assignments, nextId)
    }

    /** Empty tables; IDENTITY columns start at 1. */
    constructor ()
      ensures Consistent()
      ensures participants == [] && assignments == [] && nextId == 1
    {
      participants, assignments, nextId := [], [], 1;
    }

    /** `participantRepository.save(participant)` for a new row: the row gets the
        next IDENTITY value and is appended; the counter moves on. */
    method Insert(name: string) returns (p: Participant)
      requires Consistent()
      modifies this
      ensures Consistent()
      ensures p == Participant(old(nextId), name)
      ensures participants == old(participants) + [p] && nextId == old(nextId) + 1
      ensures assignments == old(assignments)
      ensures Find(participants, p.id) == Some(p)
    {
      p := Participant(nextId, name);
      AppendFresh(participants, p);
      InsertKeepsHistoryCurrent(participants, assignments, nextId, name);
      participants := participants + [p];
      nextId := nextId + 1;
    }

    /** `participantRepository.save(existing.copy(name = name))`: the existing row
        keeps its id and place and takes the new name. The history rows reference
        that row, so they read the new name too. */
    method SaveRenamed(id: Id, name: string) returns (p: Participant)
      requires Consistent() && Find(participants, id).Some?
      modifies this
      ensures Consistent()
      ensures p == Participant(id, name) && Find(participants, id) == Some(p)
      ensures participants == Rename(old(participants), id, name)
      ensures assignments == RenameInLog(old(assignments), id, name)
      ensures nextId == old(nextId)
    {
      FindAfterRename(participants, id, name);
      RenameKeepsDistinctIds(participants, id, name);
      RenameKeepsHistoryCurrent(participants, assignments, nextId, id, name);
      participants := Rename(participants, id, name);
      assignments := RenameInLog(assignments, id, name);
      p := Participant(id, name);
    }

    /** `participantRepository.deleteById(id)`: removes the row if there is one,
        and silently does nothing otherwise. */
    method DeleteById(id: Id)
      requires Consistent()
      modifies this
      ensures Consistent()
      ensures participants == Without(old(participants), id) && Find(participants, id) == None
      ensures nextId == old(nextId) && assignments == old(assignments)
    {
      DeleteKeepsDistinctIds(participants, id);
      FindAfterDelete(participants, id);
      participants := Without(participants, id);
    }
  }
}
