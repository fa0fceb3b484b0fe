/** The persistent entities and the API values the services return. */
module Entities {
  import opened Wrappers
  import opened LongText

  /** A participant id (a database IDENTITY `Long`). */
  type Id = int

  /** A participant row. The optimistic-locking `version` column is not modelled. */
  datatype Participant = Participant(id: Id, name: string)

  /** One past or new draw pair, stamped with the year of the draw. The row's own
      generated id is not modelled. */
  datatype GiftAssignment = GiftAssignment(giver: Participant, receiver: Participant, year: int)

  /** The API view of a participant: its id as text and its name. */
  datatype Member = Member(id: string, name: string)

  /** The API view of one gift pair: who gives (`memberId`) and who receives. */
  datatype GiftExchange = GiftExchange(memberId: string, recipientMemberId: string)

  /** `Member(it.id.toString(), it.name)`. */
  function ToMember(p: Participant): (m: Member)
    ensures m.id == ToText(p.id) && Parse(m.id) == Some(p.id) && m.name == p.name
  {
    Member(ToText(p.id), p.name)
  }

  /** No two rows share an id: the primary-key constraint. */
  ghost predicate DistinctIds(ps: seq<Participant>)
  {
    forall a, b :: 0 <= a < |ps| && 0 <= b < |ps| && a != b ==> ps[a].id != ps[b].id
  }

  ghost function Elems<T>(s: seq<T>): set<T>
  {
    set x | x in s
  }
}
