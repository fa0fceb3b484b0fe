/** `GiftExchangeService`: the participant operations and the name draw, with
    typed failures. Members are reported with their id as text; history is
    reported by ids. */
module ExchangeService {
  import opened Wrappers
  import opened LongText
  import opened Entities
  import opened ParticipantStore
  import opened Repositories
  import opened DrawSpec
  import opened DrawProperties
  import DrawEngine

  /** The three exception classes the service throws. */
  datatype GiftError =
    | NotEnoughParticipants
    | NoValidReceiverFound(giverId: Id)
    | MemberNotFound(id: Id)

  const NotEnoughText := "Not enough participants to perform gift-exchange, please add more members!"
  const NoReceiverPrefix := "Unable to assign a valid gift-recipient for member id="
  const MissingPrefix := "Member with id = "
  const MissingSuffix := " not found"

  /** The text each exception carries. The two that concern one member end with,
      or enclose, that member's id as text that reads back as the id. */
  function Message(e: GiftError): (r: string)
    ensures e.NotEnoughParticipants? ==> r == NotEnoughText
    ensures e.NoValidReceiverFound? ==>
      && |r| > |NoReceiverPrefix| && r[..|NoReceiverPrefix|] == NoReceiverPrefix
      && Parse(r[|NoReceiverPrefix|..]) == Some(e.giverId)
    ensures e.MemberNotFound? ==>
      && |r| > |MissingPrefix| + |MissingSuffix|
      && r[..|MissingPrefix|] == MissingPrefix && r[|r| - |MissingSuffix|..] == MissingSuffix
      && Parse(r[|MissingPrefix|..|r| - |MissingSuffix|]) == Some(e.id)
  {
    match e
    case NotEnoughParticipants => NotEnoughText
    case NoValidReceiverFound(g) =>
      var t := ToText(g);
      assert (NoReceiverPrefix + t)[|NoReceiverPrefix|..] == t;
      NoReceiverPrefix + t
    case MemberNotFound(id) =>
      var t := ToText(id);
      var r := MissingPrefix + t + MissingSuffix;
      assert r[|MissingPrefix|..|r| - |MissingSuffix|] == t;
      r
  }

  /** How `drawNames` reports a draw: the map on success, otherwise the typed
      exception, the stuck giver named by id. */
  function Report(o: DrawOutcome): (r: Result<map<Participant, Participant>, GiftError>)
    ensures r.Ok? <==> o.Drawn?
    ensures o.Drawn? ==> r.value == o.assignments
    ensures r == Err(NotEnoughParticipants) <==> o.TooFewParticipants?
    ensures o.NoValidReceiver? ==> r == Err(NoValidReceiverFound(o.giver.id))
  {
    match o
    case Drawn(m) => Ok(m)
    case TooFewParticipants => Err(NotEnoughParticipants)
    case NoValidReceiver(g) => Err(NoValidReceiverFound(g.id))
  }

  /** `GiftExchange(it.giver.id.toString(), it.receiver.id.toString())`. */
  function ExchangeById(a: GiftAssignment): (e: GiftExchange)
    ensures e.memberId == ToText(a.giver.id) && Parse(e.memberId) == Some(a.giver.id)
    ensures e.recipientMemberId == ToText(a.receiver.id) && Parse(e.recipientMemberId) == Some(a.receiver.id)
  {
    GiftExchange(ToText(a.giver.id), ToText(a.receiver.id))
  }

  class GiftExchangeService {
    /** Both repositories. */
    const store: Store

    constructor (store: Store)
      ensures this.store == store
    {
      this.store := store;
    }

    /** `addParticipant`: save a new row and report it. */
    method AddParticipant(name: string) returns (m: Member)
      requires store.Consistent()
      modifies store
      ensures store.Consistent()
      ensures store.participants == old(store.participants) + [Participant(old(store.nextId), name)]
      ensures store.nextId == old(store.nextId) + 1 && store.assignments == old(store.assignments)
      ensures m.id == ToText(old(store.nextId)) && Parse(m.id) == Some(old(store.nextId)) && m.name == name
    {
      var p := store.Insert(name);
      m := ToMember(p);
    }

    /** `updateParticipant`: a missing id fails with `MemberNotFound` and saves
        nothing; otherwise only the name of that row changes. */
    method UpdateParticipant(id: Id, name: string) returns (r: Result<Member, GiftError>)
      requires store.Consistent()
      modifies store
      ensures store.Consistent()
      ensures store.nextId == old(store.nextId)
      ensures Find(old(store.participants), id).None? ==>
        r == Err(MemberNotFound(id)) && store.participants == old(store.participants) && store.assignments == old(store.assignments)
      ensures Find(old(store.participants), id).Some? ==>
        && r.Ok? && r.value.id == ToText(id) && Parse(r.value.id) == Some(id) && r.value.name == name
        && store.participants == Rename(old(store.participants), id, name)
        && store.assignments == RenameInLog(old(store.assignments), id, name)
        && Find(store.participants, id) == Some(Participant(id, name))
    {
      var existing := Find(store.participants, id);
      if existing.None? {
        return Err(MemberNotFound(id));
      }
      var p := store.SaveRenamed(id, name);
      r := Ok(ToMember(p));
    }

    /** `getAllParticipants`: every row as a member, in `findAll` order. */
    function GetAllParticipants(): (r: seq<Member>)
      reads store
      ensures |r| == |store.participants|
      ensures forall i :: 0 <= i < |r| ==>
        r[i].id == ToText(store.participants[i].id) && Parse(r[i].id) == Some(store.participants[i].id) && r[i].name == store.participants[i].name
    {
      seq(|store.participants|, i requires 0 <= i < |store.participants| reads store => ToMember(store.participants[i]))
    }

    /** `getParticipant`: the member with that id, or `MemberNotFound`. */
    function GetParticipant(id: Id): (r: Result<Member, GiftError>)
      reads store
      ensures r.Err? <==> forall p :: p in store.participants ==> p.id != id
      ensures r.Err? ==> r.error == MemberNotFound(id)
      ensures r.Ok? ==>
        r.value.id == ToText(id) && Parse(r.value.id) == Some(id) && exists p :: p in store.participants && p.id == id && p.name == r.value.name
    {
      match Find(store.participants, id)
      case None => Err(MemberNotFound(id))
      case Some(p) => Ok(ToMember(p))
    }

    /** `deleteParticipant`: `deleteById`, a no-op for a missing id. */
    method DeleteParticipant(id: Id)
      requires store.Consistent()
      modifies store
      ensures store.Consistent()
      ensures store.participants == Without(old(store.participants), id)
      ensures Find(store.participants, id) == None
      ensures store.nextId == old(store.nextId) && store.assignments == old(store.assignments)
    {
      store.DeleteById(id);
    }

    /** `getAllGiftExchanges`: every history row as `(giver id, receiver id)`, in order. */
    function GetAllGiftExchanges(): (r: seq<GiftExchange>)
      reads store
      ensures |r| == |store.assignments|
      ensures forall i :: 0 <= i < |r| ==>
        && r[i].memberId == ToText(store.assignments[i].giver.id) && Parse(r[i].memberId) == Some(store.assignments[i].giver.id)
        && r[i].recipientMemberId == ToText(store.assignments[i].receiver.id) && Parse(r[i].recipientMemberId) == Some(store.assignments[i].receiver.id)
    {
      var log := store.assignments;
      seq(|log|, i requires 0 <= i < |log| => ExchangeById(log[i]))
    }

    /** `drawNames` in its transaction: the draw of `DrawSpec.Draw`; on success
        the map is a derangement of the participants avoiding recent pairs and the
        log gains one record per participant, in giver order; on failure the
        transaction rolls back and the log is as before. */
    method DrawNames(rng: Rng, year: int) returns (r: Result<map<Participant, Participant>, GiftError>)
      requires store.Consistent()
      modifies store
      ensures store.Consistent()
      ensures store.participants == old(store.participants) && store.nextId == old(store.nextId)
      ensures r == Report(Draw(old(store.participants), old(store.assignments), rng, year))
      ensures r.Ok? ==>
        && IsDerangement(old(store.participants), r.value)
        && AvoidsRecentPairs(r.value, old(store.assignments), year)
        && Elems(Shuffled(old(store.participants), rng)) == Elems(old(store.participants))
        && store.assignments ==
           old(store.assignments) + RecordsFor(Shuffled(old(store.participants), rng), r.value, year)
      ensures r.Err? ==> store.assignments == old(store.assignments)
    {
      var snapshot := store.assignments;
      var o := DrawEngine.Run(store, rng, year);
      if !o.Drawn? {
        store.assignments := snapshot;  // the transaction rolls back
      } else {
        DrawKeepsHistoryCurrent(store.participants, snapshot, store.nextId,
                                Shuffled(store.participants, rng), o.assignments, year);
      }
      r := Report(o);
    }
  }
}
