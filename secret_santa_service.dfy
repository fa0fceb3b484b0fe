/** `SecretSantaService`: the same participant operations and the same draw as
    `GiftExchangeService`, with `IllegalStateException` failures, a null result
    for an update of a missing member, and history reported by names. */
module SantaService {
  import opened Wrappers
  import opened LongText
  import opened Entities
  import opened ParticipantStore
  import opened Repositories
  import opened DrawSpec
  import opened DrawProperties
  import DrawEngine
  import ExchangeService

  /** `IllegalStateException(message)`. */
  datatype SantaError = IllegalState(message: string)

  const ParticipantOpen := "Participant(id="

  /** The data-class rendering `Participant(id=…, name=…)` of the modelled fields:
      the id as text that reads back as the id, then the name. */
  function ParticipantText(p: Participant): (r: string)
    ensures var n := |ParticipantOpen| + |ToText(p.id)|;
      && |r| > n && r[..|ParticipantOpen|] == ParticipantOpen
      && Parse(r[|ParticipantOpen|..n]) == Some(p.id)
      && r[n..] == ", name=" + p.name + ")"
  {
    var t := ToText(p.id);
    var tail := ", name=" + p.name + ")";
    var r := ParticipantOpen + t + tail;
    assert r[..|ParticipantOpen|] == ParticipantOpen;
    assert r[|ParticipantOpen|..|ParticipantOpen| + |t|] == t;
    assert r[|ParticipantOpen| + |t|..] == tail;
    r
  }

  /** How this service's `drawNames` reports a draw: the map on success, otherwise
      an `IllegalStateException` whose message names the stuck giver. */
  function Report(o: DrawOutcome): (r: Result<map<Participant, Participant>, SantaError>)
    ensures r.Ok? <==> o.Drawn?
    ensures o.Drawn? ==> r.value == o.assignments
    ensures o.TooFewParticipants? ==> r == Err(IllegalState("Not enough participants to draw names"))
    ensures o.NoValidReceiver? ==>
      r == Err(IllegalState("Unable to assign a valid receiver for " + ParticipantText(o.giver)))
  {
    match o
    case Drawn(m) => Ok(m)
    case TooFewParticipants => Err(IllegalState("Not enough participants to draw names"))
    case NoValidReceiver(g) => Err(IllegalState("Unable to assign a valid receiver for " + ParticipantText(g)))
  }

  /** `GiftExchange(it.giver.name, it.receiver.name)`. */
  function ExchangeByName(a: GiftAssignment): (e: GiftExchange)
    ensures e.memberId == a.giver.name && e.recipientMemberId == a.receiver.name
  {
    GiftExchange(a.giver.name, a.receiver.name)
  }

  class SecretSantaService {
    /** Both repositories. */
    const store: Store

    constructor (store: Store)
      ensures this.store == store
    {
      this.store := store;
    }

    /** `addParticipant`: save a new row and report it. */
    method AddParticipant(name: string) returns (m: Member)
      requires store.Consistent()
      modifies store
      ensures store.Consistent()
      ensures store.participants == old(store.participants) + [Participant(old(store.nextId), name)]
      ensures store.nextId == old(store.nextId) + 1 && store.assignments == old(store.assignments)
      ensures m.id == ToText(old(store.nextId)) && Parse(m.id) == Some(old(store.nextId)) && m.name == name
    {
      var p := store.Insert(name);
      m := ToMember(p);
    }

    /** `updateParticipant`: a missing id gives null and saves nothing; otherwise
        only the name of that row changes. */
    method UpdateParticipant(id: Id, name: string) returns (r: Option<Member>)
      requires store.Consistent()
      modifies store
      ensures store.Consistent()
      ensures store.nextId == old(store.nextId)
      ensures Find(old(store.participants), id).None? ==>
        r == None && store.participants == old(store.participants) && store.assignments == old(store.assignments)
      ensures Find(old(store.participants), id).Some? ==>
        && r.Some? && r.value.id == ToText(id) && Parse(r.value.id) == Some(id) && r.value.name == name
        && store.participants == Rename(old(store.participants), id, name)
        && store.assignments == RenameInLog(old(store.assignments), id, name)
        && Find(store.participants, id) == Some(Participant(id, name))
    {
      var existing := Find(store.participants, id);
      if existing.None? {
        return None;
      }
      var p := store.SaveRenamed(id, name);
      r := Some(ToMember(p));
    }

    /** `getAllParticipants`: every row as a member, in `findAll` order. */
    function GetAllParticipants(): (r: seq<Member>)
      reads store
      ensures |r| == |store.participants|
      ensures forall i :: 0 <= i < |r| ==>
        r[i].id == ToText(store.participants[i].id) && Parse(r[i].id) == Some(store.participants[i].id) && r[i].name == store.participants[i].name
    {
      seq(|store.participants|, i requires 0 <= i < |store.participants| reads store => ToMember(store.participants[i]))
    }

    /** `getParticipant`: the member with that id, or an empty `Optional`. */
    function GetParticipant(id: Id): (r: Option<Member>)
      reads store
      ensures r.None? <==> forall p :: p in store.participants ==> p.id != id
      ensures r.Some? ==>
        r.value.id == ToText(id) && Parse(r.value.id) == Some(id) && exists p :: p in store.participants && p.id == id && p.name == r.value.name
    {
      match Find(store.participants, id)
      case None => None
      case Some(p) => Some(ToMember(p))
    }

    /** `deleteParticipant`: `deleteById`, a no-op for a missing id. */
    method DeleteParticipant(id: Id)
      requires store.Consistent()
      modifies store
      ensures store.Consistent()
      ensures store.participants == Without(old(store.participants), id)
      ensures Find(store.participants, id) == None
      ensures store.nextId == old(store.nextId) && store.assignments == old(store.assignments)
    {
      store.DeleteById(id);
    }

    /** `getAllGiftExchanges`: every history row as `(giver name, receiver name)`, in
        order; the names are read through the join, so a renamed participant shows
        the current name. */
    function GetAllGiftExchanges(): (r: seq<GiftExchange>)
      requires store.Consistent()
      reads store
      ensures |r| == |store.assignments|
      ensures forall i :: 0 <= i < |r| ==>
        r[i].memberId == store.assignments[i].giver.name && r[i].recipientMemberId == store.assignments[i].receiver.name
      ensures forall i, p :: 0 <= i < |r| && p in store.participants && p.id == store.assignments[i].giver.id ==>
        r[i].memberId == p.name
      ensures forall i, p :: 0 <= i < |r| && p in store.participants && p.id == store.assignments[i].receiver.id ==>
        r[i].recipientMemberId == p.name
    {
      var log := store.assignments;
      seq(|log|, i requires 0 <= i < |log| => ExchangeByName(log[i]))
    }

    /** `drawNames` in its transaction: the same draw as `GiftExchangeService`,
        reported with `IllegalStateException`s; on failure the log is as before. */
    method DrawNames(rng: Rng, year: int) returns (r: Result<map<Participant, Participant>, SantaError>)
      requires store.Consistent()
      modifies store
      ensures store.Consistent()
      ensures store.participants == old(store.participants) && store.nextId == old(store.nextId)
      ensures r == Report(Draw(old(store.participants), old(store.assignments), rng, year))
      ensures r.Ok? ==>
        && IsDerangement(old(store.participants), r.value)
        && AvoidsRecentPairs(r.value, old(store.assignments), year)
        && Elems(Shuffled(old(store.participants), rng)) == Elems(old(store.participants))
        && store.assignments ==
           old(store.assignments) + RecordsFor(Shuffled(old(store.participants), rng), r.value, year)
      ensures r.Err? ==> store.assignments == old(store.assignments)
    {
      var snapshot := store.assignments;
      var o := DrawEngine.Run(store, rng, year);
      if !o.Drawn? {
        store.assignments := snapshot;  // the transaction rolls back
      } else {
        DrawKeepsHistoryCurrent(store.participants, snapshot, store.nextId,
                                Shuffled(store.participants, rng), o.assignments, year);
      }
      r := Report(o);
    }
  }

  /** The two services report a draw alike: given the same outcome (the same
      participants, log, random source and year), one succeeds exactly when the
      other does, with the same map and so the same saved records; a too-small
      group fails in both; a stuck draw names the same giver in both. */
  lemma ServicesAgree(o: DrawOutcome)
    ensures Report(o).Ok? <==> ExchangeService.Report(o).Ok?
    ensures Report(o).Ok? ==> Report(o).value == ExchangeService.Report(o).value
    ensures o.TooFewParticipants? ==>
      ExchangeService.Report(o) == Err(ExchangeService.NotEnoughParticipants) && Report(o).Err?
    ensures o.NoValidReceiver? ==>
      && ExchangeService.Report(o) == Err(ExchangeService.NoValidReceiverFound(o.giver.id))
      && Report(o) == Err(IllegalState("Unable to assign a valid receiver for " + ParticipantText(o.giver)))
  {
  }
}
