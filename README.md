# Secret gift exchange: the draw and the participant operations

This project models the service layer of a Spring Boot "secret gift exchange"
application in Dafny. The application has two services with the same shape:
`GiftExchangeService` and `SecretSantaService`. Only `GiftExchangeService` is
wired to the controllers
(src/main/kotlin/com/tenable/gifts/controller/MembersControllerImpl.kt:14 and
src/main/kotlin/com/tenable/gifts/controller/GiftExchangeControllerImpl.kt:11).
Each service:

- keeps a participant table (create, rename, list, look up, delete);
- keeps an append-only log of gift assignments;
- runs `drawNames`, which gives every participant one receiver.

The draw forbids three things: giving to yourself, receiving twice, and
repeating a giver-to-receiver pair recorded in the last three years.

The draw works like this:

1. Refuse fewer than two participants.
2. Shuffle the givers with the caller's `Random`.
3. For each giver in turn, query the log for the receivers this giver had
   recently, and filter the pool of receivers still free.
4. Fail as soon as a giver has no candidate. Otherwise pick one candidate
   at random, remove it from the pool and save a record.

The whole method runs in one transaction, so a failed draw saves nothing.

How the model is laid out:

- `DrawSpec.Draw` states the draw as a function of four inputs: the
  participant rows, the log, the random source and the year.
- `DrawEngine.Run` is the imperative loop, run against a mutable `Store`
  that holds both repositories. It is proved to return exactly `Draw`'s
  outcome. A completed draw appends exactly the records that outcome implies.
  A failed draw is only proved to have appended to the log; the services
  then restore the log as it was.
- The guarantees of the draw are proved about `Draw` for every random
  source:
  - a completed draw is a derangement of the participants;
  - a completed draw repeats no recent pair;
  - only a group of fewer than two participants is refused as too small.
- The services turn outcomes into their own error styles and roll the log
  back when a draw fails:
  - `GiftExchangeService` uses typed exceptions.
  - `SecretSantaService` uses `IllegalStateException`, and returns `null`
    for a missing row.

The history rows reference participant rows (`@ManyToOne`), so a history
record shows a participant as the row reads now. The model stores each
record's participants and keeps them current. `Store.SaveRenamed` renames the
row and every record that mentions its id. `Store.Consistent` states the
result: every record whose giver or receiver is still a row shows that row's
current name. Every service operation preserves it.

Randomness is modelled as a stream, `Rng = nat -> nat`. The k-th call
`random.nextInt(bound)` answers `rng(k) % bound`, and every in-range answer
sequence arises from some stream. `shuffled(random)` is Kotlin's
Fisher–Yates shuffle on a copy: for each index i from the last down to 1,
swap position i with position `nextInt(i + 1)`. It uses calls 0 to n-2. The
receiver pick `validReceivers.random(random)` of the i-th giver is call
n-1+i. `Year.now()` is a parameter `year`.

## Model

| member | source | states |
|---|---|---|
| Repositories.Store.constructor | src/main/kotlin/com/tenable/gifts/dao/Participant.kt:6-15 | the tables start empty, the IDENTITY counter starts at 1, and the store is consistent |
| Repositories.Store.Insert | src/main/kotlin/com/tenable/gifts/service/GiftExchangeService.kt:25 | saving a new participant appends a row with the next id and advances the counter. Ids stay distinct, the new row is found by its id, and the history still shows current rows (no record mentions the new id) |
| Repositories.Store.SaveRenamed | src/main/kotlin/com/tenable/gifts/service/GiftExchangeService.kt:33-34 | saving `copy(name = …)` renames that row in place, and every history record that references it reads the new name. The id is found with the new name, ids stay distinct, and the store stays consistent |
| Repositories.Store.DeleteById | src/main/kotlin/com/tenable/gifts/service/GiftExchangeService.kt:51 | `deleteById` removes the row with that id if there is one. Afterwards the id is not found, nothing else changes, and the store stays consistent |
| ParticipantStore.Find | src/main/kotlin/com/tenable/gifts/service/GiftExchangeService.kt:30 | `findById` returns a row of the table with that id, or empty exactly when no row has it |
| ParticipantStore.Rename | src/main/kotlin/com/tenable/gifts/service/GiftExchangeService.kt:33 | renaming keeps length, order and every id; rows with other ids are untouched; the row with that id gets the new name |
| ParticipantStore.Without | src/main/kotlin/com/tenable/gifts/service/GiftExchangeService.kt:51 | deleting keeps exactly the rows with a different id |
| ParticipantStore.FindAfterRename | src/main/kotlin/com/tenable/gifts/service/GiftExchangeService.kt:33-35 | after the rename `findById` returns the same id with the new name |
| ParticipantStore.FindOtherAfterRename | src/main/kotlin/com/tenable/gifts/service/GiftExchangeService.kt:33-34 | a rename leaves every other id's lookup unchanged |
| ParticipantStore.RenameKeepsDistinctIds | src/main/kotlin/com/tenable/gifts/service/GiftExchangeService.kt:33-34 | a rename cannot break the primary key |
| ParticipantStore.FindAfterDelete | src/main/kotlin/com/tenable/gifts/service/GiftExchangeService.kt:50-52 | after `deleteById(id)` the id is not found, whether or not it existed |
| ParticipantStore.FindOtherAfterDelete | src/main/kotlin/com/tenable/gifts/service/GiftExchangeService.kt:50-52 | deleting one id leaves every other id's lookup unchanged |
| ParticipantStore.DeleteAbsent | src/main/kotlin/com/tenable/gifts/service/GiftExchangeService.kt:50-52 | deleting an id that is not there changes nothing |
| ParticipantStore.DeleteIdempotent | src/main/kotlin/com/tenable/gifts/service/GiftExchangeService.kt:50-52 | deleting twice is the same as deleting once |
| ParticipantStore.DeleteKeepsDistinctIds | src/main/kotlin/com/tenable/gifts/service/GiftExchangeService.kt:50-52 | deleting cannot break the primary key |
| ParticipantStore.AppendFresh | src/main/kotlin/com/tenable/gifts/service/GiftExchangeService.kt:25 | a row appended with an id above every existing id keeps ids distinct and is what `findById` returns |
| ParticipantStore.RenameInLog | src/main/kotlin/com/tenable/gifts/dao/GiftAssignment.kt:11-15 | after a rename every record whose giver or receiver has that id reads the new name; ids, years, length and order are unchanged, and other names are untouched |
| ParticipantStore.InsertKeepsHistoryCurrent | src/main/kotlin/com/tenable/gifts/service/GiftExchangeService.kt:24-26 | a new row with the next id appears in no record, so every record still shows its participants as the rows read now |
| ParticipantStore.RenameKeepsHistoryCurrent | src/main/kotlin/com/tenable/gifts/service/GiftExchangeService.kt:33-34 | renaming the row and its records together keeps every record showing its participants as the rows read now |
| ParticipantStore.AppendKeepsHistoryCurrent | src/main/kotlin/com/tenable/gifts/service/GiftExchangeService.kt:100 | appending records whose giver and receiver are rows keeps every record showing current rows |
| LongText.NatTextDigits | src/main/kotlin/com/tenable/gifts/service/GiftExchangeService.kt:26 | the decimal text of a natural number is non-empty, all digits, and denotes that number |
| LongText.ToText | src/main/kotlin/com/tenable/gifts/service/GiftExchangeService.kt:26 | `id.toString()`: reading the text back with `toLong()` gives the id, for every id (negative ones included) |
| LongText.Parse | src/main/kotlin/com/tenable/gifts/controller/MembersControllerImpl.kt:27 | `id.toLong()` on the controllers' path text: it reads only text made of an optional leading minus sign and digits, and a negative value only from text that starts with a minus sign |
| LongText.ToTextInjective | src/main/kotlin/com/tenable/gifts/service/GiftExchangeService.kt:56 | different ids are rendered as different text |
| Entities.ToMember | src/main/kotlin/com/tenable/gifts/service/GiftExchangeService.kt:39 | `Member(it.id.toString(), it.name)`: the member id is exactly the row id's text, which reads back as the row id, and the name is the row's |
| ExchangeService.GiftExchangeService.AddParticipant | src/main/kotlin/com/tenable/gifts/service/GiftExchangeService.kt:24-27 | adds one row with the next id and returns it as a member whose id is exactly that id's text; the log is untouched and the store stays consistent |
| ExchangeService.GiftExchangeService.UpdateParticipant | src/main/kotlin/com/tenable/gifts/service/GiftExchangeService.kt:29-36 | a missing id fails with `MemberNotFound(id)` and saves nothing. Otherwise only that row's name changes, the history records that reference it read the new name, and the member returned has that id's text and the new name |
| ExchangeService.GiftExchangeService.GetAllParticipants | src/main/kotlin/com/tenable/gifts/service/GiftExchangeService.kt:38-40 | one member per row in `findAll` order, each with exactly that row's id text and its name |
| ExchangeService.GiftExchangeService.GetParticipant | src/main/kotlin/com/tenable/gifts/service/GiftExchangeService.kt:42-48 | fails with `MemberNotFound(id)` exactly when no row has the id; otherwise returns a member with exactly that id's text and that row's name |
| ExchangeService.GiftExchangeService.DeleteParticipant | src/main/kotlin/com/tenable/gifts/service/GiftExchangeService.kt:50-52 | removes the row with that id, if any; afterwards the id is not found |
| ExchangeService.GiftExchangeService.GetAllGiftExchanges | src/main/kotlin/com/tenable/gifts/service/GiftExchangeService.kt:54-57 | one pair per record in log order, holding exactly the text of the giver's id and of the receiver's id |
| ExchangeService.ExchangeById | src/main/kotlin/com/tenable/gifts/service/GiftExchangeService.kt:56 | the pair holds exactly the text of the record's giver id and of its receiver id, each of which reads back as that id |
| ExchangeService.Message | src/main/kotlin/com/tenable/gifts/service/GiftExchangeService.kt:32-88 | the exception texts: the fixed text for too few participants; the stuck giver's id after the `member id=` prefix; the missing id between `Member with id = ` and ` not found`. Each id reads back from the text |
| ExchangeService.Report | src/main/kotlin/com/tenable/gifts/service/GiftExchangeService.kt:64-90 | success exactly when the draw completed, with its map; `NotEnoughParticipants` exactly when there were too few; the stuck giver's id in `NoValidReceiverFound` |
| ExchangeService.GiftExchangeService.DrawNames | src/main/kotlin/com/tenable/gifts/service/GiftExchangeService.kt:59-104 | the result is `Draw`'s outcome for the current rows and log. On success the map is a derangement of the participants that repeats no recent pair, and the log gains one record per giver in giver order. On failure the transaction leaves the log as it was. The participants never change. |
| SantaService.Report | src/main/kotlin/com/tenable/gifts/service/SecretSantaService.kt:56-78 | success exactly when the draw completed, with its map; the two `IllegalStateException` messages, the second naming the stuck giver |
| SantaService.ExchangeByName | src/main/kotlin/com/tenable/gifts/service/SecretSantaService.kt:48 | the pair holds the giver's and the receiver's names |
| SantaService.ParticipantText | src/main/kotlin/com/tenable/gifts/service/SecretSantaService.kt:77 | the `$giver` rendering `Participant(id=…, name=…)`: the id's text, which reads back as the id, followed by the name |
| SantaService.SecretSantaService.AddParticipant | src/main/kotlin/com/tenable/gifts/service/SecretSantaService.kt:21-24 | adds one row with the next id and returns it as a member |
| SantaService.SecretSantaService.UpdateParticipant | src/main/kotlin/com/tenable/gifts/service/SecretSantaService.kt:26-33 | a missing id returns `null` and saves nothing. Otherwise only that row's name changes, the history records that reference it read the new name, and the member returned has that id and the new name |
| SantaService.SecretSantaService.GetAllParticipants | src/main/kotlin/com/tenable/gifts/service/SecretSantaService.kt:35-37 | one member per row in `findAll` order, each with that row's id and name |
| SantaService.SecretSantaService.GetParticipant | src/main/kotlin/com/tenable/gifts/service/SecretSantaService.kt:39-41 | empty exactly when no row has the id; otherwise a member with that id and that row's name |
| SantaService.SecretSantaService.DeleteParticipant | src/main/kotlin/com/tenable/gifts/service/SecretSantaService.kt:43-45 | removes the row with that id, if any |
| SantaService.SecretSantaService.GetAllGiftExchanges | src/main/kotlin/com/tenable/gifts/service/SecretSantaService.kt:47-49 | one pair of names per record, in log order. Every giver or receiver that is still a row shows its current name, as the join reads it |
| SantaService.SecretSantaService.DrawNames | src/main/kotlin/com/tenable/gifts/service/SecretSantaService.kt:51-92 | the same guarantees as the other service's draw, reported with `IllegalStateException`s |
| SantaService.ServicesAgree | src/main/kotlin/com/tenable/gifts/service/SecretSantaService.kt:52-92 | given the same inputs the two services succeed together with the same map; too few fails in both; a stuck draw names the same giver in both |
| DrawEngine.Run | src/main/kotlin/com/tenable/gifts/service/GiftExchangeService.kt:61-103 | the imperative draw returns `Draw`'s outcome and leaves the participants alone. A completed draw is a derangement that avoids recent pairs and appends `RecordsFor(shuffled givers)`. A failed draw has only appended to the log. |
| DrawEngine.AssignAll | src/main/kotlin/com/tenable/gifts/service/GiftExchangeService.kt:71-101 | the `forEach` over the shuffled givers gets stuck at the giver where `DrawLoop` gets stuck, or completes with `DrawLoop`'s map, having appended exactly its records |
| DrawEngine.AssignOne | src/main/kotlin/com/tenable/gifts/service/GiftExchangeService.kt:79-100 | one turn of the loop: the query reads the live log, the filter, the stuck case, then the pick, removal and save; the turn agrees with one step of `DrawLoop` |
| DrawEngine.StuckDraw | src/main/kotlin/com/tenable/gifts/service/GiftExchangeService.kt:86-90 | a loop stuck at a giver makes the draw `NoValidReceiver` for that giver |
| DrawEngine.CompletedDraw | src/main/kotlin/com/tenable/gifts/service/GiftExchangeService.kt:77-103 | a completed loop makes the draw `Drawn`; its map is a derangement avoiding recent pairs; it saved one record per giver in giver order |
| DrawSpec.NextInt | src/main/kotlin/com/tenable/gifts/service/GiftExchangeService.kt:93 | a random answer is below its bound |
| DrawSpec.ShuffleDown | src/main/kotlin/com/tenable/gifts/service/GiftExchangeService.kt:77 | the Fisher–Yates pass of `shuffled`, from the last index down, keeps the length (its permutation property is `ShuffleDownPermutes`) |
| DrawSpec.RecentReceiverIds | src/main/kotlin/com/tenable/gifts/service/GiftExchangeService.kt:79-81 | the excluded ids are exactly the receivers of this giver's records newer than `year - 3` (both directions) |
| DrawSpec.ValidReceivers | src/main/kotlin/com/tenable/gifts/service/GiftExchangeService.kt:84 | the filter keeps at most the pool (membership, both directions, is `ValidReceiversMembers`) |
| DrawSpec.RemoveFirst | src/main/kotlin/com/tenable/gifts/service/GiftExchangeService.kt:97 | `remove` shrinks the pool by one exactly when the receiver is in it (what it removes is `RemoveFirstMultiset`) |
| DrawSpec.DrawLoop | src/main/kotlin/com/tenable/gifts/service/GiftExchangeService.kt:77-101 | the `forEach` from giver i: a stuck giver is one of the givers not yet served; a completed loop keeps the records saved before and adds one per remaining giver |
| DrawSpec.Draw | src/main/kotlin/com/tenable/gifts/service/GiftExchangeService.kt:60-104 | `drawNames` as a function: refused as too few exactly when there are fewer than two participants; a stuck giver is one of the participants |
| DrawSpec.ShuffleDownPermutes | src/main/kotlin/com/tenable/gifts/service/GiftExchangeService.kt:77 | the shuffle permutes the participants: the same multiset |
| DrawSpec.Shuffled | src/main/kotlin/com/tenable/gifts/service/GiftExchangeService.kt:77 | `shuffled` returns a permutation of the list, of the same length |
| DrawSpec.ValidReceiversMembers | src/main/kotlin/com/tenable/gifts/service/GiftExchangeService.kt:84 | the filter keeps exactly the pool members that are not the giver and not excluded (both directions) |
| DrawSpec.RemoveFirstMultiset | src/main/kotlin/com/tenable/gifts/service/GiftExchangeService.kt:97 | `remove(receiver)` takes exactly one copy of the receiver out of the pool, if there is one |
| DrawSpec.RecordsFor | src/main/kotlin/com/tenable/gifts/service/GiftExchangeService.kt:100 | the records of a completed draw: one per giver, in giver order, stamped with the year |
| DrawProperties.ShuffledIsPermutation | src/main/kotlin/com/tenable/gifts/service/GiftExchangeService.kt:77 | the giver order holds exactly the participants, with ids still distinct |
| DrawProperties.RemoveFirstDistinct | src/main/kotlin/com/tenable/gifts/service/GiftExchangeService.kt:97 | removing the receiver from a pool with distinct ids leaves exactly the other members and shrinks the pool by one |
| DrawProperties.LoopStep | src/main/kotlin/com/tenable/gifts/service/GiftExchangeService.kt:84-100 | one turn that finds a receiver keeps the loop invariant. The invariant says: the assigned givers are the first i of the order; the pool is exactly the undrawn participants; the map is injective, with no fixed point and no recent pair; one record per assigned giver is saved in order. |
| DrawProperties.DrawLoopSound | src/main/kotlin/com/tenable/gifts/service/GiftExchangeService.kt:77-103 | from any state meeting the invariant, the loop either completes with every participant giving and receiving once, avoiding recent pairs, with records in giver order, or gets stuck at one of the givers |
| DrawProperties.DrawSound | src/main/kotlin/com/tenable/gifts/service/GiftExchangeService.kt:60-104 | for every random source: a completed draw is a derangement of the participants and repeats no recent pair; a stuck draw names a participant of a group of at least two; too few means fewer than two |
| DrawProperties.RecordsAreRows | src/main/kotlin/com/tenable/gifts/service/GiftExchangeService.kt:96-100 | every record a completed draw saves has a participant row as giver and as receiver |
| DrawProperties.DrawKeepsHistoryCurrent | src/main/kotlin/com/tenable/gifts/service/GiftExchangeService.kt:77-101 | saving a completed draw's records keeps every record showing current rows |
| DrawFacts.RecordsCoverParticipants | src/test/kotlin/com/tenable/gifts/GiftExchangeServiceTest.kt:158-175 | for a derangement of distinct participants, every shuffled giver is in the map, and the givers of the saved records are exactly the participants as a multiset: one save per participant |
| DrawFacts.RecordGivers | src/main/kotlin/com/tenable/gifts/service/GiftExchangeService.kt:100 | the givers of a completed draw's records, in order, are the shuffled givers |
| DrawFacts.SaturatedHistoryFails | src/test/kotlin/com/tenable/gifts/GiftExchangeServiceTest.kt:129-156 | if every ordered pair of distinct participants has a recent record, the draw fails at the first shuffled giver |
| DrawFacts.SameRecentHistorySameDraw | src/main/kotlin/com/tenable/gifts/service/GiftExchangeService.kt:79-81 | only records newer than `year - 3` matter: two logs that agree on those give the same draw |
| DrawFacts.NoRecentRecords | src/main/kotlin/com/tenable/gifts/service/GiftExchangeService.kt:79-81 | a giver with no records excludes nobody |
| DrawFacts.SameExclusionsSameDraw | src/main/kotlin/com/tenable/gifts/service/GiftExchangeService.kt:79-84 | two logs that exclude the same receivers for every giver, whatever this draw has saved, give the same draw |
| DrawFacts.RenameKeepsExclusions | src/main/kotlin/com/tenable/gifts/service/GiftExchangeService.kt:79-81 | renaming a participant in the log changes no giver's excluded ids: the query and the exclusion go by id |
| DrawFacts.RenameKeepsDraw | src/main/kotlin/com/tenable/gifts/service/GiftExchangeService.kt:60-104 | renaming a participant in the log changes no draw over the same rows, random source and year: the log reaches the draw only through ids |
| DrawFacts.TwoParticipantsSwap | src/main/kotlin/com/tenable/gifts/service/GiftExchangeService.kt:77-101 | two participants with no recent pair between them always swap, whatever the random source |
| DrawFacts.TwoShuffle | src/main/kotlin/com/tenable/gifts/service/GiftExchangeService.kt:77 | shuffling two participants gives one of their two orders |
| DrawFacts.TwoGiversSwap | src/main/kotlin/com/tenable/gifts/service/GiftExchangeService.kt:77-101 | in either giver order, the loop over two participants completes with the swap and saves its two records |
| DrawFacts.GreedyCanStrand | src/main/kotlin/com/tenable/gifts/service/GiftExchangeService.kt:77-90 | the single greedy pass can fail although a valid draw exists. Alice, Bob and Charlie have no history and a source picks first candidates. The draw strands Charlie, yet Alice to Bob, Bob to Charlie, Charlie to Alice is a derangement. |
| DrawFacts.CycleIsDerangement | src/main/kotlin/com/tenable/gifts/service/GiftExchangeService.kt:77-90 | the valid draw the greedy pass misses in `GreedyCanStrand`: three distinct participants each giving to the next form a derangement |

## Left out

- `Participant.version`, optimistic locking and the pessimistic lock on
  `findAll`: the model has no concurrent callers. A participant is its id
  and name. Data-class equality therefore compares id and name, not version.
- `SecretSantaService.updateParticipant` also copies an `email` field. The
  `Participant` class has no such field, so only the name is modelled.
- `SantaService.ParticipantText`: the exception message of the stuck draw
  renders the giver as `Participant(id=…, name=…)`. The `version` field that
  Kotlin's data class also prints is left out.
- LongText.Parse: `toLong` also accepts a leading `+`; the model reads that
  text as no number. The model only reads back the text `toString` produces.
- `Long` width: ids are unbounded integers. The IDENTITY counter never wraps.
- `Year.now()`: a parameter. The source reads the clock twice per giver, for
  the query and for the record. The model uses one year for the whole draw,
  so it does not capture a draw that runs across New Year.
- Randomness: the model quantifies over every random source. It does not
  model the uniformity of `Random.nextInt` or Kotlin's internal generator.
- The exclusion query `findByGiverAndYearGreaterThan` matches the giver by
  id, as the foreign key does. Excluded receivers are compared to the pool by
  id. The test at src/test/kotlin/com/tenable/gifts/GiftExchangeServiceTest.kt:129-156
  mocks the query so that every giver gets all three records. Under the
  real query each giver gets only its own records, and the model follows
  the real query.
- What `deleteById` does to history rows that reference the deleted
  participant (a foreign-key error or a cascade) depends on the database
  schema, which is not part of this model. The log keeps its records, which
  show the deleted participant as the row last read.
- `addParticipant` takes a whole `Participant`. The controllers always pass
  one without an id, so the model takes a name and assigns the next id.
- The controllers, HTTP status mapping and `GlobalExceptionHandler` are not
  part of this model. Neither is the generated `Members` wrapper.
- The transaction is modelled as a rollback of the log on failure. Isolation
  from other transactions is not modelled.
