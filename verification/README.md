# Video catalogue core, modelled in Dafny

This project models the domain and persistence core of a video-catalogue
administration backend. It covers:

- **Aggregates.**
  - The `Video` aggregate: catalogue data, five media slots, three id maps, and
    the derived `is_published` flag that its own event handlers maintain.
  - The `Genre` aggregate: a category-id map and an active flag.
- **Media value objects.**
  - The `Trailer` status machine (PENDING, PROCESSING, COMPLETED, FAILED).
  - The `Thumbnail` image.
  - The media file validator they share: size bound, MIME whitelist, and
    stored-name construction.
- **Domain events.**
  - The aggregate root's event log, with its dispatched marks and per-name
    handlers.
  - The domain event mediator: `register`, `publish`, and
    `publishIntegrationEvents`.
- **Units of work.**
  - The Sequelize unit of work: a nullable transaction handle plus a set of
    touched aggregates. It offers `start`/`commit`/`rollback` and `do(work)`,
    and runs over an abstract transactional database.
  - The fake in-memory unit of work.
- **Repositories.**
  - The in-memory repository: insert, update, delete, find, `findByIds`,
    `existsById`, filter/sort/paginate `search`.
  - The category repository's name filter and default newest-first order.
  - The in-memory file storage.
  - The pagination output mapper.

Everything is a pure function over immutable datatypes, except the two
mediator passes and `existsById`, which are methods with loops. The source
represents a JavaScript `Map` keyed by an id's own string, and a `Set` of
aggregates, as insertion-ordered, duplicate-free sequences (module
`OrderedSet`). In both, re-adding a present key keeps its position, and
iteration follows first insertion.

Several collaborators are given as parameters:
- the time (`now`);
- freshly generated ids (`fresh_id`);
- the sha256 digest in stored file names (`digest`);
- whether a listener rejects a given emission (`fails`);
- the work passed to `do`.

The work is a script of steps: row writes, row deletes, aggregate
registrations, and an exception that ends it. `Video.Valid` is the video's
representation invariant. It says:
- the event log's dispatched marks point into the log;
- the two handlers of the constructor are registered;
- the id maps have no repeated keys.

`Video.New` and `Video.Create` establish it, and every operation keeps it.

When the work fails inside an already active transaction, `do` still calls
`rollback()` on that transaction without awaiting it, and rethrows the work's
error. `UnitOfWorkSequelize.Do` models that: the inherited transaction is
rolled back, a rollback error is ignored, and the work's error is what `do`
reports.

## Model

| member | source | states |
|---|---|---|
| Video.New | src/core/video/domain/video.aggregate.ts:80-111 | title, description, year, duration and rating are the props' values; absent id and creation time come from the supplied fresh id and clock; absent flags are false and absent media null; both event handlers are registered, under the two event names, before any event exists |
| Video.TryMarkAsPublished | src/core/video/domain/video.aggregate.ts:261-268 | `is_published` becomes true exactly when trailer and video are both present and COMPLETED; nothing else changes |
| Video.Handle | src/core/video/domain/video.aggregate.ts:270-282 | either handler leaves a published video published and otherwise tries publication: the flag becomes old flag or ready |
| Video.RunHandlers | src/core/video/domain/video.aggregate.ts:102-110 | running the registered handlers in order publishes the video iff it was published or some handler ran and the media are ready |
| Video.ApplyEvent | src/core/video/domain/video.aggregate.ts:123-143 | applying an event appends it to the log and to the uncommitted events, then runs its handlers; a video or media-replaced event publishes a ready video, any other event leaves the flag alone |
| Video.Snapshot | src/core/video/domain/video.aggregate.ts:124-141 | the created event carries every field of the video: id, catalogue data, both flags, the five media, the id lists in map order, and the creation time |
| Video.Create | src/core/video/domain/video.aggregate.ts:113-145 | the catalogue data, the opened flag and the media are the command's; id lists become duplicate-free maps in first-occurrence order; exactly one pending `VideoCreatedEvent` is logged, carrying the video as it was before publication was tried (unpublished); the result satisfies the invariant |
| Video.CreatePublishedIff | src/core/video/domain/video.aggregate.ts:113-145 | after `create` the video is published iff the given trailer and video are both present and COMPLETED |
| Video.PublishedNeverReset | src/core/video/domain/video.aggregate.ts:271-282 | applying any event to a published video leaves it published |
| Video.ReplaceBanner | src/core/video/domain/video.aggregate.ts:176-178 | only the banner changes, and no event is raised |
| Video.ReplaceThumbnail | src/core/video/domain/video.aggregate.ts:180-182 | only the thumbnail changes, and no event is raised |
| Video.ReplaceThumbnailHalf | src/core/video/domain/video.aggregate.ts:184-186 | only the half thumbnail changes, and no event is raised |
| Video.ReplaceTrailer | src/core/video/domain/video.aggregate.ts:188-197 | the trailer is stored, then one `VideoAudioMediaReplaced` event of type trailer, carrying it, is appended and pending; published becomes old or (new trailer and current video ready); no other field changes |
| Video.ReplaceVideo | src/core/video/domain/video.aggregate.ts:199-208 | as for the trailer, for the video slot and media type video |
| Video.PublishAfterBothEncoded | src/core/video/domain/video.aggregate.ts:188-208 | a video created without a video, given an encoded trailer and then an encoded video, is published only after the second replacement; it then has three pending events: the creation event, then the two replacements |
| Video.TrailerThenVideoPublishes | src/core/video/domain/video.aggregate.ts:188-208 | on an unpublished valid video with no video yet, replacing the trailer with a COMPLETED one does not publish, and then replacing the video with a COMPLETED one does; each replacement appends one pending media-replaced event for its slot |
| Video.MarkAsOpened | src/core/video/domain/video.aggregate.ts:168-170 | `is_opened` becomes true whatever it was; nothing else changes |
| Video.MarkAsNotOpened | src/core/video/domain/video.aggregate.ts:172-174 | `is_opened` becomes false whatever it was; nothing else changes |
| Video.AddId | src/core/video/domain/video.aggregate.ts:210-212 | the map's keys gain the id; a present id changes nothing and a new one goes last; other maps and the event log are untouched |
| Video.RemoveId | src/core/video/domain/video.aggregate.ts:214-216 | exactly that key leaves the map; an absent key changes nothing; other maps are untouched |
| Video.AddIdIdempotent | src/core/video/domain/video.aggregate.ts:226-228 | adding an id twice is adding it once |
| Video.RemoveUndoesAdd | src/core/video/domain/video.aggregate.ts:245-247 | removing a just-added, previously absent id restores the video |
| Video.SyncIds | src/core/video/domain/video.aggregate.ts:218-224 | an empty list fails with that map's message and changes nothing; otherwise the map holds exactly the distinct ids given, in first-occurrence order, and other maps are untouched |
| OrderedSet.Insert | src/core/video/domain/video.aggregate.ts:210-212 | adding a key keeps every present key in place; a new key goes last; a present key changes nothing; no key is ever duplicated |
| OrderedSet.Remove | src/core/video/domain/video.aggregate.ts:214-216 | deleting a key drops exactly that key, keeps the others, and keeps them duplicate-free |
| OrderedSet.FromSeqOrder | src/core/video/domain/video.aggregate.ts:223 | the map built from a list of ids holds its keys in the order of their first occurrence in the list |
| Genre.New | src/core/genre/domain/genre.aggregate.ts:30-37 | absent id and time come from the supplied fresh id and clock; absent categories are an empty map; the genre is active unless told `false`; its category map is valid (each key once) exactly when the given ids have no repeats |
| Genre.Create | src/core/genre/domain/genre.aggregate.ts:39-48 | the category map holds each given id once, first occurrence first, and nothing else |
| Genre.AddCategoryId | src/core/genre/domain/genre.aggregate.ts:55-57 | the keys gain the id; a present id changes nothing; nothing else changes |
| Genre.RemoveCategoryId | src/core/genre/domain/genre.aggregate.ts:59-61 | exactly that key goes; an absent key changes nothing |
| Genre.AddCategoryIdIdempotent | src/core/genre/domain/genre.aggregate.ts:55-57 | adding a category twice is adding it once |
| Genre.RemoveUndoesAdd | src/core/genre/domain/genre.aggregate.ts:59-61 | removing a just-added, previously absent id restores the genre |
| Genre.SyncCategoriesIds | src/core/genre/domain/genre.aggregate.ts:63-71 | an empty list fails with "At least one category id is required"; otherwise the map holds exactly the distinct ids given, in first-occurrence order, and nothing else of the genre changes |
| Genre.SyncForgetsPrevious | src/core/genre/domain/genre.aggregate.ts:68-70 | the synced map does not depend on the categories held before |
| Genre.Activate | src/core/genre/domain/genre.aggregate.ts:73-75 | the genre is active afterwards whatever it was; nothing else changes |
| Genre.Deactivate | src/core/genre/domain/genre.aggregate.ts:77-79 | the genre is inactive afterwards whatever it was; nothing else changes |
| Genre.ToggleLastWins | src/core/genre/domain/genre.aggregate.ts:73-79 | each toggle is idempotent, and of two toggles the last decides |
| Genre.EntityId | src/core/genre/domain/genre.aggregate.ts:81-83 | the entity id is the genre id |
| Genre.ToJson | src/core/genre/domain/genre.aggregate.ts:94-102 | the plain object carries the id, name, category ids in map order, flag and time |
| Genre.JsonRoundTrip | src/core/genre/domain/genre.aggregate.ts:94-102 | the constructor rebuilds the genre from its plain object, and re-serialising gives the same object |
| Trailer.Create | src/core/video/domain/trailer.vo.ts:39-45 | a new trailer is PENDING, with no encoded location |
| Trailer.CreateFromFile | src/core/video/domain/trailer.vo.ts:13-37 | accepted iff size is at most 500·1024·1024 and the type is video/mp4; a rejection is the validator's error; an accepted trailer is named `<video id>-<validated name>`, lives under `videos/<video id>/videos`, and is PENDING |
| Trailer.Process | src/core/video/domain/trailer.vo.ts:47-54 | status becomes PROCESSING; name, raw location and encoded location are kept |
| Trailer.Complete | src/core/video/domain/trailer.vo.ts:56-63 | status becomes COMPLETED with the given encoded location; name and raw location are kept |
| Trailer.Fail | src/core/video/domain/trailer.vo.ts:65-72 | status becomes FAILED; name, raw location and encoded location are kept |
| Trailer.RunPreservesIdentity | src/core/video/domain/trailer.vo.ts:47-72 | any sequence of transitions keeps the name and raw location; the status is the last transition's, and the encoded location is the last `complete`'s, or the original one |
| Thumbnail.CreateFromFile | src/core/video/domain/thumbnail.vo.ts:10-34 | accepted iff size is at most 2·1024·1024 and the type is jpeg, png or gif; the name is the validated name unchanged, the location is `videos/<video id>/images` |
| Thumbnail.AcceptedMimeTypes | src/core/video/domain/thumbnail.vo.ts:7-8 | a thumbnail accepts exactly the JPEG, PNG and GIF MIME types, and at most 2 MiB (2097152 bytes) |
| MediaFileValidator.Validate | src/core/shared/domain/validators/media-file.validator.ts:9-29 | accepted iff size is at most the maximum and the type is in the list; a too-large size gives the size error even when the type is also bad; a bad type gives the type error; an accepted name is the digest, a dot, and the raw name's last dot-separated segment |
| MediaFileValidator.Extension | src/core/shared/domain/validators/media-file.validator.ts:40 | the extension, the last part of splitting the raw name on dots, is the text after the last dot, or the whole name when there is no dot |
| Strings.SplitLastIsLastSegment | src/core/shared/domain/validators/media-file.validator.ts:40 | the last part of splitting on a character is the text after that character's last occurrence |
| MediaFileValidator.StoredNameDeterminedByExtension | src/core/shared/domain/validators/media-file.validator.ts:39-49 | a stored name is determined by digest and extension, and a raw name without a dot is kept whole after the dot |
| MediaFileValidator.SizeMessageEmbedsValues | src/core/shared/domain/validators/media-file.validator.ts:52-59 | the size error's message contains the actual size and the limit |
| MediaFileValidator.MimeMessageEmbedsValues | src/core/shared/domain/validators/media-file.validator.ts:61-70 | the type error's message contains the rejected type and every allowed one |
| AggregateRoot.RegisterHandler | src/core/video/domain/video.aggregate.ts:102-110 | a handler joins those registered under its name, after them; other names and the log are unchanged |
| AggregateRoot.Record | src/core/video/domain/video.aggregate.ts:190-196 | an applied event joins the log as pending, after the events pending before |
| AggregateRoot.GetUncommittedEvents | src/core/shared/domain/events/domain-event.mediator.ts:12 | the uncommitted events are those at the pending positions, in log order |
| AggregateRoot.PendingFromExact | src/core/shared/domain/events/domain-event.mediator.ts:12 | the pending positions are exactly the undispatched ones, increasing |
| AggregateRoot.MarkEventAsDispatched | src/core/shared/domain/events/domain-event.mediator.ts:14 | marking adds that position to the dispatched ones and changes nothing else |
| AggregateRoot.MarkFirstPending | src/core/shared/domain/events/domain-event.mediator.ts:12-14 | marking the first pending event removes exactly it from the pending ones |
| AggregateRoot.MarkNext | src/core/shared/domain/events/domain-event.mediator.ts:12-14 | marking the next event of the walk dispatched leaves exactly the later ones pending |
| AggregateRoot.MarkPrefix | src/core/shared/domain/events/domain-event.mediator.ts:12-14 | marking the first n pending events one by one leaves exactly the later ones pending, and the log and handlers unchanged |
| AggregateRoot.NothingDispatchedAllUncommitted | src/core/video/domain/video.aggregate.ts:123-143 | with nothing dispatched, every logged event is uncommitted, in log order |
| DomainEvents.GetIntegrationEvent | src/core/shared/domain/events/domain-event.mediator.ts:21-22 | a translation exists only for media-replaced events and translating stub events; it carries the event as payload, its version and its time |
| DomainEvents.MediaTypeName | src/core/video/domain/video.aggregate.ts:194 | the media type string is "trailer" exactly for the trailer slot, otherwise "video" |
| DomainEvents.NameIdentifiesKind | src/core/shared/domain/events/domain-event.mediator.ts:13 | each kind of domain event is emitted under its own class name, and no two kinds share a name |
| DomainEventMediator.New | src/core/shared/domain/events/domain-event.mediator.ts:4 | a new mediator has no listener on any name |
| DomainEventMediator.Register | src/core/shared/domain/events/domain-event.mediator.ts:7-9 | a listener is appended under its name; every earlier listener is kept; other names are unchanged |
| DomainEventMediator.DomainEmission | src/core/shared/domain/events/domain-event.mediator.ts:13-15 | a domain event is emitted under its class name carrying itself |
| DomainEventMediator.IntegrationEmission | src/core/shared/domain/events/domain-event.mediator.ts:24-27 | a translation is emitted under the integration event's name carrying itself |
| DomainEventMediator.EmitFailsIff | src/core/shared/domain/events/domain-event.mediator.ts:15 | an emission is rejected exactly when some listener registered under its name rejects it; an emission nobody listens to succeeds |
| DomainEventMediator.TranslationOf | src/core/shared/domain/events/domain-event.mediator.ts:21-22 | an event contributes its translation when it has one and nothing otherwise |
| DomainEventMediator.Publish | src/core/shared/domain/events/domain-event.mediator.ts:11-17 | the uncommitted events are emitted in log order, each under its own name; it succeeds iff no emission fails, and then nothing is left uncommitted; on the first failing emission it stops with that error, the failing event already marked and the later ones still uncommitted |
| DomainEventMediator.EmitEach | src/core/shared/domain/events/domain-event.mediator.ts:12-16 | the emissions are made in order, so the trace is a prefix of them; it passes iff none is rejected, and otherwise stops at the first rejection, which is the error |
| DomainEventMediator.PublishIntegrationEvents | src/core/shared/domain/events/domain-event.mediator.ts:19-29 | the translations of every logged event, dispatched or not, are emitted in log order and events without one are skipped; it succeeds iff none fails, and stops at the first failure |
| DomainEventMediator.EmitAll | src/core/shared/domain/events/domain-event.mediator.ts:24-27 | the integration events are emitted in order under their own names; it passes iff none is rejected and otherwise stops at the first rejection |
| DomainEventMediator.TranslationsAppend | src/core/shared/domain/events/domain-event.mediator.ts:20-22 | the translations of a log are those of its front followed by those of its back, so they follow log order |
| DomainEventMediator.AllTranslated | src/core/shared/domain/events/domain-event.mediator.ts:20-22 | when every event translates, the n-th translation is the n-th event's |
| DomainEventMediator.TranslationsSkipUntranslated | src/core/shared/domain/events/domain-event.mediator.ts:21-22 | in a log of three events where the first lacks a translation, exactly the second's and third's translations are published, in order |
| DomainEventMediator.NoTranslationNoEmission | src/core/shared/domain/events/__tests__/domain-event.mediator.spec.ts:79-88 | a log none of whose events translates publishes nothing |
| Database.Begin | src/core/shared/infra/repository/sequelize/unit-of-work-sequelize.ts:13 | a transaction begins with a new handle and an empty write log; committed rows are unchanged |
| Database.Commit | src/core/shared/infra/repository/sequelize/unit-of-work-sequelize.ts:19 | committing an open transaction applies its writes in order and finishes it; a finished one cannot be committed |
| Database.Rollback | src/core/shared/infra/repository/sequelize/unit-of-work-sequelize.ts:25 | rolling back drops the transaction's writes and finishes it; committed rows are unchanged |
| Database.BeginRollback | src/core/shared/infra/repository/sequelize/unit-of-work-sequelize.ts:22-27 | rolling back a transaction just begun, with nothing written in it, restores the database but for the handle counter |
| Database.BeginWriteCommit | src/core/shared/infra/repository/sequelize/unit-of-work-sequelize.ts:42-48 | begin, write and commit commits exactly the writes made |
| Work.RunSteps | src/core/shared/infra/repository/sequelize/unit-of-work-sequelize.ts:45 | the work's writes before its first exception go, in order, into the given transaction (or the committed rows when there is none); its aggregates are added; it ends with its first exception, if any |
| UnitOfWorkSequelize.New | src/core/shared/infra/repository/sequelize/unit-of-work-sequelize.ts:5-8 | a new unit of work has no transaction and no aggregates |
| UnitOfWorkSequelize.Start | src/core/shared/infra/repository/sequelize/unit-of-work-sequelize.ts:11-15 | a transaction is begun only when none is active; an active one is kept as is |
| UnitOfWorkSequelize.StartIdempotent | src/core/shared/infra/repository/sequelize/unit-of-work-sequelize.ts:11-15 | a second start keeps the transaction of the first |
| UnitOfWorkSequelize.ValidateTransaction | src/core/shared/infra/repository/sequelize/unit-of-work-sequelize.ts:58-62 | passes iff a transaction is active, else fails with "No transaction started" |
| UnitOfWorkSequelize.Commit | src/core/shared/infra/repository/sequelize/unit-of-work-sequelize.ts:16-21 | without a transaction it fails with "No transaction started"; otherwise the transaction's writes are committed and the handle becomes null; aggregates are kept |
| UnitOfWorkSequelize.Rollback | src/core/shared/infra/repository/sequelize/unit-of-work-sequelize.ts:22-27 | without a transaction it fails with "No transaction started"; otherwise the writes are dropped, committed rows are unchanged, and the handle becomes null |
| UnitOfWorkSequelize.GetTransaction | src/core/shared/infra/repository/sequelize/unit-of-work-sequelize.ts:28-30 | there is a handle iff the transaction validates, and it is the one `start` keeps |
| UnitOfWorkSequelize.Do | src/core/shared/infra/repository/sequelize/unit-of-work-sequelize.ts:32-56 | the handle is null afterwards on every path; aggregates are only ever added; a success returns the work's result |
| UnitOfWorkSequelize.DoInherited | src/core/shared/infra/repository/sequelize/unit-of-work-sequelize.ts:35-55 | inside an active transaction the work's writes join it and nothing is committed; it succeeds iff the work throws nothing; on failure the work's own error is reported and the transaction is rolled back |
| UnitOfWorkSequelize.StartDoCommitFails | src/core/shared/infra/repository/sequelize/unit-of-work-sequelize.ts:11-40 | after `start()` and a successful `do`, `commit()` throws "No transaction started", and the transaction begun by `start` stays open holding the work's writes, none committed |
| UnitOfWorkSequelize.DoAuto | src/core/shared/infra/repository/sequelize/unit-of-work-sequelize.ts:42-48 | without an active transaction, success commits exactly the work's writes, and failure leaves the committed rows as they were and reports the work's error; no transaction is left open |
| UnitOfWorkSequelize.DeleteThenFailKeepsRow | src/core/genre/application/use-cases/delete-genre/__tests__/delete-genre.use-case.int-spec.ts:54-78 | a delete followed by an exception in `do` leaves the genre's row in place and rethrows "Generic Error" |
| UnitOfWorkSequelize.AddAggregateRoot | src/core/shared/infra/repository/sequelize/unit-of-work-sequelize.ts:64-66 | set semantics in first-insertion order: a present aggregate changes nothing, a new one goes last |
| UnitOfWorkSequelize.LifecycleKeepsAggregates | src/core/shared/infra/repository/sequelize/unit-of-work-sequelize.ts:64-69 | start, commit and rollback keep every tracked aggregate |
| FakeUnitOfWork.Start | src/core/shared/infra/repository/fake-unit-of-work-in-memory.ts:9-11 | succeeds and changes nothing |
| FakeUnitOfWork.Commit | src/core/shared/infra/repository/fake-unit-of-work-in-memory.ts:13-15 | succeeds and changes nothing |
| FakeUnitOfWork.Rollback | src/core/shared/infra/repository/fake-unit-of-work-in-memory.ts:17-19 | succeeds and changes nothing |
| FakeUnitOfWork.GetTransaction | src/core/shared/infra/repository/fake-unit-of-work-in-memory.ts:25-27 | there is never a handle |
| FakeUnitOfWork.Do | src/core/shared/infra/repository/fake-unit-of-work-in-memory.ts:21-23 | the work runs once, with no transaction, and its result or error is passed on unchanged |
| FakeUnitOfWork.DoWritesDirectly | src/core/shared/infra/repository/fake-unit-of-work-in-memory.ts:21-23 | the work's writes before its exception stay committed, and its first exception is the error reported |
| FakeUnitOfWork.AddAggregateRoot | src/core/shared/infra/repository/fake-unit-of-work-in-memory.ts:29-31 | set semantics in first-insertion order |
| FakeUnitOfWork.AddTwiceTracksOnce | src/core/shared/infra/repository/fake-unit-of-work-in-memory.ts:29-34 | adding the same aggregate twice tracks it once |
| InMemoryRepository.FindIndex | src/core/shared/infra/repository/in-memory.repository.ts:30-32 | the index of the first entity with that id, or none iff no entity has it |
| InMemoryRepository.Insert | src/core/shared/infra/repository/in-memory.repository.ts:19-22 | one entity is appended and the earlier ones are kept |
| InMemoryRepository.BulkInsert | src/core/shared/infra/repository/in-memory.repository.ts:24-27 | the entities are appended in order after the earlier ones |
| InMemoryRepository.BulkInsertIsRepeatedInsert | src/core/shared/infra/repository/in-memory.repository.ts:19-27 | a bulk insert is an insert of the first entity, then a bulk insert of the rest |
| InMemoryRepository.Update | src/core/shared/infra/repository/in-memory.repository.ts:29-39 | fails with `NotFoundError` iff no entity has the id; otherwise exactly the first such entity is replaced and the length is kept |
| InMemoryRepository.Delete | src/core/shared/infra/repository/in-memory.repository.ts:41-51 | fails with `NotFoundError` iff no entity has the id; otherwise exactly the first such entity is cut out |
| InMemoryRepository.FindById | src/core/shared/infra/repository/in-memory.repository.ts:53-55 | null iff no entity has the id; otherwise the first one that does |
| InMemoryRepository.InsertThenFind | src/core/shared/infra/repository/in-memory.repository.ts:19-39 | an inserted entity with a new id is what `findById` finds, and after `update` `findById` finds the new version |
| InMemoryRepository.FilterMembers | src/core/shared/infra/repository/in-memory.repository.ts:64-66 | filtering keeps exactly the entities that pass |
| InMemoryRepository.FilterStoredOrder | src/core/shared/infra/repository/in-memory.repository.ts:64-66 | a filter picks exactly the positions whose entity passes, in increasing order, so it keeps stored order |
| InMemoryRepository.FilterAppend | src/core/shared/infra/repository/in-memory.repository.ts:64-66 | filtering preserves order: it distributes over concatenation |
| InMemoryRepository.FindByIds | src/core/shared/infra/repository/in-memory.repository.ts:61-68 | holds exactly the stored entities whose id is asked for, and never more entries than are stored |
| InMemoryRepository.FindByIdsStoredOrder | src/core/shared/infra/repository/in-memory.repository.ts:61-68 | the result is the entities at exactly the stored positions whose id is asked for, taken in increasing position order |
| InMemoryRepository.FindByIdsIgnoresRepeats | src/core/shared/infra/repository/in-memory.repository.ts:61-68 | only which ids are asked for matters, not their order or repeats |
| InMemoryRepository.Partition | src/core/shared/infra/repository/in-memory.repository.ts:88-92 | an id is listed iff it is asked for and found (or not found) |
| InMemoryRepository.ExistsById | src/core/shared/infra/repository/in-memory.repository.ts:70-97 | no ids fails with `InvalidArgumentError`; an empty store reports every id, repeats included, as missing; otherwise each id appears once, in order of first mention, among the found iff an entity has it and among the missing iff none has |
| InMemoryRepository.SliceIndex | src/core/shared/infra/repository/in-memory.repository.ts:150 | a slice index is clamped to the array; a non-negative one is kept when inside it |
| InMemoryRepository.Slice | src/core/shared/infra/repository/in-memory.repository.ts:150 | the slice between the two clamped indices, empty when they cross |
| InMemoryRepository.PageStart | src/core/shared/infra/repository/in-memory.repository.ts:148 | a page starts per_page positions before the next one does, and page 1 starts at 0 |
| InMemoryRepository.ApplyPaginate | src/core/shared/infra/repository/in-memory.repository.ts:143-151 | the page is positions [(page-1)·per_page, page·per_page) cut at the end, at most per_page items, and empty past the end |
| InMemoryRepository.PaginateKeepsMembers | src/core/shared/infra/repository/in-memory.repository.ts:143-151 | a page holds only items of the list |
| InMemoryRepository.PagesCover | src/core/shared/infra/repository/in-memory.repository.ts:143-151 | the first n pages in order are exactly the items before the start of page n+1 (n·per_page), so nothing is skipped or repeated |
| InMemoryRepository.AllPagesAreAllItems | src/core/shared/infra/repository/in-memory.repository.ts:143-151 | pages 1 to the last page give back every item |
| InMemoryRepository.NewSearchResult | src/core/shared/infra/repository/in-memory.repository.ts:130-135 | the result carries the page, total, page number and size given |
| InMemoryRepository.ApplySort | src/core/shared/infra/repository/in-memory.repository.ts:153-171 | a missing, empty or unsortable field returns the items unchanged; otherwise a permutation sorted by that field, ascending only for asc |
| InMemoryRepository.Search | src/core/shared/infra/repository/in-memory.repository.ts:117-136 | the total counts the filtered items before pagination; the items are the requested page of the sorted filtered items |
| Sorting.SortBy | src/core/shared/infra/repository/in-memory.repository.ts:161-170 | the sorted copy is a permutation of the input in which no item is followed by one that strictly precedes it |
| Sorting.SortBySorted | src/core/shared/infra/repository/in-memory.repository.ts:161-170 | a list already in order is returned as it is |
| Sorting.SortByIdempotent | src/core/shared/infra/repository/in-memory.repository.ts:161-170 | sorting twice is sorting once |
| Sorting.NotPrecedesTransitive | src/core/shared/infra/repository/in-memory.repository.ts:165-167 | the comparator's "not after" relation is transitive in both directions |
| CategoryInMemoryRepository.ApplyFilter | src/core/category/infra/repository/in-memory/category-in-memory.repository.ts:16-29 | a null or empty filter returns the items unchanged |
| CategoryInMemoryRepository.ApplyFilterKeepsMatching | src/core/category/infra/repository/in-memory/category-in-memory.repository.ts:24-28 | the filter keeps exactly the stored categories whose lower-cased name contains the lower-cased filter |
| CategoryInMemoryRepository.ApplyFilterAppend | src/core/category/infra/repository/in-memory/category-in-memory.repository.ts:24-28 | filtering preserves stored order |
| CategoryInMemoryRepository.ApplyFilterIgnoresCase | src/core/category/infra/repository/in-memory/category-in-memory.repository.ts:26 | the case of the filter text does not matter |
| CategoryInMemoryRepository.ApplySort | src/core/category/infra/repository/in-memory/category-in-memory.repository.ts:35-44 | a permutation of the input; with no sort, ordered by creation time, newest first; by name or creation time in the given direction; an unsortable field keeps the original order |
| CategoryInMemoryRepository.CreatedAtOrder | src/core/category/infra/repository/in-memory/category-in-memory.repository.ts:35-44 | a list sorted on the creation-time field is ordered by creation time, non-decreasing ascending and non-increasing otherwise |
| CategoryInMemoryRepository.NameOrder | src/core/category/infra/repository/in-memory/category-in-memory.repository.ts:35-44 | a list sorted on the name field never has a name strictly out of order for the direction |
| CategoryInMemoryRepository.ApplySortSameMembers | src/core/category/infra/repository/in-memory/category-in-memory.repository.ts:35-44 | sorting neither adds nor drops a category |
| CategoryInMemoryRepository.Search | src/core/category/infra/repository/in-memory/category-in-memory.repository.ts:10-14 | the total counts the categories matching the filter; at most a page of them is returned |
| CategoryInMemoryRepository.SearchReturnsMatching | src/core/category/infra/repository/in-memory/category-in-memory.repository.ts:16-29 | every category on a page is stored and matches the filter |
| CategoryInMemoryRepository.SearchPagesCoverMatching | src/core/shared/infra/repository/in-memory.repository.ts:117-136 | reading every page in order yields each matching category exactly once |
| InMemoryStorage.New | src/core/shared/infra/storage/in-memory.storage.ts:4-5 | a new storage holds nothing |
| InMemoryStorage.Store | src/core/shared/infra/storage/in-memory.storage.ts:7-17 | the object is held under its id, replacing any earlier one; every other id is unchanged |
| InMemoryStorage.NotFoundMessage | src/core/shared/infra/storage/in-memory.storage.ts:22 | the message is "File ", the id, " not found", and the id can be read back from it |
| InMemoryStorage.Get | src/core/shared/infra/storage/in-memory.storage.ts:18-26 | the object stored under the id, or the not-found error iff there is none |
| InMemoryStorage.StoreThenGet | src/core/shared/infra/storage/in-memory.storage.ts:7-26 | what was stored is what `get` returns, and a later store under the same id wins |
| InMemoryStorage.StoreKeepsOthers | src/core/shared/infra/storage/in-memory.storage.ts:12-15 | storing one object leaves `get` of every other id unchanged |
| InMemoryStorage.NewFindsNothing | src/core/shared/infra/storage/in-memory.storage.ts:18-23 | an empty storage answers every id with the not-found error |
| PaginationOutputMapper.ToOutput | src/core/shared/application/pagination-output.ts:12-24 | the items pass through and the four numbers are copied unchanged |
| PaginationOutputMapper.ToOutputRoundTrip | src/core/shared/application/pagination-output.ts:3-9 | an output is exactly its items and its four numbers: taking it apart and mapping back gives it back |
| PaginationOutputMapper.ToOutputOfSearchResult | src/core/shared/application/pagination-output.ts:12-24 | mapping a search result keeps its page and all four numbers |

## Left out

- NestJS modules, providers, controllers, presenters, DTOs and the message broker: framework wiring without behaviour of the core's own.
- The sha256 digest of the raw name, `Math.random()` and `Date.now()`: the digest is a caller-supplied string. Fresh uuids and `new Date()` are likewise parameters (`fresh_id`, `now`), and dates are integer timestamps.
- The entity validators and their notification objects: these sources are not part of this model, and `validate` is taken to accept everything.
- The aggregate-root base class, `Either`, `Uuid`, `SearchParams` and `SearchResult`: these sources are not part of this model. They are reduced to the surface their callers use.
- Video `changeTitle`, `changeDescription`, `changeRating`, `changeYearLaunched`, `changeDuration`, `toJSON`, `entity_id` and `fake`: plain field assignments, or serialisation of value objects whose classes are not part of this model.
- Genre `changeName`, `validate` and `fake`, and the Genre's aggregate-root part: no genre event exists.
- The work passed to `do` is a script of writes, deletes, aggregate registrations and an exception. Work that itself calls `start`, `commit` or `rollback` on the unit of work is not modelled.
- Asynchrony: every `await` is a sequential step. The un-awaited rollback of an inherited transaction is taken to complete before `do` returns. A commit error in the managed transaction is reported as the transaction-finished error.
- Video.ReplaceTrailer: stated for videos that satisfy `Video.Valid`, the representation invariant that every constructed video keeps; malformed records are not considered.
- Video.ReplaceVideo: stated for videos that satisfy `Video.Valid`, for the same reason.
- InMemoryRepository.ExistsById: uses value equality of ids. The source's `Set` compares id objects by identity, so two equal ids given as different objects would be reported twice there.
- InMemoryRepository.NewSearchResult: `last_page` is taken to be the total divided by the page size, rounded up. The class that computes it is not part of this model.
- InMemoryRepository.ApplyPaginate: page and page size are positive integers, as search parameters normalise them. Zero, negative and fractional values are not modelled.
- InMemoryRepository.ApplySort: the sort is stated as a sorted permutation; the stability of the engine's sort (equal keys keep their order) is not stated. A string value is ordered after every number; JavaScript's mixed-type `<` is not modelled, and the sortable fields never mix types.
- CategoryInMemoryRepository.ApplyFilter: `toLowerCase` is modelled on ASCII letters only; Unicode case mapping is not modelled.
- DomainEvents.GetIntegrationEvent: the event classes are not part of this model, so which events translate and into what is assumed. `VideoCreatedEvent` is taken to have no `getIntegrationEvent`. A media-replaced event is taken to translate into a `VideoAudioMediaUploadedIntegrationEvent` that carries the domain event as its payload. A translation's `event_name` is taken to be its class name, which is what `publishIntegrationEvents` emits under.
- DomainEventMediator.Publish: which listener rejects which emission is an oracle parameter. Listener side effects and the concurrency of `emitAsync` are not modelled. The model makes the emissions first and then marks the emitted events dispatched; the source interleaves the two, which gives the same marks and emissions because no emission reads the marks.
- CategoryInMemoryRepository.ApplySort: names are compared by Unicode code point (`Strings.StrLess`), while JavaScript's `<` compares UTF-16 code units. The two orders differ only when a character above U+FFFF meets one in U+E000 to U+FFFF.
- MediaFileValidator.Validate: the size is an integer number of bytes. Fractional, infinite and NaN sizes, which a JavaScript `number` allows, are not modelled.
- Database.Begin: beginning a transaction always succeeds. A rejected `sequelize.transaction()` in `start` or `do` is not modelled.
