/** The video aggregate: catalogue data, five media slots, three id maps and
    the derived `is_published` flag, which the aggregate's own event handlers
    keep up to date. The id maps are `Map<string, Id>` keyed by the id's own
    string, so each is modelled by its key list (module OrderedSet). The
    entity validator is not part of this model and accepts every video. */
module Video {
  import opened Wrappers
  import opened Media
  import opened DomainEvents
  import opened AggregateRoot
  import opened OrderedSet

  /** The two handlers the constructor registers; both run the same check. */
  datatype VideoHandler = OnVideoCreated | OnAudioVideoMediaReplaced

  datatype Video = Video(
    video_id: string,
    title: string,
    description: string,
    year_launched: int,
    duration: int,
    rating: string,
    is_opened: bool,
    is_published: bool,
    banner: Option<ImageMedia>,
    thumbnail: Option<ImageMedia>,
    thumbnail_half: Option<ImageMedia>,
    trailer: Option<AudioVideoMedia>,
    video: Option<AudioVideoMedia>,
    categories_id: seq<string>,
    genres_id: seq<string>,
    cast_members_id: seq<string>,
    created_at: int,
    root: Root<VideoHandler>)

  /** The handlers every video carries from its constructor on. */
  function StandardHandlers(): map<string, seq<VideoHandler>> {
    map["VideoCreatedEvent" := [OnVideoCreated], "VideoAudioMediaReplaced" := [OnAudioVideoMediaReplaced]]
  }

  /** What every video built by the constructor and changed by the operations
      below satisfies. */
  ghost predicate Valid(v: Video) {
    && v.root.Valid()
    && v.root.handlers == StandardHandlers()
    && NoDup(v.categories_id) && NoDup(v.genres_id) && NoDup(v.cast_members_id)
  }

  /** The constructor's arguments; an absent optional one is `None`. */
  datatype VideoProps = VideoProps(
    video_id: Option<string>,
    title: string,
    description: string,
    year_launched: int,
    duration: int,
    rating: string,
    is_opened: Option<bool>,
    is_published: Option<bool>,
    banner: Option<ImageMedia>,
    thumbnail: Option<ImageMedia>,
    thumbnail_half: Option<ImageMedia>,
    trailer: Option<AudioVideoMedia>,
    video: Option<AudioVideoMedia>,
    categories_id: seq<string>,
    genres_id: seq<string>,
    cast_members_id: seq<string>,
    created_at: Option<int>)

  /** `new Video(props)`: absent id and creation time come from `fresh_id` and
      `now`, absent flags are false, absent media are null, and both handlers
      are registered before any event exists. */
  function New(props: VideoProps, fresh_id: string, now: int): (v: Video)
    ensures v.video_id == props.video_id.GetOr(fresh_id)
    ensures v.created_at == props.created_at.GetOr(now)
    ensures v.title == props.title && v.description == props.description && v.rating == props.rating
    ensures v.year_launched == props.year_launched && v.duration == props.duration
    ensures v.is_opened == (props.is_opened == Some(true))
    ensures v.is_published == (props.is_published == Some(true))
    ensures v.banner == props.banner && v.thumbnail == props.thumbnail && v.thumbnail_half == props.thumbnail_half
    ensures v.trailer == props.trailer && v.video == props.video
    ensures v.categories_id == props.categories_id && v.genres_id == props.genres_id
    ensures v.cast_members_id == props.cast_members_id
    ensures v.root.events == [] && v.root.handlers == StandardHandlers()
    ensures NoDup(props.categories_id) && NoDup(props.genres_id) && NoDup(props.cast_members_id) ==> Valid(v)
  {
    var empty := Empty<VideoHandler>();
    var created := RegisterHandler(empty, "VideoCreatedEvent", OnVideoCreated);
    var root := RegisterHandler(created, "VideoAudioMediaReplaced", OnAudioVideoMediaReplaced);
    assert HandlersFor(empty, "VideoCreatedEvent") == [];
    assert created == empty.(handlers := empty.handlers["VideoCreatedEvent" := [] + [OnVideoCreated]]);
    assert [] + [OnVideoCreated] == [OnVideoCreated];
    assert created.handlers == map["VideoCreatedEvent" := [OnVideoCreated]];
    assert HandlersFor(created, "VideoAudioMediaReplaced") == [];
    assert root == created.(handlers := created.handlers["VideoAudioMediaReplaced" := [] + [OnAudioVideoMediaReplaced]]);
    assert [] + [OnAudioVideoMediaReplaced] == [OnAudioVideoMediaReplaced];
    assert root.handlers == StandardHandlers();
    Video(
      props.video_id.GetOr(fresh_id), props.title, props.description,
      props.year_launched, props.duration, props.rating,
      props.is_opened.GetOr(false), props.is_published.GetOr(false),
      props.banner, props.thumbnail, props.thumbnail_half, props.trailer, props.video,
      props.categories_id, props.genres_id, props.cast_members_id,
      props.created_at.GetOr(now), root)
  }

  /** Both the trailer and the video are present and fully encoded. */
  predicate ReadyToPublish(trailer: Option<AudioVideoMedia>, video: Option<AudioVideoMedia>) {
    && trailer.Some? && video.Some?
    && trailer.value.status == COMPLETED && video.value.status == COMPLETED
  }

  /** `tryMarkAsPublished()`: the flag is recomputed from the two media alone,
      and may go from true to false. */
  function TryMarkAsPublished(v: Video): (r: Video)
    ensures r.is_published <==> ReadyToPublish(v.trailer, v.video)
    ensures r.(is_published := v.is_published) == v
  {
    v.(is_published := ReadyToPublish(v.trailer, v.video))
  }

  /** `onVideoCreated` / `onAudioVideoMediaReplaced`: a published video stays
      as it is; otherwise publication is tried. Neither looks at the event. */
  function Handle(v: Video, h: VideoHandler): (r: Video)
    ensures r.is_published == (v.is_published || ReadyToPublish(v.trailer, v.video))
    ensures r.(is_published := v.is_published) == v
  {
    match h
    case OnVideoCreated => if v.is_published then v else TryMarkAsPublished(v)
    case OnAudioVideoMediaReplaced => if v.is_published then v else TryMarkAsPublished(v)
  }

  /** The handlers registered for an event, run in registration order. */
  function RunHandlers(v: Video, hs: seq<VideoHandler>): (r: Video)
    ensures r.is_published == (v.is_published || (|hs| > 0 && ReadyToPublish(v.trailer, v.video)))
    ensures r.(is_published := v.is_published) == v
    decreases |hs|
  {
    if |hs| == 0 then v else RunHandlers(Handle(v, hs[0]), hs[1..])
  }

  /** Whether a video has a handler for this kind of event. */
  predicate Handled(e: DomainEvent) {
    e.VideoCreatedEvent? || e.VideoAudioMediaReplaced?
  }

  /** `applyEvent(event)`: the event is logged as pending, then the handlers
      registered under its name run. */
  function ApplyEvent(v: Video, e: DomainEvent): (r: Video)
    requires v.root.Valid()
    ensures r.root.Valid() && r.root.handlers == v.root.handlers
    ensures r.root.events == v.root.events + [e] && r.root.dispatched == v.root.dispatched
    ensures GetUncommittedEvents(r.root) == GetUncommittedEvents(v.root) + [e]
    ensures r.(root := v.root, is_published := v.is_published) == v
    ensures v.root.handlers == StandardHandlers() ==>
              r.is_published == (v.is_published || (Handled(e) && ReadyToPublish(v.trailer, v.video)))
  {
    var logged := v.(root := Record(v.root, e));
    NameIdentifiesKind(e);
    RunHandlers(logged, HandlersFor(v.root, e.Name()))
  }

  /** The arguments of `Video.create`. */
  datatype VideoCreateCommand = VideoCreateCommand(
    title: string,
    description: string,
    year_launched: int,
    duration: int,
    rating: string,
    is_opened: bool,
    banner: Option<ImageMedia>,
    thumbnail: Option<ImageMedia>,
    thumbnail_half: Option<ImageMedia>,
    trailer: Option<AudioVideoMedia>,
    video: Option<AudioVideoMedia>,
    categories_id: seq<string>,
    genres_id: seq<string>,
    cast_members_id: seq<string>)

  /** The state `VideoCreatedEvent` captures. */
  function Snapshot(v: Video): (s: VideoSnapshot)
    ensures s.video_id == v.video_id && s.is_published == v.is_published
    ensures s.categories_id == v.categories_id && s.genres_id == v.genres_id
    ensures s.cast_members_id == v.cast_members_id && s.created_at == v.created_at
    ensures s.is_opened == v.is_opened && s.title == v.title && s.description == v.description
    ensures s.year_launched == v.year_launched && s.duration == v.duration && s.rating == v.rating
    ensures s.banner == v.banner && s.thumbnail == v.thumbnail && s.thumbnail_half == v.thumbnail_half
    ensures s.trailer == v.trailer && s.video == v.video
  {
    VideoSnapshot(
      v.video_id, v.title, v.description, v.year_launched, v.duration, v.rating,
      v.is_opened, v.is_published, v.banner, v.thumbnail, v.thumbnail_half,
      v.trailer, v.video, v.categories_id, v.genres_id, v.cast_members_id, v.created_at)
  }

  /** `Video.create(command)`: the id lists become id maps (one entry per
      distinct id, first occurrence first), the video starts unpublished, and
      its `VideoCreatedEvent` is applied, which publishes it when the trailer
      and the video given are both already encoded. */
  function Create(cmd: VideoCreateCommand, fresh_id: string, now: int): (v: Video)
    ensures Valid(v)
    ensures v.video_id == fresh_id && v.created_at == now
    ensures v.categories_id == FromSeq(cmd.categories_id)
    ensures v.genres_id == FromSeq(cmd.genres_id)
    ensures v.cast_members_id == FromSeq(cmd.cast_members_id)
    ensures v.title == cmd.title && v.description == cmd.description && v.rating == cmd.rating
    ensures v.year_launched == cmd.year_launched && v.duration == cmd.duration
    ensures v.is_opened == cmd.is_opened
    ensures v.trailer == cmd.trailer && v.video == cmd.video && v.banner == cmd.banner
    ensures v.thumbnail == cmd.thumbnail && v.thumbnail_half == cmd.thumbnail_half
    ensures v.root.events == [VideoCreatedEvent(Snapshot(v.(is_published := false)), now)]
    ensures v.root.dispatched == {} && GetUncommittedEvents(v.root) == v.root.events
  {
    var props := VideoProps(
      None, cmd.title, cmd.description, cmd.year_launched, cmd.duration, cmd.rating,
      Some(cmd.is_opened), Some(false),
      cmd.banner, cmd.thumbnail, cmd.thumbnail_half, cmd.trailer, cmd.video,
      FromSeq(cmd.categories_id), FromSeq(cmd.genres_id), FromSeq(cmd.cast_members_id), None);
    var built := New(props, fresh_id, now);
    var r := ApplyEvent(built, VideoCreatedEvent(Snapshot(built), now));
    NothingDispatchedAllUncommitted(r.root);
    r
  }

  /** After `create`, the video is published exactly when the trailer and the
      video given are both present and COMPLETED. */
  lemma CreatePublishedIff(cmd: VideoCreateCommand, fresh_id: string, now: int)
    ensures Create(cmd, fresh_id, now).is_published <==> ReadyToPublish(cmd.trailer, cmd.video)
  {
  }

  /** Applying any event to a published video leaves it published. */
  lemma PublishedNeverReset(v: Video, e: DomainEvent)
    requires Valid(v) && v.is_published
    ensures ApplyEvent(v, e).is_published
  {
  }

  /** `replaceBanner`, `replaceThumbnail`, `replaceThumbnailHalf`: only the
      field changes and no event is raised. */
  function ReplaceBanner(v: Video, banner: ImageMedia): (r: Video)
    ensures r.banner == Some(banner) && r.(banner := v.banner) == v
  {
    v.(banner := Some(banner))
  }

  function ReplaceThumbnail(v: Video, thumbnail: ImageMedia): (r: Video)
    ensures r.thumbnail == Some(thumbnail) && r.(thumbnail := v.thumbnail) == v
  {
    v.(thumbnail := Some(thumbnail))
  }

  function ReplaceThumbnailHalf(v: Video, thumbnail_half: ImageMedia): (r: Video)
    ensures r.thumbnail_half == Some(thumbnail_half) && r.(thumbnail_half := v.thumbnail_half) == v
  {
    v.(thumbnail_half := Some(thumbnail_half))
  }

  /** `replaceTrailer(trailer)`: the trailer is stored first, then one
      `VideoAudioMediaReplaced` event of type "trailer" carrying it is applied;
      the video becomes published if it was, or if the new trailer and the
      current video are both encoded. */
  function ReplaceTrailer(v: Video, trailer: AudioVideoMedia, now: int): (r: Video)
    requires Valid(v)
    ensures Valid(r)
    ensures r.trailer == Some(trailer)
    ensures r.root.events == v.root.events + [VideoAudioMediaReplaced(v.video_id, trailer, TrailerSlot, now)]
    ensures GetUncommittedEvents(r.root) == GetUncommittedEvents(v.root) + [VideoAudioMediaReplaced(v.video_id, trailer, TrailerSlot, now)]
    ensures r.is_published == (v.is_published || ReadyToPublish(Some(trailer), v.video))
    ensures r.(trailer := v.trailer, is_published := v.is_published, root := v.root) == v
  {
    var stored := v.(trailer := Some(trailer));
    ApplyEvent(stored, VideoAudioMediaReplaced(v.video_id, trailer, TrailerSlot, now))
  }

  /** `replaceVideo(video)`: as `replaceTrailer`, for the video slot and with
      media type "video". */
  function ReplaceVideo(v: Video, video: AudioVideoMedia, now: int): (r: Video)
    requires Valid(v)
    ensures Valid(r)
    ensures r.video == Some(video)
    ensures r.root.events == v.root.events + [VideoAudioMediaReplaced(v.video_id, video, VideoSlot, now)]
    ensures GetUncommittedEvents(r.root) == GetUncommittedEvents(v.root) + [VideoAudioMediaReplaced(v.video_id, video, VideoSlot, now)]
    ensures r.is_published == (v.is_published || ReadyToPublish(v.trailer, Some(video)))
    ensures r.(video := v.video, is_published := v.is_published, root := v.root) == v
  {
    var stored := v.(video := Some(video));
    ApplyEvent(stored, VideoAudioMediaReplaced(v.video_id, video, VideoSlot, now))
  }

  /** An unpublished video without a video, whose trailer and then video are
      replaced by encoded ones, is published after the second replacement and
      not before, with one pending event per replacement. */
  lemma TrailerThenVideoPublishes(v: Video, trailer: AudioVideoMedia, video: AudioVideoMedia, now: int)
    requires Valid(v) && !v.is_published && v.video.None?
    requires trailer.status == COMPLETED && video.status == COMPLETED
    ensures var v1 := ReplaceTrailer(v, trailer, now);
            var v2 := ReplaceVideo(v1, video, now);
            && !v1.is_published && v2.is_published
            && GetUncommittedEvents(v2.root) == GetUncommittedEvents(v.root) + [
                 VideoAudioMediaReplaced(v.video_id, trailer, TrailerSlot, now),
                 VideoAudioMediaReplaced(v.video_id, video, VideoSlot, now)]
  {
    var et := VideoAudioMediaReplaced(v.video_id, trailer, TrailerSlot, now);
    var ev := VideoAudioMediaReplaced(v.video_id, video, VideoSlot, now);
    var v1 := ReplaceTrailer(v, trailer, now);
    assert !v1.is_published && v1.trailer == Some(trailer) && v1.video_id == v.video_id;
    assert GetUncommittedEvents(v1.root) == GetUncommittedEvents(v.root) + [et];
    var v2 := ReplaceVideo(v1, video, now);
    assert v2.is_published;
    assert GetUncommittedEvents(v2.root) == GetUncommittedEvents(v.root) + [et] + [ev];
  }

  /** A video created with pending media, whose trailer and then video are
      replaced by encoded ones, is published after the second replacement and
      not before, and has three pending events in order. */
  lemma PublishAfterBothEncoded(cmd: VideoCreateCommand, fresh_id: string, now: int,
                                trailer: AudioVideoMedia, video: AudioVideoMedia)
    requires cmd.video.None?
    requires trailer.status == COMPLETED && video.status == COMPLETED
    ensures var v0 := Create(cmd, fresh_id, now);
            var v1 := ReplaceTrailer(v0, trailer, now);
            var v2 := ReplaceVideo(v1, video, now);
            && !v0.is_published && !v1.is_published && v2.is_published
            && |v0.root.events| == 1
            && GetUncommittedEvents(v2.root) == v0.root.events + [
                 VideoAudioMediaReplaced(fresh_id, trailer, TrailerSlot, now),
                 VideoAudioMediaReplaced(fresh_id, video, VideoSlot, now)]
  {
    CreatePublishedIff(cmd, fresh_id, now);
    TrailerThenVideoPublishes(Create(cmd, fresh_id, now), trailer, video, now);
  }

  /** `markAsOpened` / `markAsNotOpened`: the flag is set whatever it was. */
  function MarkAsOpened(v: Video): (r: Video)
    ensures r.is_opened && r.(is_opened := v.is_opened) == v
  {
    v.(is_opened := true)
  }

  function MarkAsNotOpened(v: Video): (r: Video)
    ensures !r.is_opened && r.(is_opened := v.is_opened) == v
  {
    v.(is_opened := false)
  }

  /** The three id maps, which share their add/remove/sync code. */
  datatype IdMap = Categories | Genres | CastMembers

  function IdsOf(v: Video, which: IdMap): seq<string> {
    match which
    case Categories => v.categories_id
    case Genres => v.genres_id
    case CastMembers => v.cast_members_id
  }

  function WithIds(v: Video, which: IdMap, ids: seq<string>): (r: Video)
    ensures IdsOf(r, which) == ids
    ensures forall other :: other != which ==> IdsOf(r, other) == IdsOf(v, other)
    ensures r.root == v.root && r.is_published == v.is_published
  {
    match which
    case Categories => v.(categories_id := ids)
    case Genres => v.(genres_id := ids)
    case CastMembers => v.(cast_members_id := ids)
  }

  /** `addCategoryId` / `addGenreId` / `addCastMemberId`: `map.set(id.id, id)`. */
  function AddId(v: Video, which: IdMap, id: string): (r: Video)
    ensures Valid(v) ==> Valid(r)
    ensures forall x :: x in IdsOf(r, which) <==> x in IdsOf(v, which) || x == id
    ensures IdsOf(v, which) <= IdsOf(r, which)
    ensures id in IdsOf(v, which) ==> r == v
    ensures r == WithIds(v, which, IdsOf(r, which))
  {
    WithIds(v, which, Insert(IdsOf(v, which), id))
  }

  /** `removeCategoryId` / `removeGenreId` / `removeCastMemberId`:
      `map.delete(id.id)`. */
  function RemoveId(v: Video, which: IdMap, id: string): (r: Video)
    ensures Valid(v) ==> Valid(r)
    ensures forall x :: x in IdsOf(r, which) <==> x in IdsOf(v, which) && x != id
    ensures id !in IdsOf(v, which) ==> r == v
    ensures r == WithIds(v, which, IdsOf(r, which))
  {
    WithIds(v, which, Remove(IdsOf(v, which), id))
  }

  /** Adding the same id twice is adding it once. */
  lemma AddIdIdempotent(v: Video, which: IdMap, id: string)
    ensures AddId(AddId(v, which, id), which, id) == AddId(v, which, id)
  {
  }

  /** Removing an id that was just added to a map without it gives the map
      back. */
  lemma RemoveUndoesAdd(v: Video, which: IdMap, id: string)
    requires Valid(v) && id !in IdsOf(v, which)
    ensures RemoveId(AddId(v, which, id), which, id) == v
  {
    var ids := IdsOf(v, which);
    var k := RemoveCutsOut(ids + [id], id);
    assert k == |ids|;
    assert (ids + [id])[..k] == ids;
    assert WithIds(v, which, ids) == v;
  }

  /** The message the sync of each map throws on an empty list. */
  function EmptySyncMessage(which: IdMap): string {
    match which
    case Categories => "At least one category id is required"
    case Genres => "At least one genre id is required"
    case CastMembers => "At least one cast member id is required"
  }

  /** `syncCategoriesId` / `syncGenresId` / `syncCastMembersId`: an empty list
      throws before anything changes; otherwise the map is replaced by one
      entry per distinct id of the list, first occurrence first. */
  function SyncIds(v: Video, which: IdMap, ids: seq<string>): (r: Result<Video, string>)
    ensures r.Failure? <==> |ids| == 0
    ensures r.Failure? ==> r.error == EmptySyncMessage(which)
    ensures r.Success? ==> NoDup(IdsOf(r.value, which)) && r.value == WithIds(v, which, IdsOf(r.value, which))
    ensures r.Success? && Valid(v) ==> Valid(r.value)
    ensures r.Success? ==> forall x :: x in IdsOf(r.value, which) <==> x in ids
    ensures r.Success? && NoDup(ids) ==> IdsOf(r.value, which) == ids
    ensures r.Success? ==> forall i, j :: 0 <= i < j < |IdsOf(r.value, which)| ==>
              FirstIndex(ids, IdsOf(r.value, which)[i]) < FirstIndex(ids, IdsOf(r.value, which)[j])
  {
    if |ids| == 0 then Failure(EmptySyncMessage(which))
    else
      FromSeqNoDupIf(ids);
      FromSeqOrder(ids);
      Success(WithIds(v, which, FromSeq(ids)))
  }
}
