/** Domain events and their integration translations, as a closed set of event
    kinds. An event is emitted under its class name; a translation, when the
    event class offers one, carries the domain event's version and time and
    the domain event itself as payload. */
module DomainEvents {
  import opened Wrappers
  import opened Media

  /** Which audio/video slot of a video was replaced. */
  datatype MediaKind = TrailerSlot | VideoSlot

  /** The `media_type` string carried by the replacement event. */
  function MediaTypeName(k: MediaKind): (s: string)
    ensures s == "trailer" || s == "video"
    ensures (s == "trailer") <==> k.TrailerSlot?
  {
    match k
    case TrailerSlot => "trailer"
    case VideoSlot => "video"
  }

  /** The state of a video when it was created, as `VideoCreatedEvent`
      captures it (id maps as lists, in map order). */
  datatype VideoSnapshot = VideoSnapshot(
    video_id: string,
    title: string,
    description: string,
    year_launched: int,
    duration: int,
    rating: string,
    is_opened: bool,
    is_published: bool,
    banner: Option<ImageMedia>,
    thumbnail: Option<ImageMedia>,
    thumbnail_half: Option<ImageMedia>,
    trailer: Option<AudioVideoMedia>,
    video: Option<AudioVideoMedia>,
    categories_id: seq<string>,
    genres_id: seq<string>,
    cast_members_id: seq<string>,
    created_at: int)

  /** The domain events. `StubEvent` is the event kind the mediator's own tests
      use; its `has_translation` is false when the instance's
      `getIntegrationEvent` has been removed. */
  datatype DomainEvent =
    | VideoCreatedEvent(snapshot: VideoSnapshot, occurred_on: int)
    | VideoAudioMediaReplaced(aggregate_id: string, media: AudioVideoMedia, media_type: MediaKind, occurred_on: int)
    | StubEvent(aggregate_id: string, name: string, occurred_on: int, has_translation: bool)
  {
    /** Every domain event in the current code has version 1. */
    function EventVersion(): int {
      1
    }

    /** `event.constructor.name`: the name the event is emitted under. */
    function Name(): string {
      match this
      case VideoCreatedEvent(_, _) => "VideoCreatedEvent"
      case VideoAudioMediaReplaced(_, _, _, _) => "VideoAudioMediaReplaced"
      case StubEvent(_, _, _, _) => "StubEvent"
    }
  }

  /** Each kind of event has a name of its own. */
  lemma NameIdentifiesKind(e: DomainEvent)
    ensures e.VideoCreatedEvent? <==> e.Name() == "VideoCreatedEvent"
    ensures e.VideoAudioMediaReplaced? <==> e.Name() == "VideoAudioMediaReplaced"
    ensures e.StubEvent? <==> e.Name() == "StubEvent"
  {
  }

  /** An integration event: what is handed to the message broker. */
  datatype IntegrationEvent = IntegrationEvent(
    event_name: string,
    event_version: int,
    occurred_on: int,
    payload: DomainEvent)

  /** `event.getIntegrationEvent?.()`, with "no such method" and "a falsy
      result" both as `None`. */
  function GetIntegrationEvent(e: DomainEvent): (r: Option<IntegrationEvent>)
    ensures r.Some? ==> r.value.payload == e
    ensures r.Some? ==> r.value.event_version == e.EventVersion()
    ensures r.Some? ==> r.value.occurred_on == e.occurred_on
    ensures r.Some? <==> e.VideoAudioMediaReplaced? || (e.StubEvent? && e.has_translation)
  {
    match e
    case VideoCreatedEvent(_, _) => None
    case VideoAudioMediaReplaced(_, _, _, t) =>
      Some(IntegrationEvent("VideoAudioMediaUploadedIntegrationEvent", e.EventVersion(), t, e))
    case StubEvent(_, _, t, translated) =>
      if translated then Some(IntegrationEvent("StubIntegrationEvent", e.EventVersion(), t, e)) else None
  }
}
