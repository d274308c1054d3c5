/** The media value objects a video holds. The base classes (audio/video media
    with an encoding status, and image media with a location) are not part of
    this model; they are reduced to the fields the video code reads. */
module Media {
  import opened Wrappers

  datatype AudioVideoMediaStatus = PENDING | PROCESSING | COMPLETED | FAILED

  /** A trailer or a video file: its stored name, where the raw upload lives,
      where the encoded version lives (once known), and the encoding status. */
  datatype AudioVideoMedia = AudioVideoMedia(
    name: string,
    raw_location: string,
    encoded_location: Option<string>,
    status: AudioVideoMediaStatus)

  /** A banner, thumbnail or half thumbnail. */
  datatype ImageMedia = ImageMedia(name: string, location: string)
}

/** The trailer: a 500 MB mp4 upload whose encoding moves through a status
    machine. Every transition builds a new trailer and leaves the receiver as
    it was; none checks the current status. */
module Trailer {
  import opened Wrappers
  import opened Media
  import MediaFileValidator

  const MaxSize: int := 1024 * 1024 * 500
  const MimeTypes: seq<string> := ["video/mp4"]

  function Validator(): MediaFileValidator.MediaFileValidator {
    MediaFileValidator.MediaFileValidator(MaxSize, MimeTypes)
  }

  /** `Trailer.create({name, raw_location})`: a pending trailer not yet encoded. */
  function Create(name: string, raw_location: string): (t: AudioVideoMedia)
    ensures t.status == PENDING && t.encoded_location.None?
    ensures t.name == name && t.raw_location == raw_location
  {
    AudioVideoMedia(name, raw_location, None, PENDING)
  }

  /** `createFromFile`: validates the upload and, when it is accepted, names the
      trailer after the video and the validated name, under the video's
      `videos` folder. A rejection comes back as the failure side of
      `Either.safe`. */
  function CreateFromFile(raw_name: string, mime_type: string, size: int, video_id: string, digest: string)
    : (r: Result<AudioVideoMedia, MediaFileValidator.MediaFileError>)
    ensures r.Success? <==> size <= 524288000 && mime_type == "video/mp4"
    ensures var v := MediaFileValidator.Validate(Validator(), raw_name, mime_type, size, digest);
            && (r.Failure? ==> v.Failure? && r.error == v.error)
            && (r.Success? ==> v.Success? && r.value.name == video_id + "-" + v.value)
    ensures r.Success? ==> r.value.raw_location == "videos/" + video_id + "/videos"
    ensures r.Success? ==> r.value.status == PENDING && r.value.encoded_location.None?
  {
    var name :- MediaFileValidator.Validate(Validator(), raw_name, mime_type, size, digest);
    Success(Create(video_id + "-" + name, "videos/" + video_id + "/videos"))
  }

  /** `process()`: now encoding. */
  function Process(t: AudioVideoMedia): (r: AudioVideoMedia)
    ensures r.status == PROCESSING
    ensures r.name == t.name && r.raw_location == t.raw_location
    ensures r.encoded_location == t.encoded_location
  {
    AudioVideoMedia(t.name, t.raw_location, t.encoded_location, PROCESSING)
  }

  /** `complete(encoded_location)`: encoded, and where to. */
  function Complete(t: AudioVideoMedia, encoded_location: string): (r: AudioVideoMedia)
    ensures r.status == COMPLETED
    ensures r.name == t.name && r.raw_location == t.raw_location
    ensures r.encoded_location == Some(encoded_location)
  {
    AudioVideoMedia(t.name, t.raw_location, Some(encoded_location), COMPLETED)
  }

  /** `fail()`: encoding failed. */
  function Fail(t: AudioVideoMedia): (r: AudioVideoMedia)
    ensures r.status == FAILED
    ensures r.name == t.name && r.raw_location == t.raw_location
    ensures r.encoded_location == t.encoded_location
  {
    AudioVideoMedia(t.name, t.raw_location, t.encoded_location, FAILED)
  }

  /** One of the three transitions. */
  datatype Transition = ToProcessing | ToCompleted(encoded_location: string) | ToFailed

  function Step(t: AudioVideoMedia, s: Transition): AudioVideoMedia {
    match s
    case ToProcessing => Process(t)
    case ToCompleted(loc) => Complete(t, loc)
    case ToFailed => Fail(t)
  }

  function Run(t: AudioVideoMedia, steps: seq<Transition>): AudioVideoMedia
    decreases |steps|
  {
    if |steps| == 0 then t else Run(Step(t, steps[0]), steps[1..])
  }

  /** The status after a transition. */
  function Target(s: Transition): AudioVideoMediaStatus {
    match s
    case ToProcessing => PROCESSING
    case ToCompleted(_) => COMPLETED
    case ToFailed => FAILED
  }

  /** The encoded location after the last `complete`, if any. */
  function LastEncoding(start: Option<string>, steps: seq<Transition>): Option<string>
    decreases |steps|
  {
    if |steps| == 0 then start
    else if steps[|steps| - 1].ToCompleted? then Some(steps[|steps| - 1].encoded_location)
    else LastEncoding(start, steps[..|steps| - 1])
  }

  /** Whatever transitions are taken, in whatever order, the trailer keeps its
      name and raw location; its status is the one the last transition set,
      and its encoded location is the one the last `complete` gave (or the
      original one when no `complete` happened). */
  lemma {:induction false} RunPreservesIdentity(t: AudioVideoMedia, steps: seq<Transition>)
    ensures Run(t, steps).name == t.name
    ensures Run(t, steps).raw_location == t.raw_location
    ensures |steps| > 0 ==> Run(t, steps).status == Target(steps[|steps| - 1])
    ensures |steps| == 0 ==> Run(t, steps) == t
    ensures Run(t, steps).encoded_location == LastEncoding(t.encoded_location, steps)
    decreases |steps|
  {
    if |steps| > 0 {
      var t' := Step(t, steps[0]);
      RunPreservesIdentity(t', steps[1..]);
      LastEncodingShift(t.encoded_location, steps);
    }
  }

  /** Peeling the first transition off the front of `LastEncoding`. */
  lemma {:induction false} LastEncodingShift(start: Option<string>, steps: seq<Transition>)
    requires |steps| > 0
    ensures LastEncoding(Step(AudioVideoMedia("", "", start, PENDING), steps[0]).encoded_location, steps[1..])
            == LastEncoding(start, steps)
    decreases |steps|
  {
    if |steps| > 1 {
      LastEncodingShift(start, steps[..|steps| - 1]);
      assert steps[1..][..|steps| - 2] == steps[..|steps| - 1][1..];
    }
  }
}

/** The thumbnail: a 2 MB jpeg, png or gif image stored under the video's
    `images` folder. */
module Thumbnail {
  import opened Wrappers
  import opened Media
  import MediaFileValidator

  const MaxSize: int := 1024 * 1024 * 2
  const MimeTypes: seq<string> := ["image/jpeg", "image/png", "image/gif"]

  function Validator(): MediaFileValidator.MediaFileValidator {
    MediaFileValidator.MediaFileValidator(MaxSize, MimeTypes)
  }

  /** `createFromFile`: validates the upload; an accepted image keeps the
      validated name as it is (no video id in front) and lives under
      `videos/<video_id>/images`. */
  function CreateFromFile(raw_name: string, mime_type: string, size: int, video_id: string, digest: string)
    : (r: Result<ImageMedia, MediaFileValidator.MediaFileError>)
    ensures r.Success? <==> size <= 2097152 && (mime_type == "image/jpeg" || mime_type == "image/png" || mime_type == "image/gif")
    ensures var v := MediaFileValidator.Validate(Validator(), raw_name, mime_type, size, digest);
            && (r.Failure? ==> v.Failure? && r.error == v.error)
            && (r.Success? ==> v.Success? && r.value.name == v.value)
    ensures r.Success? ==> r.value.location == "videos/" + video_id + "/images"
  {
    AcceptedMimeTypes(mime_type);
    var name :- MediaFileValidator.Validate(Validator(), raw_name, mime_type, size, digest);
    Success(ImageMedia(name, "videos/" + video_id + "/images"))
  }

  /** The accepted mime types, one by one. */
  lemma AcceptedMimeTypes(mime_type: string)
    ensures mime_type in MimeTypes <==> mime_type == "image/jpeg" || mime_type == "image/png" || mime_type == "image/gif"
    ensures MaxSize == 2097152
  {
  }
}
