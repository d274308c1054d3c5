/** The media file validator shared by the video's image and audio/video value
    objects: a size bound, a mime-type whitelist, and the stored file name.
    The stored name is a sha256 digest of the raw name mixed with `Math.random()`
    and `Date.now()`; the digest is taken here as an arbitrary string supplied
    by the caller. */
module MediaFileValidator {
  import opened Wrappers
  import Strings

  /** The two errors `validate` throws. */
  datatype MediaFileError =
    | InvalidMediaFileSizeError(actual_size: int, max_size: int)
    | InvalidMediaFileMimeTypeError(actual_mime_type: string, valid_mime_types: seq<string>)
  {
    /** The error's `name` property. */
    function Name(): (n: string)
      ensures InvalidMediaFileSizeError? ==> n == "InvalidMediaFileSizeError"
      ensures InvalidMediaFileMimeTypeError? ==> n == "InvalidMediaFileMimeTypeError"
    {
      match this
      case InvalidMediaFileSizeError(_, _) => "InvalidMediaFileSizeError"
      case InvalidMediaFileMimeTypeError(_, _) => "InvalidMediaFileMimeTypeError"
    }

    /** The error's `message`. */
    function Message(): string {
      match this
      case InvalidMediaFileSizeError(actual, max) =>
        "File size " + Strings.IntToString(actual) + " exceeds the maximum allowed size of "
        + Strings.IntToString(max) + " bytes"
      case InvalidMediaFileMimeTypeError(actual, valid) =>
        "File has an unsupported mime type: " + actual + ". Supported types are: "
        + Strings.Join(valid, ", ")
    }
  }

  /** A size error's message names the rejected size and the limit. */
  lemma SizeMessageEmbedsValues(actual: int, max: int)
    ensures Strings.Contains(InvalidMediaFileSizeError(actual, max).Message(), Strings.IntToString(actual))
    ensures Strings.Contains(InvalidMediaFileSizeError(actual, max).Message(), Strings.IntToString(max))
  {
    var a := Strings.IntToString(actual);
    var m := Strings.IntToString(max);
    var msg := InvalidMediaFileSizeError(actual, max).Message();
    Strings.ContainsMiddle("File size ", a, " exceeds the maximum allowed size of " + m + " bytes");
    assert msg == "File size " + a + (" exceeds the maximum allowed size of " + m + " bytes");
    Strings.ContainsMiddle("File size " + a + " exceeds the maximum allowed size of ", m, " bytes");
  }

  /** A mime-type error's message names the rejected type and every allowed one. */
  lemma MimeMessageEmbedsValues(actual: string, valid: seq<string>, k: nat)
    requires k < |valid|
    ensures Strings.Contains(InvalidMediaFileMimeTypeError(actual, valid).Message(), actual)
    ensures Strings.Contains(InvalidMediaFileMimeTypeError(actual, valid).Message(), valid[k])
  {
    var joined := Strings.Join(valid, ", ");
    var msg := InvalidMediaFileMimeTypeError(actual, valid).Message();
    var head := "File has an unsupported mime type: ";
    var mid := ". Supported types are: ";
    Strings.ContainsMiddle(head, actual, mid + joined);
    assert msg == head + actual + (mid + joined);
    Strings.JoinContainsPart(valid, ", ", k);
    var j :| Strings.OccursAt(joined, valid[k], j);
    var off := |head + actual + mid|;
    assert msg == head + actual + mid + joined;
    assert msg[off + j..off + j + |valid[k]|] == joined[j..j + |valid[k]|];
    assert Strings.OccursAt(msg, valid[k], off + j);
  }

  datatype MediaFileValidator = MediaFileValidator(max_size: int, valid_mime_types: seq<string>)

  /** The extension kept in the stored name: `raw_name.split('.').pop()`. */
  function Extension(raw_name: string): (ext: string)
    ensures ext == Strings.LastSegment(raw_name, '.')
  {
    var parts := Strings.Split(raw_name, '.');
    Strings.SplitLastIsLastSegment(raw_name, '.');
    parts[|parts| - 1]
  }

  /** `validate({raw_name, mime_type, size})`: the size is checked first, then
      the mime type; on success the stored name is the digest, a dot, and the
      raw name's extension. */
  function Validate(v: MediaFileValidator, raw_name: string, mime_type: string, size: int, digest: string)
    : (r: Result<string, MediaFileError>)
    ensures r.Success? <==> size <= v.max_size && mime_type in v.valid_mime_types
    ensures size > v.max_size ==> r == Failure(InvalidMediaFileSizeError(size, v.max_size))
    ensures size <= v.max_size && mime_type !in v.valid_mime_types ==>
              r == Failure(InvalidMediaFileMimeTypeError(mime_type, v.valid_mime_types))
    ensures r.Success? ==> StoredNameOf(r.value, raw_name, digest)
  {
    if size > v.max_size then
      Failure(InvalidMediaFileSizeError(size, v.max_size))
    else if mime_type !in v.valid_mime_types then
      Failure(InvalidMediaFileMimeTypeError(mime_type, v.valid_mime_types))
    else
      BuiltNameIsStoredName(raw_name, digest);
      Success(digest + "." + Extension(raw_name))
  }

  /** `name` is `digest`, a dot, then the text after the last dot of
      `raw_name` (all of `raw_name` when it has no dot). */
  ghost predicate StoredNameOf(name: string, raw_name: string, digest: string) {
    && |name| > |digest|
    && name[..|digest|] == digest
    && name[|digest|] == '.'
    && var ext := name[|digest| + 1..];
    && '.' !in ext
    && |ext| <= |raw_name|
    && raw_name[|raw_name| - |ext|..] == ext
    && (|ext| < |raw_name| ==> raw_name[|raw_name| - |ext| - 1] == '.')
  }

  /** Two dot-free suffixes that each reach back to a dot or to the start are
      the same suffix. */
  lemma DotFreeSuffixUnique(s: string, a: string, b: string)
    requires |a| <= |s| && s[|s| - |a|..] == a && '.' !in a
    requires |a| < |s| ==> s[|s| - |a| - 1] == '.'
    requires |b| <= |s| && s[|s| - |b|..] == b && '.' !in b
    requires |b| < |s| ==> s[|s| - |b| - 1] == '.'
    ensures a == b
  {
  }

  /** The name `validate` builds satisfies `StoredNameOf`. */
  lemma BuiltNameIsStoredName(raw_name: string, digest: string)
    ensures StoredNameOf(digest + "." + Strings.LastSegment(raw_name, '.'), raw_name, digest)
  {
    var ext := Strings.LastSegment(raw_name, '.');
    var name := digest + "." + ext;
    assert name[..|digest|] == digest;
    assert name[|digest|] == '.';
    assert name[|digest| + 1..] == ext;
  }

  /** The stored name keeps exactly the raw name's extension: the same digest
      and the same text after the last dot give the same name, and a raw name
      without a dot is kept whole. */
  lemma StoredNameDeterminedByExtension(name: string, raw_name: string, digest: string)
    requires StoredNameOf(name, raw_name, digest)
    ensures name == digest + "." + Strings.LastSegment(raw_name, '.')
    ensures '.' !in raw_name ==> name == digest + "." + raw_name
  {
    var ext := name[|digest| + 1..];
    var last := Strings.LastSegment(raw_name, '.');
    DotFreeSuffixUnique(raw_name, ext, last);
    assert ext == last;
    SplitAround(name, |digest|);
    assert name[..|digest|] == digest && name[|digest|] == '.';
    if '.' !in raw_name {
      assert last == raw_name;
    }
  }

  /** A string is its part before position `k`, the character at `k`, and
      its part after `k`. */
  lemma SplitAround(s: string, k: nat)
    requires k < |s|
    ensures s == s[..k] + [s[k]] + s[k + 1..]
  {
  }
}
