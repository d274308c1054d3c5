/** The in-memory file storage: stored objects keyed by id, each its bytes and
    an optional MIME type. */
module InMemoryStorage {
  import opened Wrappers

  datatype StoredFile = StoredFile(data: seq<bv8>, mime_type: Option<string>)

  type Storage = map<string, StoredFile>

  /** `new InMemoryStorage()`: nothing stored. */
  function New(): (s: Storage)
    ensures forall id :: id !in s
  {
    map[]
  }

  /** `store({ data, mime_type, id })`: the object under `id`, replacing any
      earlier one. */
  function Store(s: Storage, id: string, data: seq<bv8>, mime_type: Option<string>): (r: Storage)
    ensures id in r && r[id] == StoredFile(data, mime_type)
    ensures forall k :: k != id ==> (k in r <==> k in s) && (k in s ==> r[k] == s[k])
  {
    s[id := StoredFile(data, mime_type)]
  }

  /** The message `get` throws for an unknown id. */
  function NotFoundMessage(id: string): (m: string)
    ensures |m| == |id| + 15
    ensures m[..5] == "File " && m[|m| - 10..] == " not found"
    ensures m[5..|m| - 10] == id
  {
    var m := "File " + id + " not found";
    assert m[5..|m| - 10] == id;
    m
  }

  /** `get(id)`: the object stored under `id`, or an error naming the id. */
  function Get(s: Storage, id: string): (r: Result<StoredFile, string>)
    ensures r.Success? <==> id in s
    ensures r.Success? ==> r.value == s[id]
    ensures r.Failure? ==> r.error == NotFoundMessage(id)
  {
    if id in s then Success(s[id]) else Failure(NotFoundMessage(id))
  }

  /** What was stored is what `get` returns, and a later store under the same
      id wins. */
  lemma StoreThenGet(s: Storage, id: string, data: seq<bv8>, mime_type: Option<string>, data': seq<bv8>, mime_type': Option<string>)
    ensures Get(Store(s, id, data, mime_type), id) == Success(StoredFile(data, mime_type))
    ensures Store(Store(s, id, data, mime_type), id, data', mime_type') == Store(s, id, data', mime_type')
  {
  }

  /** Storing one object leaves what `get` answers for any other id as it
      was, including "not found". */
  lemma StoreKeepsOthers(s: Storage, id: string, other: string, data: seq<bv8>, mime_type: Option<string>)
    requires other != id
    ensures Get(Store(s, id, data, mime_type), other) == Get(s, other)
  {
  }

  /** Nothing stored, nothing found. */
  lemma NewFindsNothing(id: string)
    ensures Get(New(), id) == Failure(NotFoundMessage(id))
  {
  }
}
