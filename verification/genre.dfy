/** The genre aggregate: a name, the categories it belongs to (an id map keyed
    by the id's own string, modelled by its key list) and an active flag. A
    genre raises no events, so its aggregate-root part is not modelled; the
    entity validator is not part of this model and accepts every genre. */
module Genre {
  import opened Wrappers
  import opened OrderedSet

  datatype Genre = Genre(
    genre_id: string,
    name: string,
    categories_id: seq<string>,
    is_active: bool,
    created_at: int)

  /** The constructor's arguments; an absent optional one is `None`. */
  datatype GenreProps = GenreProps(
    genre_id: Option<string>,
    name: string,
    categories_id: Option<seq<string>>,
    is_active: Option<bool>,
    created_at: Option<int>)

  /** A genre's category ids form a JavaScript `Map`, which holds each key
      once. */
  ghost predicate Valid(g: Genre) {
    NoDup(g.categories_id)
  }

  /** `new Genre(props)`: an absent id and creation time come from `fresh_id`
      and `now`, absent categories are an empty map, and a genre is active
      unless told otherwise. */
  function New(props: GenreProps, fresh_id: string, now: int): (g: Genre)
    ensures g.genre_id == (if props.genre_id.Some? then props.genre_id.value else fresh_id)
    ensures g.name == props.name
    ensures props.categories_id.None? ==> g.categories_id == []
    ensures props.categories_id.Some? ==> g.categories_id == props.categories_id.value
    ensures g.is_active <==> props.is_active != Some(false)
    ensures g.created_at == (if props.created_at.Some? then props.created_at.value else now)
    ensures Valid(g) <==> props.categories_id.None? || NoDup(props.categories_id.value)
  {
    Genre(
      props.genre_id.GetOr(fresh_id), props.name, props.categories_id.GetOr([]),
      props.is_active.GetOr(true), props.created_at.GetOr(now))
  }

  /** The arguments of `Genre.create`. */
  datatype GenreCreateCommand = GenreCreateCommand(name: string, categories_id: seq<string>, is_active: Option<bool>)

  /** `Genre.create(command)`: repeated category ids collapse to one entry, the
      first occurrence deciding the position. */
  function Create(cmd: GenreCreateCommand, fresh_id: string, now: int): (g: Genre)
    ensures Valid(g)
    ensures forall c :: c in g.categories_id <==> c in cmd.categories_id
    ensures |g.categories_id| <= |cmd.categories_id|
    ensures NoDup(cmd.categories_id) ==> g.categories_id == cmd.categories_id
    ensures forall i, j :: 0 <= i < j < |g.categories_id| ==>
              FirstIndex(cmd.categories_id, g.categories_id[i]) < FirstIndex(cmd.categories_id, g.categories_id[j])
    ensures g.genre_id == fresh_id && g.name == cmd.name && g.created_at == now
    ensures g.is_active <==> cmd.is_active != Some(false)
  {
    FromSeqNoDupIf(cmd.categories_id);
    FromSeqOrder(cmd.categories_id);
    New(GenreProps(None, cmd.name, Some(FromSeq(cmd.categories_id)), cmd.is_active, None), fresh_id, now)
  }

  /** `addCategoryId(id)`: a present id stays where it is, a new one goes last. */
  function AddCategoryId(g: Genre, id: string): (r: Genre)
    ensures forall c :: c in r.categories_id <==> c in g.categories_id || c == id
    ensures g.categories_id <= r.categories_id
    ensures id in g.categories_id ==> r == g
    ensures Valid(g) ==> Valid(r)
    ensures r.(categories_id := g.categories_id) == g
  {
    g.(categories_id := Insert(g.categories_id, id))
  }

  /** `removeCategoryId(id)`: only that key goes; an absent key changes
      nothing. */
  function RemoveCategoryId(g: Genre, id: string): (r: Genre)
    ensures forall c :: c in r.categories_id <==> c in g.categories_id && c != id
    ensures id !in g.categories_id ==> r == g
    ensures Valid(g) ==> Valid(r)
    ensures r.(categories_id := g.categories_id) == g
  {
    g.(categories_id := Remove(g.categories_id, id))
  }

  /** Adding a category twice is adding it once. */
  lemma AddCategoryIdIdempotent(g: Genre, id: string)
    ensures AddCategoryId(AddCategoryId(g, id), id) == AddCategoryId(g, id)
  {
  }

  /** Removing a category that was just added to a genre without it gives the
      genre back. */
  lemma RemoveUndoesAdd(g: Genre, id: string)
    requires Valid(g) && id !in g.categories_id
    ensures RemoveCategoryId(AddCategoryId(g, id), id) == g
  {
    var ids := g.categories_id;
    var k := RemoveCutsOut(ids + [id], id);
    assert k == |ids|;
    assert (ids + [id])[..k] == ids;
  }

  /** `syncCategoriesIds(ids)`: an empty list throws before anything changes;
      otherwise the whole map is replaced by one entry per distinct id. */
  function SyncCategoriesIds(g: Genre, ids: seq<string>): (r: Result<Genre, string>)
    ensures r.Failure? <==> |ids| == 0
    ensures r.Failure? ==> r.error == "At least one category id is required"
    ensures r.Success? ==> Valid(r.value)
    ensures r.Success? ==> forall c :: c in r.value.categories_id <==> c in ids
    ensures r.Success? && NoDup(ids) ==> r.value.categories_id == ids
    ensures r.Success? ==> forall i, j :: 0 <= i < j < |r.value.categories_id| ==>
              FirstIndex(ids, r.value.categories_id[i]) < FirstIndex(ids, r.value.categories_id[j])
    ensures r.Success? ==> r.value.(categories_id := g.categories_id) == g
  {
    if |ids| == 0 then Failure("At least one category id is required")
    else
      FromSeqNoDupIf(ids);
      FromSeqOrder(ids);
      Success(g.(categories_id := FromSeq(ids)))
  }

  /** Syncing depends only on the ids given, not on the categories before. */
  lemma SyncForgetsPrevious(g: Genre, h: Genre, ids: seq<string>)
    requires g.(categories_id := []) == h.(categories_id := [])
    ensures SyncCategoriesIds(g, ids) == SyncCategoriesIds(h, ids)
  {
    assert g.(categories_id := FromSeq(ids)) == h.(categories_id := FromSeq(ids)) by {
      assert g.genre_id == h.genre_id && g.name == h.name;
      assert g.is_active == h.is_active && g.created_at == h.created_at;
    }
  }

  /** `activate()` / `deactivate()`: the flag is set whatever it was. */
  function Activate(g: Genre): (r: Genre)
    ensures r.is_active && r.(is_active := g.is_active) == g
  {
    g.(is_active := true)
  }

  function Deactivate(g: Genre): (r: Genre)
    ensures !r.is_active && r.(is_active := g.is_active) == g
  {
    g.(is_active := false)
  }

  /** Each toggle is idempotent, and the last one decides. */
  lemma ToggleLastWins(g: Genre)
    ensures Activate(Activate(g)) == Activate(g) && Deactivate(Deactivate(g)) == Deactivate(g)
    ensures Activate(Deactivate(g)) == Activate(g) && Deactivate(Activate(g)) == Deactivate(g)
  {
  }

  /** `entity_id`: the genre's own id. */
  function EntityId(g: Genre): (id: string)
    ensures id == g.genre_id
  {
    g.genre_id
  }

  /** The plain object `toJSON()` returns. */
  datatype GenreJson = GenreJson(
    genre_id: string,
    name: string,
    categories_id: seq<string>,
    is_active: bool,
    created_at: int)

  /** `toJSON()`: the category ids as strings, in map order. */
  function ToJson(g: Genre): (j: GenreJson)
    ensures j.genre_id == EntityId(g) && j.name == g.name
    ensures j.categories_id == g.categories_id
    ensures j.is_active == g.is_active && j.created_at == g.created_at
  {
    GenreJson(g.genre_id, g.name, g.categories_id, g.is_active, g.created_at)
  }

  /** Rebuilding a genre from its plain object through the constructor, with
      every field given. */
  function FromJson(j: GenreJson): Genre {
    New(GenreProps(Some(j.genre_id), j.name, Some(j.categories_id), Some(j.is_active), Some(j.created_at)), "", 0)
  }

  /** `toJSON` loses nothing: the constructor rebuilds the genre from it, and
      serialising the rebuilt genre gives the same object. */
  lemma JsonRoundTrip(g: Genre, j: GenreJson)
    ensures FromJson(ToJson(g)) == g
    ensures ToJson(FromJson(j)) == j
  {
  }
}
