/**
 * The Playlist document schema: the embedded song node, the playlist's
 * scalar fields, the required-field rules and the defaults.
 */
module PlaylistModel {
  import opened Common

  /**
   * One entry of a playlist's `songs` array. `song` is not a required path,
   * so it may be missing; `prev` and `next` are node ids of the same array.
   */
  datatype SongNode = SongNode(id: NodeId, song: Option<SongId>, prev: Option<NodeId>, next: Option<NodeId>)

  /** The scalar fields of a stored playlist. */
  datatype PlaylistAttrs = PlaylistAttrs(
    name: string,
    description: Option<string>,
    isPublic: bool,
    isFavorite: bool,
    tags: seq<string>,
    user: UserId)

  /** The fields handed to `Playlist.create`; `None` is an undefined field. */
  datatype PlaylistInput = PlaylistInput(
    name: Option<string>,
    description: Option<string>,
    isPublic: Option<bool>,
    isFavorite: Option<bool>,
    tags: Option<seq<string>>,
    user: Option<UserId>)

  /** The validation failures the schema can report, one per required path. */
  datatype SchemaError = NameRequired | UserRequired

  /**
   * The schema's validation errors for `input`, in path order. A required
   * string path fails when it is missing or empty.
   */
  function ValidationErrors(input: PlaylistInput): (errs: seq<SchemaError>)
    ensures NameRequired in errs <==> !Truthy(input.name)
    ensures UserRequired in errs <==> input.user.None?
    ensures |errs| <= 2
  {
    (if Truthy(input.name) then [] else [NameRequired])
    + (if input.user.Some? then [] else [UserRequired])
  }

  /**
   * The document `Playlist.create` stores for `input`, or the validation
   * errors that make it fail. Omitted flags default to false (private, not a
   * favourite) and omitted tags to the empty list.
   */
  function Build(input: PlaylistInput): (r: Result<PlaylistAttrs, seq<SchemaError>>)
    ensures r.Ok? <==> Truthy(input.name) && input.user.Some?
    ensures r.Err? ==> r.error != [] && r.error == ValidationErrors(input)
    ensures r.Ok? ==> r.value.name == input.name.value && r.value.name != ""
    ensures r.Ok? ==> r.value.user == input.user.value
    ensures r.Ok? ==> r.value.description == input.description
    ensures r.Ok? ==> (r.value.isPublic <==> input.isPublic == Some(true))
    ensures r.Ok? ==> (r.value.isFavorite <==> input.isFavorite == Some(true))
    ensures r.Ok? ==> r.value.tags == (if input.tags.Some? then input.tags.value else [])
  {
    var errs := ValidationErrors(input);
    if errs != [] then Err(errs)
    else
      Ok(PlaylistAttrs(
        input.name.value,
        input.description,
        if input.isPublic.Some? then input.isPublic.value else false,
        if input.isFavorite.Some? then input.isFavorite.value else false,
        if input.tags.Some? then input.tags.value else [],
        input.user.value))
  }

  /**
   * A fresh node for `song`, with the id the array assigns it. Neither link is
   * given, so both take the schema default, null.
   */
  function CreateSongNode(id: NodeId, song: SongId): (n: SongNode)
    ensures n.id == id && n.song == Some(song)
    ensures n.prev == None && n.next == None
  {
    SongNode(id, Some(song), None, None)
  }
}
