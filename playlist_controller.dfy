/**
 * The playlist controller: creation, reading in list order, the field
 * update, deletion, and the three list mutations (append, remove, reorder)
 * applied in place to a loaded playlist document.
 *
 * A controller function loads the document with `findById`; a miss is a
 * null `Playlist?` here. Saving is not modelled: the document object is the
 * stored state, and every failing path leaves it unchanged.
 */
module PlaylistController {
  import opened Common
  import opened PlaylistModel
  import opened LinkedOrder

  datatype PlaylistError =
    | PlaylistNotFound
    | NotAuthorized
    | SongNotFound
    | SongNotInPlaylist
    | InvalidOperation
    | ServerError
    | ValidationFailed(errors: seq<SchemaError>)

  /** A stored playlist document with its embedded linked list of song nodes. */
  class Playlist {
    var attrs: PlaylistAttrs
    var songs: seq<SongNode>
    var head: Option<NodeId>
    var tail: Option<NodeId>

    /** The schema's required name, and the linked list in array order. */
    ghost predicate Valid()
      reads this
    {
      attrs.name != "" && InArrayOrder(songs, head, tail)
    }

    /** A new document: no songs, and head and tail at their default, null. */
    constructor (attrs: PlaylistAttrs)
      requires attrs.name != ""
      ensures Valid()
      ensures this.attrs == attrs && songs == [] && head == None && tail == None
    {
      this.attrs := attrs;
      songs := [];
      head := None;
      tail := None;
    }
  }

  /** The song a read shows for a node: the node has one and it still exists. */
  function Shown(n: SongNode, catalog: set<SongId>): seq<SongId>
  {
    if n.song.Some? && n.song.value in catalog then [n.song.value] else []
  }

  /**
   * The songs a read returns for the nodes `s`, in order, skipping nodes
   * whose song is missing or no longer in the catalog.
   */
  function Playable(s: seq<SongNode>, catalog: set<SongId>): (r: seq<SongId>)
    ensures |r| <= |s|
    ensures forall x :: x in r ==> x in catalog
  {
    if |s| == 0 then [] else Playable(s[..|s| - 1], catalog) + Shown(s[|s| - 1], catalog)
  }

  /** When every node's song exists, a read returns exactly those songs, in order. */
  lemma {:induction false} PlayableAllPresent(s: seq<SongNode>, catalog: set<SongId>)
    requires forall i :: 0 <= i < |s| ==> s[i].song.Some? && s[i].song.value in catalog
    ensures |Playable(s, catalog)| == |s|
    ensures forall i :: 0 <= i < |s| ==> Playable(s, catalog)[i] == s[i].song.value
  {
    if |s| > 0 {
      PlayableAllPresent(s[..|s| - 1], catalog);
    }
  }

  /** Extending the prefix read by one node adds what that node shows. */
  lemma PlayablePrefix(s: seq<SongNode>, i: nat, catalog: set<SongId>)
    requires i < |s|
    ensures Playable(s[..i + 1], catalog) == Playable(s[..i], catalog) + Shown(s[i], catalog)
  {
    assert s[..i + 1][..i] == s[..i];
  }

  /**
   * The walk at the heart of `getPlaylist`: from head, follow `next` links,
   * looking each node up by id and collecting its song when it has one. On a
   * valid list the walk stops after visiting every node once, and it returns
   * the visible songs in head-to-tail order, which is the array order.
   */
  method ReadInOrder(p: Playlist, catalog: set<SongId>) returns (ordered: seq<SongId>)
    requires p.Valid()
    ensures ordered == Playable(p.songs, catalog)
    ensures Forward(p.songs, p.head, |p.songs| + 1) == Ids(p.songs)
    ensures p.head == None ==> ordered == []
  {
    var songs := p.songs;
    ordered := [];
    if p.head.Some? {
      var cur := p.head;
      ghost var i: nat := 0;
      while cur.Some?
        invariant i <= |songs|
        invariant cur == if i < |songs| then Some(songs[i].id) else None
        invariant ordered == Playable(songs[..i], catalog)
        decreases |songs| - i
      {
        NodeAt(songs, p.head, p.tail, i);
        var k := Find(songs, cur.value);
        if k >= 0 && songs[k].song.Some? && songs[k].song.value in catalog {
          ordered := ordered + [songs[k].song.value];
        }
        PlayablePrefix(songs, i, catalog);
        cur := if k >= 0 then songs[k].next else None;
        i := i + 1;
      }
      assert songs[..i] == songs;
    }
    InArrayOrderIsConsistent(p.songs, p.head, p.tail);
  }

  /**
   * `getPlaylist` with its access check corrected: a private playlist is
   * readable by its owner only, and anyone may read a public one.
   */
  method GetPlaylist(p: Playlist?, requester: UserId, catalog: set<SongId>) returns (r: Result<seq<SongId>, PlaylistError>)
    requires p != null ==> p.Valid()
    ensures p == null ==> r == Err(PlaylistNotFound)
    ensures p != null && !p.attrs.isPublic && p.attrs.user != requester ==> r == Err(NotAuthorized)
    ensures p != null && (p.attrs.isPublic || p.attrs.user == requester) ==>
      && r == Ok(Playable(p.songs, catalog))
      && Forward(p.songs, p.head, |p.songs| + 1) == Ids(p.songs)
      && (p.head == None ==> r == Ok([]))
  {
    if p == null {
      return Err(PlaylistNotFound);
    }
    if !p.attrs.isPublic && !StrictEquals(ToString(IdObject(p.attrs.user)), ToString(IdObject(requester))) {
      return Err(NotAuthorized);
    }
    var ordered := ReadInOrder(p, catalog);
    r := Ok(ordered);
  }

  /**
   * `getPlaylist` as written. For a private playlist the access check calls
   * `toString()` on the requester's `_id` field. The authentication
   * middleware sets no such field, so the call throws, and the handler
   * answers with a server error whoever asks, the owner included. A public
   * playlist skips that call and is read.
   */
  method GetPlaylistAsWritten(p: Playlist?, requester: RequestUser, catalog: set<SongId>)
    returns (r: Result<seq<SongId>, PlaylistError>)
    requires p != null ==> p.Valid()
    ensures p == null ==> r == Err(PlaylistNotFound)
    ensures p != null && !p.attrs.isPublic && requester.underscoreId == None ==> r == Err(ServerError)
    ensures p != null && !p.attrs.isPublic && requester.underscoreId.Some? && requester.underscoreId.value.id != p.attrs.user ==>
      r == Err(NotAuthorized)
    ensures p != null && (p.attrs.isPublic || (requester.underscoreId.Some? && requester.underscoreId.value.id == p.attrs.user)) ==>
      r == Ok(Playable(p.songs, catalog))
    ensures forall user: UserId :: requester == Authenticated(user) ==>
      (r.Ok? <==> p != null && p.attrs.isPublic)
  {
    if p == null {
      return Err(PlaylistNotFound);
    }
    if !p.attrs.isPublic {
      if requester.underscoreId == None {
        // `undefined.toString()` throws; the handler answers 500
        return Err(ServerError);
      }
      if !StrictEquals(ToString(IdObject(p.attrs.user)), ToString(requester.underscoreId.value)) {
        return Err(NotAuthorized);
      }
    }
    var ordered := ReadInOrder(p, catalog);
    r := Ok(ordered);
  }

  /**
   * `createPlaylist`: the requester becomes the owner; the schema rejects a
   * missing or empty name. The new playlist is empty with null head and tail.
   */
  method CreatePlaylist(requester: UserId, name: Option<string>, description: Option<string>,
                        isPublic: Option<bool>, isFavorite: Option<bool>, tags: Option<seq<string>>)
    returns (p: Playlist?, r: Outcome<PlaylistError>)
    ensures r.Pass? <==> Truthy(name)
    ensures r.Pass? <==> p != null
    ensures r.Fail? ==> r.error == ValidationFailed([NameRequired])
    ensures p != null ==>
      && fresh(p) && p.Valid()
      && p.attrs == Build(PlaylistInput(name, description, isPublic, isFavorite, tags, Some(requester))).value
      && p.attrs.user == requester
      && p.songs == [] && p.head == None && p.tail == None
  {
    var built := Build(PlaylistInput(name, description, isPublic, isFavorite, tags, Some(requester)));
    if built.Err? {
      return null, Fail(ValidationFailed(built.error));
    }
    p := new Playlist(built.value);
    r := Pass;
  }

  /**
   * `updatePlaylist`: only the owner may update. A name is taken only when
   * non-empty, tags only when given, description and both flags whenever
   * they are defined. The owner and the song list never change.
   */
  method UpdatePlaylist(p: Playlist?, requester: UserId, name: Option<string>, description: Option<string>,
                        isPublic: Option<bool>, isFavorite: Option<bool>, tags: Option<seq<string>>)
    returns (r: Outcome<PlaylistError>)
    requires p != null ==> p.Valid()
    modifies p
    ensures p != null ==> p.Valid()
    ensures p == null ==> r == Fail(PlaylistNotFound)
    ensures p != null && p.attrs.user != requester ==> r == Fail(NotAuthorized) && unchanged(p)
    ensures p != null && old(p.attrs.user) == requester ==>
      && r == Pass
      && p.songs == old(p.songs) && p.head == old(p.head) && p.tail == old(p.tail)
      && p.attrs.user == old(p.attrs.user)
      && p.attrs.name == (if Truthy(name) then name.value else old(p.attrs.name))
      && p.attrs.description == (if description.Some? then description else old(p.attrs.description))
      && p.attrs.isPublic == (if isPublic.Some? then isPublic.value else old(p.attrs.isPublic))
      && p.attrs.isFavorite == (if isFavorite.Some? then isFavorite.value else old(p.attrs.isFavorite))
      && p.attrs.tags == (if tags.Some? then tags.value else old(p.attrs.tags))
  {
    if p == null {
      return Fail(PlaylistNotFound);
    }
    if p.attrs.user != requester {
      return Fail(NotAuthorized);
    }
    if Truthy(name) { p.attrs := p.attrs.(name := name.value); }
    if description.Some? { p.attrs := p.attrs.(description := description); }
    if isPublic.Some? { p.attrs := p.attrs.(isPublic := isPublic.value); }
    if isFavorite.Some? { p.attrs := p.attrs.(isFavorite := isFavorite.value); }
    if tags.Some? { p.attrs := p.attrs.(tags := tags.value); }
    r := Pass;
  }

  /**
   * `deletePlaylist`: only the owner may delete. The removal of the stored
   * document itself is persistence and not modelled.
   */
  method DeletePlaylist(p: Playlist?, requester: UserId) returns (r: Outcome<PlaylistError>)
    ensures r == Pass <==> p != null && p.attrs.user == requester
    ensures p == null ==> r == Fail(PlaylistNotFound)
    ensures p != null && p.attrs.user != requester ==> r == Fail(NotAuthorized)
  {
    if p == null {
      return Fail(PlaylistNotFound);
    }
    if p.attrs.user != requester {
      return Fail(NotAuthorized);
    }
    r := Pass;
  }

  /**
   * `addSong`: only the owner may add, and only a song that exists. The new
   * node (with the fresh id the array assigns, `newId`) goes at the back:
   * into an empty list as both head and tail, otherwise after the old tail,
   * whose `next` is set to it.
   */
  method AddSong(p: Playlist?, requester: UserId, songId: SongId, catalog: set<SongId>, newId: NodeId)
    returns (r: Outcome<PlaylistError>)
    requires p != null ==> p.Valid() && newId !in Ids(p.songs)
    modifies p
    ensures p != null ==> p.Valid()
    ensures p == null ==> r == Fail(PlaylistNotFound)
    ensures p != null && p.attrs.user != requester ==> r == Fail(NotAuthorized) && unchanged(p)
    ensures p != null && old(p.attrs.user) == requester && songId !in catalog ==>
      r == Fail(SongNotFound) && unchanged(p)
    ensures p != null && old(p.attrs.user) == requester && songId in catalog ==>
      && r == Pass
      && p.attrs == old(p.attrs)
      && p.songs == AppendNode(old(p.songs), CreateSongNode(newId, songId))
      && |p.songs| == |old(p.songs)| + 1
      && p.head == (if old(p.head) == None then Some(newId) else old(p.head))
      && p.tail == Some(newId)
  {
    if p == null {
      return Fail(PlaylistNotFound);
    }
    if p.attrs.user != requester {
      return Fail(NotAuthorized);
    }
    if songId !in catalog {
      return Fail(SongNotFound);
    }
    ghost var s := p.songs;
    var node := CreateSongNode(newId, songId);
    AppendLinks(s, p.head, p.tail, node);
    if p.head.None? {
      p.songs := p.songs + [node];
      p.head := Some(newId);
      p.tail := Some(newId);
    } else {
      var t := Find(p.songs, p.tail.value);
      FindDistinct(p.songs, |p.songs| - 1);
      node := node.(prev := p.tail);
      p.songs := p.songs + [node];
      p.songs := p.songs[t := p.songs[t].(next := Some(newId))];
      p.tail := Some(newId);
    }
    assert p.songs == AppendNode(s, CreateSongNode(newId, songId));
    r := Pass;
  }

  /** `songs.pull(id)`: the array without the nodes carrying `id`. */
  function Pull(s: seq<SongNode>, id: NodeId): (r: seq<SongNode>)
    ensures forall i :: 0 <= i < |r| ==> r[i].id != id
  {
    if |s| == 0 then []
    else (if s[0].id == id then [] else [s[0]]) + Pull(s[1..], id)
  }

  /** With distinct ids, pulling the id of the node at `k` removes exactly that node. */
  lemma {:induction false} PullDistinct(s: seq<SongNode>, k: nat)
    requires DistinctIds(s) && k < |s|
    ensures Pull(s, s[k].id) == RemoveAt(s, k)
  {
    if k == 0 {
      PullAbsent(s[1..], s[0].id);
    } else {
      PullDistinct(s[1..], k - 1);
      assert s[1..][k - 1] == s[k];
      assert RemoveAt(s, k) == [s[0]] + RemoveAt(s[1..], k - 1);
    }
  }

  /** Pulling an id that no node carries changes nothing. */
  lemma {:induction false} PullAbsent(s: seq<SongNode>, id: NodeId)
    requires forall i :: 0 <= i < |s| ==> s[i].id != id
    ensures Pull(s, id) == s
  {
    if |s| > 0 {
      PullAbsent(s[1..], id);
      assert s == [s[0]] + s[1..];
    }
  }

  /**
   * `u` is `s` after the unlink step of a removal at `k`: the node before `k`
   * takes the removed node's `next`, the node after it takes its `prev`.
   */
  ghost predicate Unlinked(s: seq<SongNode>, k: nat, u: seq<SongNode>)
    requires k < |s|
  {
    && |u| == |s|
    && (forall i :: 0 <= i < |s| && i != k - 1 && i != k + 1 ==> u[i] == s[i])
    && (k > 0 ==> u[k - 1] == s[k - 1].(next := s[k].next))
    && (k + 1 < |s| ==> u[k + 1] == s[k + 1].(prev := s[k].prev))
  }

  /** Unlinking and then pulling the node is the specified removal. */
  lemma RemoveSurgery(s: seq<SongNode>, head: Option<NodeId>, tail: Option<NodeId>, k: nat, u: seq<SongNode>)
    requires InArrayOrder(s, head, tail) && k < |s| && Unlinked(s, k, u)
    ensures Pull(u, s[k].id) == RemoveNode(s, k)
  {
    assert forall i :: 0 <= i < |s| ==> u[i].id == s[i].id;
    assert DistinctIds(u);
    PullDistinct(u, k);
    assert u[k] == s[k];
    var t := RemoveAt(u, k);
    var r := RemoveNode(s, k);
    RemoveAtIndex(u, k);
    forall i | 0 <= i < |s| - 1
      ensures t[i] == r[i]
    {
      RemoveNodeAt(s, head, tail, k, i);
    }
  }

  /**
   * The unlink step of `removeSong` for the node at `k`, in the source's four
   * cases: a middle node's neighbours point at each other; removing the tail
   * or the head moves that end to the neighbour; removing the only node
   * empties both ends.
   */
  method Unlink(p: Playlist, k: nat)
    requires InArrayOrder(p.songs, p.head, p.tail) && k < |p.songs|
    modifies p
    ensures Unlinked(old(p.songs), k, p.songs)
    ensures p.attrs == old(p.attrs)
    ensures p.head == if k == 0 then old(p.songs[k].next) else old(p.head)
    ensures p.tail == if k == |p.songs| - 1 then old(p.songs[k].prev) else old(p.tail)
  {
    ghost var s, h, t := p.songs, p.head, p.tail;
    NodeAt(s, h, t, k);
    var node := p.songs[k];
    if node.prev.Some? && node.next.Some? {
      // a middle node: its neighbours now point at each other
      NodeAt(s, h, t, k - 1);
      NodeAt(s, h, t, k + 1);
      var pk := Find(p.songs, node.prev.value);
      var nk := Find(p.songs, node.next.value);
      p.songs := p.songs[pk := p.songs[pk].(next := node.next)];
      p.songs := p.songs[nk := p.songs[nk].(prev := node.prev)];
    } else if node.prev.Some? {
      // the tail: the node before it becomes the tail
      NodeAt(s, h, t, k - 1);
      var pk := Find(p.songs, node.prev.value);
      p.songs := p.songs[pk := p.songs[pk].(next := None)];
      p.tail := node.prev;
    } else if node.next.Some? {
      // the head: the node after it becomes the head
      NodeAt(s, h, t, k + 1);
      var nk := Find(p.songs, node.next.value);
      p.songs := p.songs[nk := p.songs[nk].(prev := None)];
      p.head := node.next;
    } else {
      // the only node
      p.head := None;
      p.tail := None;
    }
  }

  /**
   * `removeSong`: only the owner may remove, and only a node of this
   * playlist. The removed node's neighbours are relinked in the four cases
   * (middle, last, first, only) and the node is pulled from the array.
   */
  method RemoveSong(p: Playlist?, requester: UserId, nodeId: NodeId) returns (r: Outcome<PlaylistError>)
    requires p != null ==> p.Valid()
    modifies p
    ensures p != null ==> p.Valid()
    ensures p == null ==> r == Fail(PlaylistNotFound)
    ensures p != null && p.attrs.user != requester ==> r == Fail(NotAuthorized) && unchanged(p)
    ensures p != null && old(p.attrs.user) == requester && nodeId !in Ids(old(p.songs)) ==>
      r == Fail(SongNotInPlaylist) && unchanged(p)
    ensures p != null && old(p.attrs.user) == requester && nodeId in Ids(old(p.songs)) ==>
      && r == Pass
      && p.attrs == old(p.attrs)
      && 0 <= Find(old(p.songs), nodeId)
      && p.songs == RemoveNode(old(p.songs), Find(old(p.songs), nodeId))
      && |p.songs| == |old(p.songs)| - 1
      && nodeId !in Ids(p.songs)
  {
    if p == null {
      return Fail(PlaylistNotFound);
    }
    if p.attrs.user != requester {
      return Fail(NotAuthorized);
    }
    var k := Find(p.songs, nodeId);
    if k < 0 {
      assert nodeId !in Ids(p.songs);
      return Fail(SongNotInPlaylist);
    }
    ghost var s, h, t := p.songs, p.head, p.tail;
    assert Ids(s)[k] == nodeId;
    Unlink(p, k);
    RemoveSurgery(s, h, t, k, p.songs);
    RemoveLinks(s, h, t, k);
    RemoveMovesEnds(s, h, t, k);
    RemoveForgetsNode(s, h, t, k);
    p.songs := Pull(p.songs, nodeId);
    r := Pass;
  }

  /**
   * The rebuild step of `reorderSongs`: every node's `prev` and `next` are
   * set from its array neighbours, then head and tail from the first and
   * last node.
   */
  method RebuildLinks(p: Playlist)
    requires |p.songs| > 0
    modifies p
    ensures p.songs == Relink(old(p.songs))
    ensures p.head == First(p.songs) && p.tail == Last(p.songs)
    ensures p.attrs == old(p.attrs)
  {
    ghost var base := p.songs;
    var i := 0;
    while i < |p.songs|
      invariant 0 <= i <= |p.songs| == |base|
      invariant forall j :: 0 <= j < |base| ==> p.songs[j].id == base[j].id
      invariant forall j :: 0 <= j < i ==> p.songs[j] == Relink(base)[j]
      invariant forall j :: i <= j < |base| ==> p.songs[j] == base[j]
      invariant p.attrs == old(p.attrs)
    {
      var prev := if i > 0 then Some(p.songs[i - 1].id) else None;
      var next := if i < |p.songs| - 1 then Some(p.songs[i + 1].id) else None;
      p.songs := p.songs[i := p.songs[i].(prev := prev, next := next)];
      i := i + 1;
    }
    p.head := Some(p.songs[0].id);
    p.tail := Some(p.songs[|p.songs| - 1].id);
  }

  /**
   * `reorderSongs`, keyed by node id: only the owner may reorder; the node
   * must be in the playlist and `newIndex` within `[0, length - 1]`. The node
   * is spliced out and back in at `newIndex`, then every `prev`/`next` and
   * head and tail are rebuilt from the array order.
   */
  method ReorderSongs(p: Playlist?, requester: UserId, nodeId: NodeId, newIndex: int) returns (r: Outcome<PlaylistError>)
    requires p != null ==> p.Valid()
    modifies p
    ensures p != null ==> p.Valid()
    ensures p == null ==> r == Fail(PlaylistNotFound)
    ensures p != null && p.attrs.user != requester ==> r == Fail(NotAuthorized) && unchanged(p)
    ensures p != null && old(p.attrs.user) == requester
            && (nodeId !in Ids(old(p.songs)) || newIndex < 0 || newIndex >= |old(p.songs)|) ==>
      r == Fail(InvalidOperation) && unchanged(p)
    ensures p != null && old(p.attrs.user) == requester
            && nodeId in Ids(old(p.songs)) && 0 <= newIndex < |old(p.songs)| ==>
      && r == Pass
      && p.attrs == old(p.attrs)
      && 0 <= Find(old(p.songs), nodeId)
      && p.songs == MoveNode(old(p.songs), Find(old(p.songs), nodeId), newIndex)
      && p.songs[newIndex].id == nodeId
  {
    if p == null {
      return Fail(PlaylistNotFound);
    }
    if p.attrs.user != requester {
      return Fail(NotAuthorized);
    }
    var index := Find(p.songs, nodeId);
    if index == -1 || newIndex < 0 || newIndex >= |p.songs| {
      return Fail(InvalidOperation);
    }
    ghost var s, h, t := p.songs, p.head, p.tail;
    assert Ids(s)[index] == nodeId;
    var node := p.songs[index];
    p.songs := p.songs[..index] + p.songs[index + 1..];
    p.songs := p.songs[..newIndex] + [node] + p.songs[newIndex..];
    assert p.songs == MoveTo(s, index, newIndex);
    RebuildLinks(p);
    MoveLinks(s, h, t, index, newIndex);
    MovePlaces(s, h, t, index, newIndex);
    r := Pass;
  }

  /**
   * A document as the written reorder sees it. `owner` is the playlist's
   * `user`. `prev` and `next` are the
   * paths it reads and writes on the playlist itself, keyed here by node id.
   * `None` is an undeclared path, whose value is undefined. The schema
   * declares neither, so every stored playlist has `None` for both.
   */
  datatype WrittenState = WrittenState(
    owner: UserId,
    songs: seq<SongNode>,
    head: Option<NodeId>,
    tail: Option<NodeId>,
    prev: Option<map<NodeId, NodeId>>,
    next: Option<map<NodeId, NodeId>>)

  /** Reading a key of a plain object: undefined when the key is absent. */
  function Get(m: map<NodeId, NodeId>, key: NodeId): Option<NodeId>
  {
    if key in m then Some(m[key]) else None
  }

  /** Writing a key of a plain object; writing undefined reads back as absent. */
  function Put(m: map<NodeId, NodeId>, key: NodeId, value: Option<NodeId>): map<NodeId, NodeId>
  {
    if value.Some? then m[key := value.value] else m - {key}
  }

  /** Inserting at `j` and then removing at `j` gives back the array. */
  lemma RemoveInserted<T>(x: seq<T>, j: nat, v: T)
    requires j <= |x|
    ensures |InsertAt(x, j, v)| == |x| + 1 && InsertAt(x, j, v)[j] == v
    ensures RemoveAt(InsertAt(x, j, v), j) == x
  {
    var y := InsertAt(x, j, v);
    assert y[..j] == x[..j];
    assert y[j + 1..] == x[j..];
  }

  /**
   * `prevMap` is the `prev` map the rebuild loop writes for `songs`. An id
   * has an entry exactly when it sits at some position after the first, and
   * the entry is the id just before one such position. With repeated ids a
   * later write overwrites an earlier one, so in general only "some
   * position" can be said.
   */
  ghost predicate PrevNeighbours(songs: seq<SongNode>, prevMap: map<NodeId, NodeId>)
  {
    && (forall key :: key in prevMap <==> exists j :: 0 < j < |songs| && songs[j].id == key)
    && (forall key :: key in prevMap ==> exists j :: 0 < j < |songs| && songs[j].id == key && prevMap[key] == songs[j - 1].id)
  }

  /** The mirror image of `PrevNeighbours` for the `next` map. */
  ghost predicate NextNeighbours(songs: seq<SongNode>, nextMap: map<NodeId, NodeId>)
  {
    && (forall key :: key in nextMap <==> exists j :: 0 <= j < |songs| - 1 && songs[j].id == key)
    && (forall key :: key in nextMap ==> exists j :: 0 <= j < |songs| - 1 && songs[j].id == key && nextMap[key] == songs[j + 1].id)
  }

  /** Both maps are what the rebuild loop writes for `songs`. */
  ghost predicate NeighbourMaps(songs: seq<SongNode>, prevMap: map<NodeId, NodeId>, nextMap: map<NodeId, NodeId>)
  {
    PrevNeighbours(songs, prevMap) && NextNeighbours(songs, nextMap)
  }

  /**
   * With distinct ids the rebuilt `prev` map holds exactly the array
   * neighbours: every node but the first maps back to the node before it,
   * and the first has no entry.
   */
  lemma PrevNeighboursExact(songs: seq<SongNode>, prevMap: map<NodeId, NodeId>)
    requires PrevNeighbours(songs, prevMap) && DistinctIds(songs)
    ensures forall i :: 0 < i < |songs| ==> songs[i].id in prevMap && prevMap[songs[i].id] == songs[i - 1].id
    ensures |songs| > 0 ==> songs[0].id !in prevMap
  {
    forall i | 0 < i < |songs|
      ensures songs[i].id in prevMap && prevMap[songs[i].id] == songs[i - 1].id
    {
      var key := songs[i].id;
      assert key in prevMap;
      var j :| 0 < j < |songs| && songs[j].id == key && prevMap[key] == songs[j - 1].id;
    }
  }

  /**
   * With distinct ids the rebuilt `next` map holds exactly the array
   * neighbours: every node but the last maps on to the node after it, and
   * the last has no entry.
   */
  lemma NextNeighboursExact(songs: seq<SongNode>, nextMap: map<NodeId, NodeId>)
    requires NextNeighbours(songs, nextMap) && DistinctIds(songs)
    ensures forall i :: 0 <= i < |songs| - 1 ==> songs[i].id in nextMap && nextMap[songs[i].id] == songs[i + 1].id
    ensures |songs| > 0 ==> songs[|songs| - 1].id !in nextMap
  {
    forall i | 0 <= i < |songs| - 1
      ensures songs[i].id in nextMap && nextMap[songs[i].id] == songs[i + 1].id
    {
      var key := songs[i].id;
      assert key in nextMap;
      var j :| 0 <= j < |songs| - 1 && songs[j].id == key && nextMap[key] == songs[j + 1].id;
    }
  }

  /**
   * The rebuild loop of the written reorder: each element's array
   * neighbours are recorded in the `prev` and `next` maps, keyed by the
   * element. Only elements of the array become keys.
   */
  method RebuildMaps(songs: seq<SongNode>) returns (prevMap: map<NodeId, NodeId>, nextMap: map<NodeId, NodeId>)
    ensures NeighbourMaps(songs, prevMap, nextMap)
    ensures forall k :: k in prevMap ==> k in Ids(songs)
    ensures forall k :: k in nextMap ==> k in Ids(songs)
  {
    prevMap, nextMap := map[], map[];
    var i := 0;
    while i < |songs|
      invariant 0 <= i <= |songs|
      invariant forall key :: key in prevMap <==> exists j :: 0 < j < i && songs[j].id == key
      invariant forall key :: key in prevMap ==> exists j :: 0 < j < i && songs[j].id == key && prevMap[key] == songs[j - 1].id
      invariant forall key :: key in nextMap <==> exists j :: 0 <= j < i && j < |songs| - 1 && songs[j].id == key
      invariant forall key :: key in nextMap ==> exists j :: 0 <= j < i && j < |songs| - 1 && songs[j].id == key && nextMap[key] == songs[j + 1].id
      invariant forall k :: k in prevMap ==> k in Ids(songs)
      invariant forall k :: k in nextMap ==> k in Ids(songs)
    {
      var current := songs[i].id;
      assert Ids(songs)[i] == current;
      if i > 0 { prevMap := prevMap[current := songs[i - 1].id]; }
      if i < |songs| - 1 { nextMap := nextMap[current := songs[i + 1].id]; }
      i := i + 1;
    }
  }

  /**
   * The steps of the written reorder after its checks, on a document whose
   * `prev` and `next` paths are present: unlink the element from the maps,
   * splice it out and `inserted` in, rebuild the maps, set head and tail.
   * The nodes themselves are only moved, never relinked.
   */
  method WrittenSteps(st: WrittenState, songId: NodeId, index: nat, newIndex: nat, inserted: SongNode)
    returns (st': WrittenState)
    requires st.prev.Some? && st.next.Some?
    requires index < |st.songs| && newIndex < |st.songs|
    ensures |st'.songs| == |st.songs| && st'.songs[newIndex] == inserted
    ensures RemoveAt(st'.songs, newIndex) == RemoveAt(st.songs, index)
    ensures st'.head == First(st'.songs) && st'.tail == Last(st'.songs)
    ensures st'.prev.Some? && st'.next.Some?
    ensures st'.owner == st.owner
    ensures NeighbourMaps(st'.songs, st'.prev.value, st'.next.value)
    ensures forall k :: k in st'.prev.value ==> k in Ids(st'.songs)
    ensures forall k :: k in st'.next.value ==> k in Ids(st'.songs)
  {
    var prevMap: map<NodeId, NodeId>, nextMap: map<NodeId, NodeId> := st.prev.value, st.next.value;
    var head, tail := st.head, st.tail;
    // unlink the element from the maps
    var before := Get(prevMap, songId);
    var after := Get(nextMap, songId);
    if before.Some? { nextMap := Put(nextMap, before.value, after); } else { head := after; }
    if after.Some? { prevMap := Put(prevMap, after.value, before); } else { tail := before; }
    prevMap := prevMap - {songId};
    nextMap := nextMap - {songId};
    // the two splices
    var songs := st.songs[..index] + st.songs[index + 1..];
    assert songs == RemoveAt(st.songs, index);
    RemoveInserted(songs, newIndex, inserted);
    songs := songs[..newIndex] + [inserted] + songs[newIndex..];
    // rebuild the maps from the array order
    prevMap, nextMap := RebuildMaps(songs);
    head := Some(songs[0].id);
    tail := Some(songs[|songs| - 1].id);
    st' := WrittenState(st.owner, songs, head, tail, Some(prevMap), Some(nextMap));
  }

  /**
   * The written reorder's owner test: the playlist's `user`, turned into a
   * string, compared with `===` against the requester's `id`.
   */
  predicate WrittenOwnerTest(st: WrittenState, requester: RequestUser)
  {
    StrictEquals(ToString(IdObject(st.owner)), requester.id)
  }

  /**
   * `reorderSongs` as written. The owner test compares a string with the
   * requester's `id`. The authentication middleware puts an ObjectId there,
   * and a string never strictly equals an object, so every request is
   * refused as unauthorized, the owner's included.
   *
   * The steps after that test are modelled as they would run for a
   * requester whose `id` passed it. `index` is the answer of
   * `songs.indexOf(songId)`; the lookup itself is not modelled, and nothing
   * below depends on what it returns. `inserted` is whatever the node array
   * makes of the `songId` spliced back in. After the index checks the
   * handler reads `playlist.prev[songId]` and `playlist.next[songId]`. On a
   * stored playlist those paths are undefined, so the read throws, the
   * handler answers with a server error, and nothing is saved. If the paths
   * were present, the unlink step, the two splices and the rebuild loop
   * would write only those maps, head and tail: no node's own `prev` or
   * `next` changes.
   */
  method ReorderAsWritten(st: WrittenState, requester: RequestUser, songId: NodeId, index: int, newIndex: int, inserted: SongNode)
    returns (r: Outcome<PlaylistError>, st': WrittenState)
    requires -1 <= index < |st.songs|
    ensures requester.id.IdObject? ==> r == Fail(NotAuthorized) && st' == st
    ensures forall user: UserId :: requester == Authenticated(user) ==> r == Fail(NotAuthorized) && st' == st
    ensures !WrittenOwnerTest(st, requester) ==> r == Fail(NotAuthorized) && st' == st
    ensures WrittenOwnerTest(st, requester) && (index == -1 || newIndex < 0 || newIndex >= |st.songs|) ==>
      r == Fail(InvalidOperation) && st' == st
    ensures st.prev.None? || st.next.None? ==> r != Pass && st' == st
    ensures WrittenOwnerTest(st, requester) && index != -1 && 0 <= newIndex < |st.songs| && (st.prev.None? || st.next.None?) ==>
      r == Fail(ServerError)
    ensures r == Pass <==>
      WrittenOwnerTest(st, requester) && index != -1 && 0 <= newIndex < |st.songs| && st.prev.Some? && st.next.Some?
    ensures r == Pass ==>
      && 0 <= index && 0 <= newIndex < |st'.songs| == |st.songs|
      && st'.owner == st.owner
      && st'.songs[newIndex] == inserted
      && RemoveAt(st'.songs, newIndex) == RemoveAt(st.songs, index)
      && st'.head == First(st'.songs) && st'.tail == Last(st'.songs)
      && st'.prev.Some? && st'.next.Some?
      && NeighbourMaps(st'.songs, st'.prev.value, st'.next.value)
  {
    st' := st;
    if !StrictEquals(ToString(IdObject(st.owner)), requester.id) {
      return Fail(NotAuthorized), st';
    }
    if index == -1 || newIndex < 0 || newIndex >= |st.songs| {
      return Fail(InvalidOperation), st';
    }
    if st.prev.None? || st.next.None? {
      // reading a key of undefined throws; the handler answers 500 unsaved
      return Fail(ServerError), st';
    }
    st' := WrittenSteps(st, songId, index, newIndex, inserted);
    r := Pass;
  }

  /**
   * Node links that are not rebuilt cannot follow a new order. Take any
   * valid list `s`, remove its node at `k`, and put any node back at another
   * position `j`, as the written reorder does to the node array when its
   * maps are present. The nodes that shift keep their old links, and no head
   * and tail make the result a valid list.
   */
  lemma StaleLinksBreakOrder(s: seq<SongNode>, h: Option<NodeId>, tl: Option<NodeId>, k: nat,
                             t: seq<SongNode>, j: nat, head: Option<NodeId>, tail: Option<NodeId>)
    requires InArrayOrder(s, h, tl) && k < |s|
    requires |t| == |s| && j < |t| && j != k
    requires RemoveAt(t, j) == RemoveAt(s, k)
    ensures !InArrayOrder(t, head, tail)
  {
    RemoveAtIndex(t, j);
    RemoveAtIndex(s, k);
    if k < j {
      // the node after `k` shifts down to `k` and still points back at the removed node
      assert RemoveAt(t, j)[k] == t[k] && RemoveAt(s, k)[k] == s[k + 1];
      NodeAt(s, h, tl, k + 1);
      if k > 0 {
        assert RemoveAt(t, j)[k - 1] == t[k - 1] && RemoveAt(s, k)[k - 1] == s[k - 1];
      }
    } else {
      // the node before `k` shifts up to `k` and still points on at the removed node
      assert RemoveAt(t, j)[k - 1] == t[k] && RemoveAt(s, k)[k - 1] == s[k - 1];
      NodeAt(s, h, tl, k - 1);
      if k < |t| - 1 {
        assert RemoveAt(t, j)[k] == t[k + 1] && RemoveAt(s, k)[k] == s[k + 1];
      }
    }
    assert !LinkedAt(t, k);
  }
}
