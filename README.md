# Rhythmic Vibes playlist engine, modelled in Dafny

Rhythmic Vibes is a music web application. Its backend stores each playlist
as one document. The document embeds an array of song nodes, and each node
carries its own id, the song it refers to, and `prev`/`next` links to other
nodes of the same array. The playlist's `head` and `tail` name the first and
last node. The order a user sees is the order of the links from `head`, not
the array order. The controller keeps the two orders equal by appending at
the back and unlinking before removal. Its reorder is meant to rebuild every
link from the array order, but as written it never succeeds, and as written
a private playlist cannot be read, not even by its owner (see
"## Findings"). Beside the playlists, the user controller keeps a per-user list of
favorite song ids, updates profile fields conditionally, and checks a
registration before creating a user.

The model has five modules:

- `Common` (common.dfy): ids, `Option`, `Outcome`, `Result`, JavaScript truthiness of an optional string, and the `req.user` object the authentication middleware attaches (`RequestUser`, built by `Authenticated`), with `toString()` and strict equality on id values.
- `PlaylistModel` (playlist_model.dfy): the song-node and playlist schemas with their defaults and required fields.
- `LinkedOrder` (linked_order.dfy): the list invariant and the list operations as values. `InArrayOrder` says the links follow the array order. `Consistent` is the structural invariant: links resolve, there is exactly one node without `prev` and one without `next`, the forward walk from `head` visits every node once, and the backward walk from `tail` is its reverse. Every mutation is specified as `Relink` of the new array order, meaning every link is rebuilt from array neighbours.
- `PlaylistController` (playlist_controller.dfy): a `Playlist` class holding the document's fields and its invariant `Valid()`, and one module-level method per controller function. `UpdatePlaylist`, `AddSong`, `RemoveSong` and `ReorderSongs` take the loaded document as `p: Playlist?` and change its fields in place under `modifies p`. `GetPlaylist`, `GetPlaylistAsWritten` and `DeletePlaylist` take `p: Playlist?` and only read it, and both reads share the walk `ReadInOrder`. `CreatePlaylist` returns a new document. `Unlink` and `RebuildLinks` are steps of `RemoveSong` and `ReorderSongs` on a loaded, non-null document. `GetPlaylistAsWritten` and `ReorderAsWritten` model the read and the reorder as written, against the `req.user` the middleware builds. `ReorderAsWritten` works on a value `WrittenState` that also carries the playlist-level `prev`/`next` paths the handler uses.
- `UserController` (user_controller.dfy): a `User` class and the favorites, profile and registration operations.

A `findById` that finds nothing is a `null` argument. The songs that exist
are a set `catalog`. The ObjectId that Mongoose creates in the server process when
`songs.create` builds a new node is a parameter `newId`, required to be fresh. The usernames and emails already
stored are sets given to the operation. The bcrypt hash of a new password
is a parameter too.

## Model

| member | source | states |
|---|---|---|
| PlaylistModel.ValidationErrors | backend/models/Playlist.js:10-15 | a missing or empty name and a missing owner are each reported, and nothing else is |
| PlaylistModel.Build | backend/models/Playlist.js:9-18 | creation succeeds exactly when the name is non-empty and the owner is given; fields are copied; `isPublic`, `isFavorite` default to false and `tags` to empty |
| PlaylistModel.CreateSongNode | backend/controllers/playlistController.js:6-12 | a new node refers to its song and has null `prev` and `next` |
| LinkedOrder.Find | backend/controllers/playlistController.js:63 | the lookup by node id returns the first node with that id, or -1 exactly when no node has it |
| LinkedOrder.NodeAt | backend/controllers/playlistController.js:300-314 | in a valid list, the node at a position is found there and its links name its array neighbours |
| LinkedOrder.ForwardFrom | backend/controllers/playlistController.js:59-68 | following `next` from any node of a valid list yields the ids from that node to the end of the array |
| LinkedOrder.BackwardFrom | backend/models/Playlist.js:5-6 | following `prev` from any node yields the ids back to the front of the array, reversed |
| LinkedOrder.InArrayOrderIsConsistent | backend/controllers/playlistController.js:59-68 | a list whose links follow the array order is consistent: the walk from `head` visits every node exactly once, ends after the tail, and the walk back from `tail` is its reverse |
| LinkedOrder.Relink | backend/controllers/playlistController.js:384-392 | rebuilding the links keeps every node's id and song |
| LinkedOrder.RelinkInArrayOrder | backend/controllers/playlistController.js:384-393 | rebuilt links, with head and tail set to the first and last node, satisfy the list invariant |
| LinkedOrder.RelinkKeepsLinkedList | backend/controllers/playlistController.js:384-393 | rebuilding the links of a valid list changes nothing |
| LinkedOrder.RelinkIgnoresLinks | backend/controllers/playlistController.js:366-393 | the rebuilt list depends only on the array order of ids and songs, so unlinking the node before the rebuild has no effect on the result |
| LinkedOrder.IsRelinkOf | backend/controllers/playlistController.js:384-393 | a valid list is the only one with its ids and songs in that order |
| LinkedOrder.AppendLinks | backend/controllers/playlistController.js:246-261 | appending keeps the invariant; the new node becomes tail (and head of an empty list), links back to the old tail, the old tail's `next` names it, and no other node changes |
| LinkedOrder.RemoveLinks | backend/controllers/playlistController.js:308-333 | removing a node keeps the invariant and deletes exactly its id from the order |
| LinkedOrder.RemoveMovesEnds | backend/controllers/playlistController.js:316-330 | removing the head moves head to its `next`, removing the tail moves tail to its `prev`, removing the only node empties both |
| LinkedOrder.RemoveNodeAt | backend/controllers/playlistController.js:308-314 | after a removal each position holds its old node, or its old successor, with only the two former neighbours' links changed |
| LinkedOrder.RemoveRelinksNeighbours | backend/controllers/playlistController.js:308-314 | the removed node's neighbours now link to each other, and every other node is unchanged |
| LinkedOrder.RemoveForgetsNode | backend/controllers/playlistController.js:333 | after a removal no node, link, head or tail refers to the removed id, and the list is one node shorter |
| LinkedOrder.AppendThenRemove | backend/controllers/playlistController.js:246-333 | removing a node just appended gives back the original list |
| LinkedOrder.MoveToPlaces | backend/controllers/playlistController.js:379-380 | the two splices place the moved element at the new index and keep the other elements, in order, as a permutation |
| LinkedOrder.MoveToOwnIndex | backend/controllers/playlistController.js:379-380 | moving an element to its own index changes nothing |
| LinkedOrder.MoveLinks | backend/controllers/playlistController.js:379-393 | a move keeps the invariant, with head and tail at the new first and last node |
| LinkedOrder.MovePlaces | backend/controllers/playlistController.js:379-380 | after a move the node sits at the new index and the other ids keep their relative order |
| LinkedOrder.MoveToOwnIndexIsNoop | backend/controllers/playlistController.js:379-393 | moving a node to its own index leaves the list as it was |
| PlaylistController.Playlist.constructor | backend/models/Playlist.js:16-18 | a new playlist has no songs and null head and tail, and is valid |
| PlaylistController.Playable | backend/controllers/playlistController.js:63-65 | a read returns at most one song per node, and only songs that exist |
| PlaylistController.PlayableAllPresent | backend/controllers/playlistController.js:63-65 | when every node's song exists, a read returns exactly those songs in order |
| PlaylistController.ReadInOrder | backend/controllers/playlistController.js:58-68 | on a valid list the walk from `head` terminates and returns the visible songs in head-to-tail order, which is the array order; an empty list reads as empty |
| PlaylistController.GetPlaylist | backend/controllers/playlistController.js:34-69 | corrected access check: a private playlist is readable only by its owner, a public one by anyone; the read returns the visible songs in head-to-tail order, which is the array order, and an empty list reads as empty |
| PlaylistController.GetPlaylistAsWritten | backend/controllers/playlistController.js:34-94 | as written: a public playlist is read; a private one is a server error whenever the requester has no `_id`, so for every request the middleware lets through only public playlists can be read; with an `_id` it would be owner-only |
| PlaylistController.CreatePlaylist | backend/controllers/playlistController.js:97-131 | creation succeeds exactly when the name is non-empty; the requester owns the new, empty, valid playlist; otherwise the validation error names the name |
| PlaylistController.UpdatePlaylist | backend/controllers/playlistController.js:135-175 | only the owner may update; a name is taken only when non-empty, the other fields when given; owner and songs never change; failures change nothing |
| PlaylistController.DeletePlaylist | backend/controllers/playlistController.js:178-209 | deletion is allowed exactly for the owner of an existing playlist |
| PlaylistController.AddSong | backend/controllers/playlistController.js:212-275 | only the owner adds, only existing songs; the result is the specified append, the new node is tail, head is set for an empty list, and the list stays valid; failures change nothing |
| PlaylistController.Pull | backend/controllers/playlistController.js:333 | the pulled array holds no node with the id |
| PlaylistController.PullDistinct | backend/controllers/playlistController.js:333 | with distinct ids, pulling an id removes exactly the node at its position |
| PlaylistController.Unlink | backend/controllers/playlistController.js:308-330 | the four cases relink exactly the two neighbours and move head or tail when the removed node is at an end |
| PlaylistController.RemoveSurgery | backend/controllers/playlistController.js:308-333 | unlinking and then pulling the node gives the specified removal |
| PlaylistController.RemoveSong | backend/controllers/playlistController.js:278-347 | only the owner removes, only a node of the playlist; the result is the specified removal, one node shorter, without the id, and still valid; failures change nothing |
| PlaylistController.RebuildLinks | backend/controllers/playlistController.js:384-393 | the rebuild loop sets every link from the array neighbours and head and tail from the ends |
| PlaylistController.ReorderSongs | backend/controllers/playlistController.js:350-399 | corrected reorder: only the owner; an unknown node or an index outside the list is an invalid operation with no change; otherwise the node lands at the new index, the others keep their order, and the list stays valid |
| PlaylistController.RemoveInserted | backend/controllers/playlistController.js:379-380 | splicing an element in at an index and out again at that index gives back the array |
| PlaylistController.RebuildMaps | backend/controllers/playlistController.js:382-390 | the written rebuild loop gives an id a `prev` entry exactly when it sits after the front, naming the id before one such position, and a `next` entry exactly when it sits before the back, naming the id after; only elements of the array become keys |
| PlaylistController.PrevNeighboursExact | backend/controllers/playlistController.js:384-389 | with distinct ids the rebuilt `prev` map sends every node but the first to its array predecessor, and the first has no entry |
| PlaylistController.NextNeighboursExact | backend/controllers/playlistController.js:384-389 | with distinct ids the rebuilt `next` map sends every node but the last to its array successor, and the last has no entry |
| PlaylistController.WrittenSteps | backend/controllers/playlistController.js:366-393 | with the maps present, the written steps only move nodes: the array is the old one with one element spliced out and `inserted` spliced in at the new index, every other node keeps its own `prev`/`next`, the maps are rebuilt with the array neighbours, and head and tail are the ends |
| PlaylistController.ReorderAsWritten | backend/controllers/playlistController.js:350-399 | as written: the owner test compares a string with the requester's `id`, so every request the middleware lets through, the owner's included, is refused with nothing changed; past that test, a miss or bad index would be an invalid operation, and on a stored playlist (undeclared `prev`/`next`) a hit would be a server error with nothing saved; only with the maps present would it succeed, and then the nodes keep their stale links |
| PlaylistController.StaleLinksBreakOrder | backend/controllers/playlistController.js:366-393 | removing any node of a valid list and putting any node back at another index, while keeping the nodes' own links as the written steps do, cannot give a valid list for any head and tail |
| UserController.User.constructor | backend/models/User.js:3-15 | a new user has role `user`, status `active`, no favorites and the default picture |
| UserController.Without | backend/controllers/userController.js:190 | the filter removes every occurrence of the id, keeps every other id, and keeps every other id's count |
| UserController.WithoutConcat | backend/controllers/userController.js:190 | the filter distributes over concatenation, so the kept ids stay in their original order |
| UserController.WithoutAbsent | backend/controllers/userController.js:190 | filtering an id that is not present changes nothing |
| UserController.AddThenRemove | backend/controllers/userController.js:171-190 | removing a favorite just added gives back the previous list |
| UserController.WithoutNoDuplicates | backend/controllers/userController.js:190 | filtering keeps a duplicate-free list duplicate-free |
| UserController.AddToFavorites | backend/controllers/userController.js:158-178 | a missing user, a missing song or a song already present fails with no change; otherwise the id is appended, earlier ids are kept, other fields unchanged, and a duplicate-free list stays duplicate-free |
| UserController.RemoveFromFavorites | backend/controllers/userController.js:180-197 | a missing user or a song not present fails with no change; otherwise the list is the order-keeping filter, the id is gone and the list is shorter |
| UserController.UpdateProfile | backend/controllers/userController.js:104-139 | username and email change only when given, different and not taken, username checked first; a taken value fails with nothing stored; the picture changes only when given |
| UserController.ValidateRegistration | backend/controllers/userController.js:18-23 | registration fails for missing fields exactly when a field is missing or empty, and as an existing user exactly when the username or email is taken |
| UserController.Register | backend/controllers/userController.js:14-32 | a user is created exactly when the checks pass, with the given fields, the password hash, role `user`, status `active`, no favorites and the default picture |

## Left out

- Persistence: `findById`, `save`, `remove` and `populate` are not modelled as database calls. A document is the object passed in, a miss is `null`, and `populate` is membership in the `catalog` set.
- HTTP status codes and messages become error constructors. `async`, the `try`/`catch` around each handler, and concurrent requests on one document are not modelled.
- Timestamps (`createdAt`, `updatedAt`, `lastLogin`) are clock reads and are left out.
- bcrypt and JWT are foreign calls. The password hash is a parameter, and the token `register` returns is left out.
- ObjectId generation is left out. The new node's id is a parameter required to be fresh.
- `getUserPlaylists` is a query with field selection and is left out. The user controller's `login`, `logout`, `getProfile`, `changePassword`, `getFavorites` and `deactivateAccount` are left out too: they make no list or field decisions beyond lookup, hashing and one fixed assignment.
- The read response's other fields are not modelled. `GetPlaylist` and `GetPlaylistAsWritten` return only the ordered songs.
- `PlaylistController.UpdatePlaylist`: a JSON `null` description or flag is modelled as absent, and Mongoose casting of non-boolean flags is not modelled.
- `PlaylistController.GetPlaylist`, `GetPlaylistAsWritten`, `UpdatePlaylist`, `AddSong`, `RemoveSong` and `ReorderSongs` require `Valid()` on entry. `Valid()` asks for more than a well-formed list: the links must follow the array order. A list linked in another order can be consistent, and the source would read and change it correctly, but no controller path produces one. `createPlaylist` starts empty. `addSong` pushes at the back and links after the tail. `removeSong` unlinks and pulls, keeping the relative order. The reorder never saves. Nothing else in the backend writes `songs`, `head` or `tail`. So `Valid()` holds in every reachable state, and the create, update, add and remove methods are proved to keep it. Lists with broken links are not modelled either. On those the source loops forever in the read or throws on a missing neighbour.
- `PlaylistController.GetPlaylist` and `PlaylistController.ReorderSongs` are the corrected behaviour. They take the authenticated user's id and compare it with the owner directly. `ReorderSongs` takes the node id, where the source takes a value matched against the node array with `indexOf`. The as-written behaviours are `GetPlaylistAsWritten` and `ReorderAsWritten`. `ReorderAsWritten` keys the `prev`/`next` maps by node id; in the source the keys are whatever the array elements stringify to, which the model does not follow, and the element spliced back in from `songId` is a parameter `inserted`.
- `UserController.User.constructor` and `UserController.Register`: the `playlists` list (default empty) and `loginAttempts` (default 0) of the user schema are not modelled, since no modelled operation reads or writes them.
- Uniqueness of usernames and emails relies on database indexes. The model checks only what the controller checks, against the given sets.

## Findings

| source | as written | input that shows it | evidently intended | confidence | as-written member | corrected member |
|---|---|---|---|---|---|---|
| backend/controllers/playlistController.js:51 | the access check for a private playlist calls `req.user._id.toString()`, but the `req.user` that the authentication middleware builds (backend/middleware/authMiddleware.js:41-46) has `id` and no `_id`, and every playlist route goes through that middleware. The call throws, and the handler's `catch` answers with a server error | any request, the owner's included, for a private playlist: server error instead of the songs | compare the owner with `req.user.id.toString()`, as the other handlers do, so that the owner can read a private playlist and others are refused | high, not executed | PlaylistController.GetPlaylistAsWritten | PlaylistController.GetPlaylist |
| backend/controllers/playlistController.js:357-393 | two failures in a row. First, line 357 compares `playlist.user.toString()`, a string, with `req.user.id`, an ObjectId, using `!==`. A string is never strictly equal to an object, so every request is refused as unauthorized, the owner's included. Second, if that test compared correctly, the handler would read `playlist.prev[songId]` and `playlist.next[songId]`, but the schema declares no `prev` or `next` path on a playlist: a request that passes the index checks throws and answers with a server error. The unlink block and the rebuild loop also write to those undeclared maps, not to the nodes' links, so even with the maps present the nodes keep stale links (`WrittenSteps`, `StaleLinksBreakOrder`) | the owner's request to move a song of their own playlist: refused as unauthorized; with the owner test fixed, a request that passes the index checks throws at line 367 and answers server error | compare the owner with `req.user.id.toString()`, move the node to `newIndex`, rebuild every node's `prev`/`next` and `head`/`tail` from the new array order, and save; `ReorderSongs` corrects both failures | high, not executed | PlaylistController.ReorderAsWritten | PlaylistController.ReorderSongs |
