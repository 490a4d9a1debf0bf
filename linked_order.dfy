/**
 * The ordering engine's specification: a playlist's `songs` array read as a
 * doubly-linked list through the nodes' `prev`/`next` ids and the playlist's
 * `head`/`tail`.
 *
 * Two invariants are defined. `Consistent` is the structural one a validator
 * would check by walking the links: every link resolves, head and tail are
 * the only null-prev and null-next nodes, the forward walk from head visits
 * every node once and the backward walk from tail mirrors it. `InArrayOrder`
 * is the stronger one the controller keeps: the links are exactly the array
 * neighbours. `InArrayOrderIsConsistent` connects them.
 *
 * Every mutation is specified as `Relink` of a new array order: append,
 * remove and move change the array, and the links are then those of the new
 * array.
 */
module LinkedOrder {
  import opened Common
  import opened PlaylistModel

  /** The node ids of `s`, in array order. */
  function Ids(s: seq<SongNode>): (ids: seq<NodeId>)
    ensures |ids| == |s|
    ensures forall i {:trigger ids[i]} :: 0 <= i < |s| ==> ids[i] == s[i].id
  {
    seq(|s|, i requires 0 <= i < |s| => s[i].id)
  }

  /** The song references of `s`, in array order. */
  function Songs(s: seq<SongNode>): (songs: seq<Option<SongId>>)
    ensures |songs| == |s|
    ensures forall i {:trigger songs[i]} :: 0 <= i < |s| ==> songs[i] == s[i].song
  {
    seq(|s|, i requires 0 <= i < |s| => s[i].song)
  }

  ghost predicate DistinctIds(s: seq<SongNode>)
  {
    forall i, j :: 0 <= i < j < |s| ==> s[i].id != s[j].id
  }

  /**
   * Lookup of a node by id in the array (`songs.id(x)`, `songs.find(...)`):
   * the index of the first node with that id, or -1 when there is none.
   */
  function Find(s: seq<SongNode>, id: NodeId): (k: int)
    ensures -1 <= k < |s|
    ensures 0 <= k ==> s[k].id == id && forall j :: 0 <= j < k ==> s[j].id != id
    ensures k == -1 ==> forall j :: 0 <= j < |s| ==> s[j].id != id
  {
    if |s| == 0 then -1
    else if s[0].id == id then 0
    else
      var k := Find(s[1..], id);
      if k == -1 then -1 else k + 1
  }

  lemma FindDistinct(s: seq<SongNode>, k: nat)
    requires DistinctIds(s) && k < |s|
    ensures Find(s, s[k].id) == k
  {
  }

  /** The id of the first node, or null for an empty array. */
  function First(s: seq<SongNode>): Option<NodeId>
  {
    if |s| == 0 then None else Some(s[0].id)
  }

  /** The id of the last node, or null for an empty array. */
  function Last(s: seq<SongNode>): Option<NodeId>
  {
    if |s| == 0 then None else Some(s[|s| - 1].id)
  }

  /** The id of the array neighbour before position `i`, null at the front. */
  function PrevAt(s: seq<SongNode>, i: nat): Option<NodeId>
    requires i < |s|
  {
    if i == 0 then None else Some(s[i - 1].id)
  }

  /** The id of the array neighbour after position `i`, null at the back. */
  function NextAt(s: seq<SongNode>, i: nat): Option<NodeId>
    requires i < |s|
  {
    if i == |s| - 1 then None else Some(s[i + 1].id)
  }

  /**
   * The invariant the controller keeps: ids are distinct, head and tail are
   * the first and last node, and every node links to its array neighbours.
   */
  ghost predicate InArrayOrder(s: seq<SongNode>, head: Option<NodeId>, tail: Option<NodeId>)
  {
    && DistinctIds(s)
    && head == First(s)
    && tail == Last(s)
    && forall i :: 0 <= i < |s| ==> LinkedAt(s, i)
  }

  /** Node `i` links to its array neighbours. */
  ghost predicate LinkedAt(s: seq<SongNode>, i: nat)
    requires i < |s|
  {
    s[i].prev == PrevAt(s, i) && s[i].next == NextAt(s, i)
  }

  /** In a list in array order, the node at `i` is found at `i` and links to its neighbours. */
  lemma NodeAt(s: seq<SongNode>, head: Option<NodeId>, tail: Option<NodeId>, i: nat)
    requires InArrayOrder(s, head, tail) && i < |s|
    ensures Find(s, s[i].id) == i
    ensures s[i].prev == PrevAt(s, i) && s[i].next == NextAt(s, i)
  {
    FindDistinct(s, i);
    assert LinkedAt(s, i);
  }

  /** A link that is null or names a node of `s`. */
  ghost predicate Resolves(s: seq<SongNode>, link: Option<NodeId>)
  {
    link.Some? ==> link.value in Ids(s)
  }

  /**
   * The ids met by following `next` links from `cur`, at most `fuel` steps;
   * the walk stops at a null link or at an id that names no node.
   */
  function Forward(s: seq<SongNode>, cur: Option<NodeId>, fuel: nat): seq<NodeId>
    decreases fuel
  {
    if fuel == 0 || cur.None? then []
    else
      var k := Find(s, cur.value);
      if k < 0 then [] else [cur.value] + Forward(s, s[k].next, fuel - 1)
  }

  /** The same walk along `prev` links. */
  function Backward(s: seq<SongNode>, cur: Option<NodeId>, fuel: nat): seq<NodeId>
    decreases fuel
  {
    if fuel == 0 || cur.None? then []
    else
      var k := Find(s, cur.value);
      if k < 0 then [] else [cur.value] + Backward(s, s[k].prev, fuel - 1)
  }

  function Reverse<T>(x: seq<T>): seq<T>
  {
    if |x| == 0 then [] else [x[|x| - 1]] + Reverse(x[..|x| - 1])
  }

  /** `w` lists every node of `s` exactly once. */
  ghost predicate VisitsEachOnce(w: seq<NodeId>, s: seq<SongNode>)
  {
    && |w| == |s|
    && (forall i, j :: 0 <= i < j < |w| ==> w[i] != w[j])
    && forall i :: 0 <= i < |s| ==> s[i].id in w
  }

  /**
   * The structural invariant of a linked playlist. A forward walk given one
   * step more than there are nodes must stop by itself after visiting each
   * node once, so it cannot run into a cycle.
   */
  ghost predicate Consistent(s: seq<SongNode>, head: Option<NodeId>, tail: Option<NodeId>)
  {
    && DistinctIds(s)
    && (forall i :: 0 <= i < |s| ==> Resolves(s, s[i].prev) && Resolves(s, s[i].next))
    && Resolves(s, head) && Resolves(s, tail)
    && (head.None? <==> |s| == 0)
    && (tail.None? <==> |s| == 0)
    && (forall i :: 0 <= i < |s| ==> (s[i].prev.None? <==> head == Some(s[i].id)))
    && (forall i :: 0 <= i < |s| ==> (s[i].next.None? <==> tail == Some(s[i].id)))
    && VisitsEachOnce(Forward(s, head, |s| + 1), s)
    && Backward(s, tail, |s| + 1) == Reverse(Forward(s, head, |s| + 1))
  }

  lemma {:induction false} ForwardFrom(s: seq<SongNode>, head: Option<NodeId>, tail: Option<NodeId>, k: nat, fuel: nat)
    requires InArrayOrder(s, head, tail)
    requires k < |s| && |s| - k <= fuel
    ensures Forward(s, Some(s[k].id), fuel) == Ids(s)[k..]
    decreases |s| - k
  {
    FindDistinct(s, k);
    assert LinkedAt(s, k);
    assert Forward(s, Some(s[k].id), fuel) == [s[k].id] + Forward(s, s[k].next, fuel - 1);
    if k == |s| - 1 {
      assert s[k].next == None;
      assert Ids(s)[k..] == [s[k].id];
    } else {
      assert s[k].next == Some(s[k + 1].id);
      ForwardFrom(s, head, tail, k + 1, fuel - 1);
      assert Ids(s)[k..] == [s[k].id] + Ids(s)[k + 1..];
    }
  }

  lemma {:induction false} BackwardFrom(s: seq<SongNode>, head: Option<NodeId>, tail: Option<NodeId>, k: nat, fuel: nat)
    requires InArrayOrder(s, head, tail)
    requires k < |s| && k < fuel
    ensures Backward(s, Some(s[k].id), fuel) == Reverse(Ids(s)[..k + 1])
  {
    FindDistinct(s, k);
    assert LinkedAt(s, k);
    assert Backward(s, Some(s[k].id), fuel) == [s[k].id] + Backward(s, s[k].prev, fuel - 1);
    var pre := Ids(s)[..k + 1];
    assert pre[k] == s[k].id;
    assert Reverse(pre) == [s[k].id] + Reverse(pre[..k]);
    if k == 0 {
      assert s[k].prev == None;
      assert pre[..0] == [];
    } else {
      assert s[k].prev == Some(s[k - 1].id);
      BackwardFrom(s, head, tail, k - 1, fuel - 1);
      assert pre[..k] == Ids(s)[..k];
    }
  }

  /**
   * The controller's invariant implies the structural one, and the forward
   * walk from head lists the nodes in array order: the `songs` array order is
   * the head-to-tail order.
   */
  lemma {:induction false} InArrayOrderIsConsistent(s: seq<SongNode>, head: Option<NodeId>, tail: Option<NodeId>)
    requires InArrayOrder(s, head, tail)
    ensures Consistent(s, head, tail)
    ensures Forward(s, head, |s| + 1) == Ids(s)
    ensures Backward(s, tail, |s| + 1) == Reverse(Ids(s))
  {
    var w := Forward(s, head, |s| + 1);
    if |s| > 0 {
      ForwardFrom(s, head, tail, 0, |s| + 1);
      BackwardFrom(s, head, tail, |s| - 1, |s| + 1);
      assert Ids(s)[0..] == Ids(s);
      assert Ids(s)[..|s|] == Ids(s);
    }
    assert w == Ids(s);
    forall i | 0 <= i < |s|
      ensures Resolves(s, s[i].prev) && Resolves(s, s[i].next)
      ensures s[i].prev.None? <==> head == Some(s[i].id)
      ensures s[i].next.None? <==> tail == Some(s[i].id)
      ensures s[i].id in w
    {
      assert LinkedAt(s, i);
      assert w[i] == s[i].id;
      if i > 0 { assert Ids(s)[i - 1] == s[i - 1].id; }
      if i < |s| - 1 { assert Ids(s)[i + 1] == s[i + 1].id; }
    }
    if |s| > 0 {
      assert Ids(s)[0] == s[0].id && Ids(s)[|s| - 1] == s[|s| - 1].id;
    }
    assert VisitsEachOnce(w, s);
  }

  /**
   * The links of every node rebuilt from the array order: the loop at the end
   * of a reorder, and the state every mutation must leave behind.
   */
  function Relink(s: seq<SongNode>): (r: seq<SongNode>)
    ensures Ids(r) == Ids(s) && Songs(r) == Songs(s)
  {
    seq(|s|, i requires 0 <= i < |s| => s[i].(prev := PrevAt(s, i), next := NextAt(s, i)))
  }

  /** Rebuilding the links of an array with distinct ids yields a list in array order. */
  lemma RelinkInArrayOrder(s: seq<SongNode>)
    requires DistinctIds(s)
    ensures InArrayOrder(Relink(s), First(s), Last(s))
  {
    var r := Relink(s);
    assert Ids(r) == Ids(s);
    forall i | 0 <= i < |r| ensures LinkedAt(r, i) {
      if i > 0 { assert Ids(r)[i - 1] == Ids(s)[i - 1]; }
      if i < |r| - 1 { assert Ids(r)[i + 1] == Ids(s)[i + 1]; }
    }
    forall i, j | 0 <= i < j < |r| ensures r[i].id != r[j].id {
      assert Ids(r)[i] == Ids(s)[i] && Ids(r)[j] == Ids(s)[j];
    }
  }

  /** A list already in array order is left as it is by a rebuild. */
  lemma RelinkKeepsLinkedList(s: seq<SongNode>, head: Option<NodeId>, tail: Option<NodeId>)
    requires InArrayOrder(s, head, tail)
    ensures Relink(s) == s
  {
    var r := Relink(s);
    forall i | 0 <= i < |s| ensures r[i] == s[i] {
      assert LinkedAt(s, i);
      assert r[i] == s[i].(prev := PrevAt(s, i), next := NextAt(s, i));
    }
  }

  /**
   * A rebuild reads only the ids and the songs, in array order: whatever the
   * links were before, the result is the same. This is why unlinking the
   * moved node before the rebuild has no effect on the reordered playlist.
   */
  lemma RelinkIgnoresLinks(a: seq<SongNode>, b: seq<SongNode>)
    requires Ids(a) == Ids(b) && Songs(a) == Songs(b)
    ensures Relink(a) == Relink(b)
  {
    assert |a| == |Ids(a)| == |Ids(b)| == |b|;
    var ra, rb := Relink(a), Relink(b);
    forall i | 0 <= i < |a| ensures ra[i] == rb[i] {
      assert Ids(a)[i] == Ids(b)[i] && Songs(a)[i] == Songs(b)[i];
      if i > 0 { assert Ids(a)[i - 1] == Ids(b)[i - 1]; }
      if i < |a| - 1 { assert Ids(a)[i + 1] == Ids(b)[i + 1]; }
    }
  }

  /** A sequence in array order is the rebuild of any array with its ids and songs. */
  lemma IsRelinkOf(t: seq<SongNode>, s: seq<SongNode>)
    requires InArrayOrder(t, First(t), Last(t))
    requires Ids(t) == Ids(s) && Songs(t) == Songs(s)
    ensures t == Relink(s)
  {
    RelinkKeepsLinkedList(t, First(t), Last(t));
    RelinkIgnoresLinks(t, s);
  }

  function RemoveAt<T>(x: seq<T>, k: nat): seq<T>
    requires k < |x|
  {
    x[..k] + x[k + 1..]
  }

  function InsertAt<T>(x: seq<T>, j: nat, v: T): seq<T>
    requires j <= |x|
  {
    x[..j] + [v] + x[j..]
  }

  /** The array after moving the element at `k` to position `j`. */
  function MoveTo<T>(x: seq<T>, k: nat, j: nat): seq<T>
    requires k < |x| && j < |x|
  {
    InsertAt(RemoveAt(x, k), j, x[k])
  }

  /** Append: the new node goes to the back of the array. */
  function AppendNode(s: seq<SongNode>, n: SongNode): seq<SongNode>
  {
    Relink(s + [n])
  }

  /** Remove: the node at `k` leaves the array. */
  function RemoveNode(s: seq<SongNode>, k: nat): seq<SongNode>
    requires k < |s|
  {
    Relink(RemoveAt(s, k))
  }

  /** Move: the node at `k` is taken out and put back at position `j`. */
  function MoveNode(s: seq<SongNode>, k: nat, j: nat): seq<SongNode>
    requires k < |s| && j < |s|
  {
    Relink(MoveTo(s, k, j))
  }

  lemma RemoveAtIndex<T>(x: seq<T>, k: nat)
    requires k < |x|
    ensures |RemoveAt(x, k)| == |x| - 1
    ensures forall i :: 0 <= i < |x| - 1 ==> RemoveAt(x, k)[i] == x[if i < k then i else i + 1]
  {
  }

  lemma RemoveAtDistinct(s: seq<SongNode>, k: nat)
    requires DistinctIds(s) && k < |s|
    ensures DistinctIds(RemoveAt(s, k))
    ensures s[k].id !in Ids(RemoveAt(s, k))
  {
    var t := RemoveAt(s, k);
    forall i | 0 <= i < |t| ensures t[i] == s[if i < k then i else i + 1] {}
  }

  lemma InsertAtDistinct(s: seq<SongNode>, j: nat, n: SongNode)
    requires DistinctIds(s) && j <= |s| && n.id !in Ids(s)
    ensures DistinctIds(InsertAt(s, j, n))
  {
    var t := InsertAt(s, j, n);
    forall i | 0 <= i < |s| ensures s[i].id != n.id {
      assert Ids(s)[i] == s[i].id;
    }
    forall i | 0 <= i < |t| && i != j ensures t[i] == s[if i < j then i else i - 1] {}
  }

  /**
   * Appending a fresh node: it becomes the tail and its `prev` is the old
   * tail; the old tail's `next` becomes the new node; the head stays unless
   * the list was empty, in which case the new node is both head and tail
   * with both links null; no other node changes.
   */
  lemma AppendLinks(s: seq<SongNode>, head: Option<NodeId>, tail: Option<NodeId>, n: SongNode)
    requires InArrayOrder(s, head, tail)
    requires n.id !in Ids(s) && n.prev == None && n.next == None
    ensures InArrayOrder(AppendNode(s, n), if |s| == 0 then Some(n.id) else head, Some(n.id))
    ensures Ids(AppendNode(s, n)) == Ids(s) + [n.id]
    ensures AppendNode(s, n)[|s|] == n.(prev := tail)
    ensures |s| > 0 ==> AppendNode(s, n)[|s| - 1] == s[|s| - 1].(next := Some(n.id))
    ensures forall i :: 0 <= i < |s| - 1 ==> AppendNode(s, n)[i] == s[i]
  {
    var t := s + [n];
    InsertAtDistinct(s, |s|, n);
    assert InsertAt(s, |s|, n) == t;
    var r := AppendNode(s, n);
    assert Ids(r) == Ids(t) && Ids(t) == Ids(s) + [n.id];
    forall i | 0 <= i < |s| - 1 ensures r[i] == s[i] {
      assert LinkedAt(s, i);
    }
    if |s| > 0 {
      assert LinkedAt(s, |s| - 1);
    }
  }

  /**
   * Removing the node at `k` leaves a list in array order that lists the
   * other ids in their old order.
   */
  lemma RemoveLinks(s: seq<SongNode>, head: Option<NodeId>, tail: Option<NodeId>, k: nat)
    requires InArrayOrder(s, head, tail) && k < |s|
    ensures InArrayOrder(RemoveNode(s, k), First(RemoveNode(s, k)), Last(RemoveNode(s, k)))
    ensures Ids(RemoveNode(s, k)) == RemoveAt(Ids(s), k)
  {
    var t := RemoveAt(s, k);
    RemoveAtDistinct(s, k);
    RemoveAtIndex(s, k);
    RemoveAtIndex(Ids(s), k);
    assert Ids(RemoveNode(s, k)) == Ids(t);
  }

  /**
   * How head and tail move in the four cases of a removal: head advances to
   * the removed node's `next` when it was the head, tail retreats to its
   * `prev` when it was the tail, otherwise both stay; removing the only node
   * leaves an empty list with null head and tail.
   */
  lemma RemoveMovesEnds(s: seq<SongNode>, head: Option<NodeId>, tail: Option<NodeId>, k: nat)
    requires InArrayOrder(s, head, tail) && k < |s|
    ensures |s| == 1 ==> RemoveNode(s, k) == [] && First(RemoveNode(s, k)) == None && Last(RemoveNode(s, k)) == None
    ensures First(RemoveNode(s, k)) == if k == 0 then s[k].next else head
    ensures Last(RemoveNode(s, k)) == if k == |s| - 1 then s[k].prev else tail
  {
    var r := RemoveNode(s, k);
    assert LinkedAt(s, k);
    if |r| > 0 {
      var n := |s|;
      RemoveNodeAt(s, head, tail, k, 0);
      assert r[0].id == if k == 0 then s[1].id else s[0].id;
      RemoveNodeAt(s, head, tail, k, n - 2);
      assert r[n - 2].id == if k == n - 1 then s[n - 2].id else s[n - 1].id;
      assert Last(r) == Some(r[n - 2].id);
    }
  }

  /** What a removal leaves at position `i` of the array. */
  lemma RemoveNodeAt(s: seq<SongNode>, head: Option<NodeId>, tail: Option<NodeId>, k: nat, i: nat)
    requires InArrayOrder(s, head, tail) && k < |s| && i < |s| - 1
    ensures |RemoveNode(s, k)| == |s| - 1
    ensures RemoveNode(s, k)[i] ==
      if i + 1 < k then s[i]
      else if i + 1 == k then s[i].(next := s[k].next)
      else if i == k then s[i + 1].(prev := s[k].prev)
      else s[i + 1]
  {
    var t := RemoveAt(s, k);
    RemoveAtIndex(s, k);
    assert LinkedAt(s, k);
    var r := Relink(t);
    assert r[i] == t[i].(prev := PrevAt(t, i), next := NextAt(t, i));
    if i < k {
      assert t[i] == s[i] && LinkedAt(s, i);
      if i > 0 { assert t[i - 1] == s[i - 1]; }
      if i + 1 < k { assert t[i + 1] == s[i + 1]; }
      else if i + 1 < |t| { assert t[i + 1] == s[i + 2]; }
    } else {
      assert t[i] == s[i + 1] && LinkedAt(s, i + 1);
      if i > k { assert t[i - 1] == s[i]; }
      else if i > 0 { assert t[i - 1] == s[i - 1]; }
      if i + 1 < |t| { assert t[i + 1] == s[i + 2]; }
    }
  }

  /**
   * The neighbours of the removed node are relinked to each other: the node
   * before it now points forward to the removed node's `next`, the node after
   * it points back to its `prev`; every other node is unchanged.
   */
  lemma RemoveRelinksNeighbours(s: seq<SongNode>, head: Option<NodeId>, tail: Option<NodeId>, k: nat)
    requires InArrayOrder(s, head, tail) && k < |s|
    ensures |RemoveNode(s, k)| == |s| - 1
    ensures 0 < k ==> RemoveNode(s, k)[k - 1] == s[k - 1].(next := s[k].next)
    ensures k < |s| - 1 ==> RemoveNode(s, k)[k] == s[k + 1].(prev := s[k].prev)
    ensures forall i :: 0 <= i < k - 1 ==> RemoveNode(s, k)[i] == s[i]
    ensures forall i :: k + 1 <= i < |s| - 1 ==> RemoveNode(s, k)[i] == s[i + 1]
  {
    RemoveAtIndex(s, k);
    forall i | 0 <= i < |s| - 1 && (i < k - 1 || k + 1 <= i)
      ensures RemoveNode(s, k)[i] == s[if i < k then i else i + 1]
    {
      RemoveNodeAt(s, head, tail, k, i);
    }
    if 0 < k { RemoveNodeAt(s, head, tail, k, k - 1); }
    if k < |s| - 1 { RemoveNodeAt(s, head, tail, k, k); }
  }

  /** After a removal no node, and neither head nor tail, refers to the removed id. */
  lemma RemoveForgetsNode(s: seq<SongNode>, head: Option<NodeId>, tail: Option<NodeId>, k: nat)
    requires InArrayOrder(s, head, tail) && k < |s|
    ensures s[k].id !in Ids(RemoveNode(s, k))
    ensures |RemoveNode(s, k)| == |s| - 1
    ensures forall i :: 0 <= i < |RemoveNode(s, k)| ==>
      RemoveNode(s, k)[i].prev != Some(s[k].id) && RemoveNode(s, k)[i].next != Some(s[k].id)
    ensures First(RemoveNode(s, k)) != Some(s[k].id) && Last(RemoveNode(s, k)) != Some(s[k].id)
  {
    RemoveAtDistinct(s, k);
    var r := RemoveNode(s, k);
    var x := s[k].id;
    assert Ids(r) == Ids(RemoveAt(s, k));
    forall i | 0 <= i < |r| ensures r[i].prev != Some(x) && r[i].next != Some(x) {
      assert LinkedAt(r, i);
      if i > 0 { assert Ids(r)[i - 1] == r[i - 1].id; }
      if i < |r| - 1 { assert Ids(r)[i + 1] == r[i + 1].id; }
    }
    if |r| > 0 {
      assert Ids(r)[0] == r[0].id && Ids(r)[|r| - 1] == r[|r| - 1].id;
    }
  }

  /** Appending a node and then removing that same node restores the playlist. */
  lemma {:induction false} AppendThenRemove(s: seq<SongNode>, head: Option<NodeId>, tail: Option<NodeId>, n: SongNode)
    requires InArrayOrder(s, head, tail) && n.id !in Ids(s)
    ensures |AppendNode(s, n)| == |s| + 1
    ensures RemoveNode(AppendNode(s, n), |s|) == s
  {
    var a := AppendNode(s, n);
    assert Ids(a) == Ids(s + [n]);
    var back := RemoveAt(a, |s|);
    assert back == a[..|s|];
    assert Ids(back) == Ids(s) && Songs(back) == Songs(s) by {
      forall i | 0 <= i < |s| ensures back[i].id == s[i].id && back[i].song == s[i].song {
        assert Ids(a)[i] == Ids(s + [n])[i] && Songs(a)[i] == Songs(s + [n])[i];
      }
    }
    RelinkIgnoresLinks(back, s);
    RelinkKeepsLinkedList(s, head, tail);
  }

  /**
   * Moving the element at `k` to position `j` puts it at `j`, keeps the
   * length and keeps every other element in its relative order: taking the
   * moved element out again gives the array with it removed.
   */
  lemma MoveToPlaces<T>(x: seq<T>, k: nat, j: nat)
    requires k < |x| && j < |x|
    ensures |MoveTo(x, k, j)| == |x|
    ensures MoveTo(x, k, j)[j] == x[k]
    ensures RemoveAt(MoveTo(x, k, j), j) == RemoveAt(x, k)
    ensures multiset(MoveTo(x, k, j)) == multiset(x)
  {
    var y := RemoveAt(x, k);
    var m := MoveTo(x, k, j);
    assert m[..j] == y[..j] && m[j + 1..] == y[j..];
    assert x == x[..k] + [x[k]] + x[k + 1..];
    calc {
      multiset(m);
      multiset(y[..j]) + multiset{x[k]} + multiset(y[j..]);
      { assert y == y[..j] + y[j..]; }
      multiset(y) + multiset{x[k]};
      multiset(x[..k]) + multiset(x[k + 1..]) + multiset{x[k]};
      { assert x == x[..k] + [x[k]] + x[k + 1..]; }
      multiset(x);
    }
  }

  /** Moving an element to the position it already holds changes nothing. */
  lemma MoveToOwnIndex<T>(x: seq<T>, k: nat)
    requires k < |x|
    ensures MoveTo(x, k, k) == x
  {
    assert RemoveAt(x, k)[..k] == x[..k];
    assert RemoveAt(x, k)[k..] == x[k + 1..];
  }

  /** Where the element at position `i` of a moved array came from. */
  function MoveSource(k: nat, j: nat, i: nat): nat
  {
    if i == j then k
    else
      var m := if i < j then i else i - 1;
      if m < k then m else m + 1
  }

  lemma MoveToIndex<T>(x: seq<T>, k: nat, j: nat)
    requires k < |x| && j < |x|
    ensures |MoveTo(x, k, j)| == |x|
    ensures forall i :: 0 <= i < |x| ==> MoveSource(k, j, i) < |x| && MoveTo(x, k, j)[i] == x[MoveSource(k, j, i)]
  {
    RemoveAtIndex(x, k);
  }

  /** A reordered playlist is again in array order, with head and tail its first and last node. */
  lemma MoveLinks(s: seq<SongNode>, head: Option<NodeId>, tail: Option<NodeId>, k: nat, j: nat)
    requires InArrayOrder(s, head, tail) && k < |s| && j < |s|
    ensures |MoveNode(s, k, j)| == |s|
    ensures InArrayOrder(MoveNode(s, k, j), First(MoveNode(s, k, j)), Last(MoveNode(s, k, j)))
  {
    var m := MoveTo(s, k, j);
    assert DistinctIds(m) by {
      RemoveAtDistinct(s, k);
      InsertAtDistinct(RemoveAt(s, k), j, s[k]);
    }
    RelinkInArrayOrder(m);
    var r := Relink(m);
    assert |r| == |m| == |s|;
    assert r[0].id == m[0].id && r[|r| - 1].id == m[|m| - 1].id;
  }

  /**
   * A reordered playlist has the moved node at the new index, and the other
   * nodes in their old relative order: taking the moved node out of either
   * order gives the same ids.
   */
  lemma MovePlaces(s: seq<SongNode>, head: Option<NodeId>, tail: Option<NodeId>, k: nat, j: nat)
    requires InArrayOrder(s, head, tail) && k < |s| && j < |s|
    ensures |MoveNode(s, k, j)| == |s|
    ensures MoveNode(s, k, j)[j].id == s[k].id && MoveNode(s, k, j)[j].song == s[k].song
    ensures RemoveAt(Ids(MoveNode(s, k, j)), j) == RemoveAt(Ids(s), k)
    ensures multiset(Ids(MoveNode(s, k, j))) == multiset(Ids(s))
  {
    var m := MoveTo(s, k, j);
    var r := Relink(m);
    MoveToIndex(s, k, j);
    assert r[j] == m[j].(prev := PrevAt(m, j), next := NextAt(m, j));
    assert Ids(r) == MoveTo(Ids(s), k, j) by {
      MoveToIndex(Ids(s), k, j);
      forall i | 0 <= i < |s| ensures Ids(r)[i] == MoveTo(Ids(s), k, j)[i] {
        assert Ids(r)[i] == Ids(m)[i] == m[i].id;
        assert MoveTo(Ids(s), k, j)[i] == Ids(s)[MoveSource(k, j, i)];
      }
    }
    MoveToPlaces(Ids(s), k, j);
  }

  /** Reordering a node to the index it already holds leaves the playlist as it is. */
  lemma MoveToOwnIndexIsNoop(s: seq<SongNode>, head: Option<NodeId>, tail: Option<NodeId>, k: nat)
    requires InArrayOrder(s, head, tail) && k < |s|
    ensures MoveNode(s, k, k) == s
  {
    MoveToOwnIndex(s, k);
    RelinkKeepsLinkedList(s, head, tail);
  }
}
