/** Teardown of the mansion map: every room is released after both of the
    subtrees below it. Only the order of release is modelled. */
module Teardown {
  import opened Rooms

  /** The names of the rooms of a tree, one per room, in no order. */
  ghost function NameBag(t: Option<Tree>): multiset<string> {
    match t
    case None => multiset{}
    case Some(n) => multiset{n.name} + NameBag(n.left) + NameBag(n.right)
  }

  /** Room names of a tree in post-order: left subtree, right subtree, room. */
  function PostOrder(t: Option<Tree>): (names: seq<string>)
    ensures |names| == Size(t)
    ensures t.Some? ==> names[|names| - 1] == t.value.name
  {
    match t
    case None => []
    case Some(n) => PostOrder(n.left) + PostOrder(n.right) + [n.name]
  }

  /** The post-order holds exactly the names of the tree's rooms, each as
      often as rooms bear it. */
  lemma {:induction false} PostOrderNames(t: Option<Tree>)
    ensures multiset(PostOrder(t)) == NameBag(t)
  {
    match t
    case None =>
    case Some(n) =>
      PostOrderNames(n.left);
      PostOrderNames(n.right);
      assert PostOrder(t) == PostOrder(n.left) + PostOrder(n.right) + [n.name];
  }

  /** The names of a sequence of heap rooms, read from the rooms themselves.
      `Exploration.LogOf` is the same for tree values; this one is kept
      because a released room is an object, and the names must come from
      the objects that are released, not from their values. */
  function NamesOf(rooms: seq<Room>): (names: seq<string>)
    ensures |names| == |rooms|
    ensures forall k :: 0 <= k < |rooms| ==> names[k] == rooms[k].name
  {
    seq(|rooms|, k requires 0 <= k < |rooms| => rooms[k].name)
  }

  /** `freed` is a release order for the tree below `root`: empty for a null
      tree; otherwise every room of the tree exactly once, each room's own
      subtree inside the tree, and each room after every room below it. */
  ghost predicate ReleaseOrder(root: Room?, freed: seq<Room>)
    reads root, set k | 0 <= k < |freed| :: freed[k]
  {
    && (root == null ==> freed == [])
    && (root != null ==> forall n :: n in freed ==> n in root.Repr)
    && (root != null ==> forall n :: n in root.Repr ==> n in freed)
    && (root != null ==> forall k :: 0 <= k < |freed| ==> freed[k].Repr <= root.Repr)
    && (forall i, j :: 0 <= i < j < |freed| ==> freed[i] != freed[j])
    && (forall i, j :: 0 <= i < |freed| && 0 <= j < |freed| && freed[j] in freed[i].Repr ==> j <= i)
  }

  /** The rooms of the tree below `root` in the order they are released:
      the left subtree, then the right subtree, then the room itself. */
  function Release(root: Room?): (freed: seq<Room>)
    requires root != null ==> root.Valid()
    reads if root == null then {} else root.Repr
    ensures root == null ==> freed == []
    ensures root != null ==> |freed| > 0 && freed[|freed| - 1] == root
    decreases if root == null then {} else root.Repr
  {
    if root == null then []
    else Release(root.left) + Release(root.right) + [root]
  }

  /** Every room of the tree is released exactly once, and only after all
      the rooms below it. */
  lemma {:induction false} ReleaseIsOrder(root: Room?)
    requires root != null ==> root.Valid()
    ensures ReleaseOrder(root, Release(root))
    decreases if root == null then {} else root.Repr
  {
    if root != null {
      ReleaseIsOrder(root.left);
      ReleaseIsOrder(root.right);
      PostOrderAfterSubtrees(root, Release(root.left), Release(root.right));
    }
  }

  /** The names of the released rooms, in release order, are the post-order
      of the tree's value. */
  lemma {:induction false} ReleaseNames(root: Room?)
    requires root != null ==> root.Valid()
    ensures NamesOf(Release(root)) == PostOrder(ModelOf(root))
    decreases if root == null then {} else root.Repr
  {
    if root != null {
      var fromLeft, fromRight := Release(root.left), Release(root.right);
      ReleaseNames(root.left);
      ReleaseNames(root.right);
      NamesOfConcat(fromLeft, fromRight, [root]);
      assert NamesOf([root]) == [root.name];
      PostOrderOfRoom(root);
    }
  }

  /** A release order for a room is one for its left subtree, then one for
      its right subtree, then the room itself. */
  lemma PostOrderAfterSubtrees(root: Room, fromLeft: seq<Room>, fromRight: seq<Room>)
    requires root.Valid()
    requires ReleaseOrder(root.left, fromLeft)
    requires ReleaseOrder(root.right, fromRight)
    ensures ReleaseOrder(root, fromLeft + fromRight + [root])
  {
    SubtreesCover(root, fromLeft, fromRight);
    SubtreesDistinct(root, fromLeft, fromRight);
    SubtreesAfter(root, fromLeft, fromRight);
  }

  /** The concatenated order holds exactly the rooms of the tree, and the
      footprint of each lies inside the tree. */
  lemma SubtreesCover(root: Room, fromLeft: seq<Room>, fromRight: seq<Room>)
    requires root.Valid()
    requires ReleaseOrder(root.left, fromLeft)
    requires ReleaseOrder(root.right, fromRight)
    ensures var freed := fromLeft + fromRight + [root];
      && (forall n :: n in freed ==> n in root.Repr)
      && (forall n :: n in root.Repr ==> n in freed)
      && (forall k :: 0 <= k < |freed| ==> freed[k].Repr <= root.Repr)
  {
    var freed := fromLeft + fromRight + [root];
    var l, r := |fromLeft|, |fromRight|;
    assert forall k :: 0 <= k < l ==> freed[k] == fromLeft[k];
    assert forall k :: l <= k < l + r ==> freed[k] == fromRight[k - l];
  }

  /** The two subtree orders and the room share no room. */
  lemma SubtreesDistinct(root: Room, fromLeft: seq<Room>, fromRight: seq<Room>)
    requires root.Valid()
    requires ReleaseOrder(root.left, fromLeft)
    requires ReleaseOrder(root.right, fromRight)
    ensures var freed := fromLeft + fromRight + [root];
      forall i, j :: 0 <= i < j < |freed| ==> freed[i] != freed[j]
  {
    var freed := fromLeft + fromRight + [root];
    var l, r := |fromLeft|, |fromRight|;
    assert forall k :: 0 <= k < l ==> freed[k] == fromLeft[k];
    assert forall k :: l <= k < l + r ==> freed[k] == fromRight[k - l];
    assert forall k :: 0 <= k < l ==> root.left != null && freed[k] in root.left.Repr;
    assert forall k :: l <= k < l + r ==> root.right != null && freed[k] in root.right.Repr;
  }

  /** No room of the concatenated order comes before a room of its own
      subtree: a room of the left part lies in no right-part footprint and
      is not the root, and likewise the other way round. */
  lemma SubtreesAfter(root: Room, fromLeft: seq<Room>, fromRight: seq<Room>)
    requires root.Valid()
    requires ReleaseOrder(root.left, fromLeft)
    requires ReleaseOrder(root.right, fromRight)
    ensures var freed := fromLeft + fromRight + [root];
      forall i, j :: 0 <= i < |freed| && 0 <= j < |freed| && freed[j] in freed[i].Repr ==> j <= i
  {
    var freed := fromLeft + fromRight + [root];
    var l, r := |fromLeft|, |fromRight|;
    // which part of `freed` each index falls in, and where that part lives
    assert forall k :: 0 <= k < l ==> freed[k] == fromLeft[k];
    assert forall k :: l <= k < l + r ==> freed[k] == fromRight[k - l];
    assert forall k :: 0 <= k < l ==> root.left != null && freed[k] in root.left.Repr;
    assert forall k :: l <= k < l + r ==> root.right != null && freed[k] in root.right.Repr;
    forall i, j | 0 <= i < |freed| && 0 <= j < |freed| && freed[j] in freed[i].Repr
      ensures j <= i
    {
      if i < l {
        assert freed[j] in root.left.Repr;
      } else if i < l + r {
        assert freed[j] in root.right.Repr;
      }
    }
  }

  /** The post-order of a linked room unfolds into those of its children. */
  lemma PostOrderOfRoom(root: Room)
    requires root.Valid()
    ensures PostOrder(ModelOf(root))
         == PostOrder(ModelOf(root.left)) + PostOrder(ModelOf(root.right)) + [root.name]
  {
  }

  /** The names of three concatenated parts are the concatenated names. */
  lemma NamesOfConcat(a: seq<Room>, b: seq<Room>, c: seq<Room>)
    ensures NamesOf(a + b + c) == NamesOf(a) + NamesOf(b) + NamesOf(c)
  {
  }
}
