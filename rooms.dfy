/** Rooms of the mansion: the node record of the map (a heap object whose child
    links are assigned after creation) and the value it stands for. */
module Rooms {

  datatype Option<+T> = None | Some(value: T)

  /** Size of the fixed character buffer that holds a room name, terminator included. */
  const NAME_CAPACITY: nat := 50

  /** A room name fits its buffer when it leaves room for the terminating zero. */
  predicate NameFits(name: string) {
    |name| < NAME_CAPACITY
  }

  /** The abstract value of a room and everything reachable below it.
      An absent child (a null link) is `None`. */
  datatype Tree = Node(name: string, left: Option<Tree>, right: Option<Tree>) {
    /** A room with no exits. */
    predicate IsLeaf() {
      left.None? && right.None?
    }
  }

  /** Number of rooms in a possibly absent tree. */
  function Size(t: Option<Tree>): nat {
    match t
    case None => 0
    case Some(n) => 1 + Size(n.left) + Size(n.right)
  }

  /** Height of a possibly absent tree: 0 for none, 1 for a single room. */
  function Height(t: Option<Tree>): nat {
    match t
    case None => 0
    case Some(n) =>
      var l, r := Height(n.left), Height(n.right);
      1 + if l < r then r else l
  }

  /** A room of the mansion, allocated once and linked to its children
      through two nullable references. */
  class Room {
    const name: string
    var left: Room?
    var right: Room?

    // the rooms reachable from this one, itself included
    ghost var Repr: set<Room>
    // the value of the subtree rooted here
    ghost var Model: Tree

    /** This room heads a finite tree: children own disjoint parts of the
        footprint, this room belongs to neither, and `Model` is the value of
        the linked structure. */
    ghost predicate Valid()
      reads this, Repr
      decreases Repr
      ensures Valid() ==> this in Repr && Model.name == name
    {
      && this in Repr
      && (left != null ==>
            left in Repr && left.Repr <= Repr && this !in left.Repr && left.Valid())
      && (right != null ==>
            right in Repr && right.Repr <= Repr && this !in right.Repr && right.Valid())
      && (left != null && right != null ==> left.Repr !! right.Repr)
      && Repr == {this} + (if left == null then {} else left.Repr)
                        + (if right == null then {} else right.Repr)
      && Model == Node(name, if left == null then None else Some(left.Model),
                             if right == null then None else Some(right.Model))
    }

    /** Creates a room with the given name and no exits. */
    constructor (name: string)
      requires NameFits(name)
      ensures this.name == name && left == null && right == null
      ensures Valid() && Repr == {this} && Model == Node(name, None, None)
    {
      this.name := name;
      left, right := null, null;
      Repr := {this};
      Model := Node(name, None, None);
    }

    /** Recomputes the ghost footprint and value after the child links of this
        room were assigned; the children must already be valid trees that
        share no room with each other or with this one. */
    ghost method Link()
      requires left != null ==> left.Valid() && this !in left.Repr
      requires right != null ==> right.Valid() && this !in right.Repr
      requires left != null && right != null ==> left.Repr !! right.Repr
      modifies this
      ensures Valid() && left == old(left) && right == old(right)
      ensures Repr == {this} + (if left == null then {} else left.Repr)
                             + (if right == null then {} else right.Repr)
      ensures Model == Node(name, if left == null then None else Some(left.Model),
                                  if right == null then None else Some(right.Model))
    {
      Repr := {this} + (if left == null then {} else left.Repr)
                     + (if right == null then {} else right.Repr);
      Model := Node(name, if left == null then None else Some(left.Model),
                          if right == null then None else Some(right.Model));
    }
  }

  /** The value of a possibly null room reference. */
  ghost function ModelOf(r: Room?): (t: Option<Tree>)
    reads r
    ensures t.None? <==> r == null
  {
    if r == null then None else Some(r.Model)
  }
}
