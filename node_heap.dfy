/** The heap nodes of the search tree and how they are read as a tree value.

    A ghost `Tree<BinaryNode>` (the shape) mirrors the pointer structure: `Linked`
    says every node's left and right pointers lead to the roots of its sub-shapes,
    and `Abs` reads the records stored in the nodes. The two twostate lemmas at the
    end justify rewriting the fields of one node while every other node stays put. */
module NodeHeap {
  import opened Trees
  import opened EmployeeTree

  /** A heap node: one record and two child pointers. */
  class BinaryNode {
    var element: Employee
    var left: BinaryNode?
    var right: BinaryNode?

    constructor (theElement: Employee, lt: BinaryNode?, rt: BinaryNode?)
      ensures element == theElement && left == lt && right == rt
    {
      element := theElement;
      left := lt;
      right := rt;
    }
  }

  /** The node at the root of a shape, null for an empty one. */
  function RootOf(s: Tree<BinaryNode>): BinaryNode?
  {
    if s.Leaf? then null else s.elem
  }

  /** Every node's pointers lead to the roots of its sub-shapes. */
  ghost predicate Linked(s: Tree<BinaryNode>)
    reads ElemSet(s)
  {
    match s
    case Leaf => true
    case Node(l, n, r) =>
      n.left == RootOf(l) && n.right == RootOf(r) && Linked(l) && Linked(r)
  }

  /** The tree of records the nodes of a shape hold. */
  ghost function Abs(s: Tree<BinaryNode>): (t: Tree<Employee>)
    reads ElemSet(s)
    ensures Size(t) == Size(s)
  {
    match s
    case Leaf => Leaf
    case Node(l, n, r) => Node(Abs(l), n.element, Abs(r))
  }

  /** A linked shape is linked below every path, and reading it commutes with
      following the path. */
  lemma {:induction false} LinkedSubAt(s: Tree<BinaryNode>, p: Path)
    requires Linked(s)
    ensures Linked(SubAt(s, p))
    ensures Abs(SubAt(s, p)) == SubAt(Abs(s), p)
    ensures ValidPath(s, p) <==> ValidPath(Abs(s), p)
    decreases p
  {
    if p != [] && s.Node? {
      LinkedSubAt(Child(s, p[0]), p[1..]);
    }
  }

  /** One step of a walk: at a node reached by p, the pointer in direction d leads
      to the root of the sub-shape at p + [d]. */
  lemma Step(s: Tree<BinaryNode>, p: Path, d: Dir)
    requires Linked(s) && ValidPath(s, p) && SubAt(s, p).Node?
    ensures ValidPath(s, p + [d])
    ensures SubAt(s, p + [d]) == Child(SubAt(s, p), d)
    ensures RootOf(SubAt(s, p + [d])) ==
      if d == Left then SubAt(s, p).elem.left else SubAt(s, p).elem.right
    ensures SubAt(Abs(s), p) == Node(Abs(SubAt(s, p).left), SubAt(s, p).elem.element, Abs(SubAt(s, p).right))
  {
    SubAtSnoc(s, p, d);
    LinkedSubAt(s, p);
  }

  /** Below a node of a linked shape without repeated nodes, a nonempty child is the
      left one exactly when its root is what the node's left pointer holds. */
  lemma ChildSide(s: Tree<BinaryNode>, q: Path, d: Dir)
    requires Linked(s) && Distinct(s) && ValidPath(s, q) && SubAt(s, q).Node?
    requires Child(SubAt(s, q), d).Node?
    ensures (Child(SubAt(s, q), d).elem == SubAt(s, q).elem.left) == (d == Left)
  {
    var pn := SubAt(s, q);
    LinkedSubAt(s, q);
    DistinctSubAt(s, q);
    if d == Right && pn.left.Node? {
      assert pn.left.elem in ElemSet(pn.left);
      assert pn.right.elem in ElemSet(pn.right);
    }
  }

  /** The node at r lacks a child: its other child u, the sub-shape that takes its
      place, is linked, has no repeated node, lies within the node's sub-shape, and
      reads as RemoveRoot of the subtree at r. */
  lemma SpliceShape(s: Tree<BinaryNode>, r: Path)
    requires Linked(s) && Distinct(s) && ValidPath(s, r) && SubAt(s, r).Node?
    requires SubAt(s, r).left.Leaf? || SubAt(s, r).right.Leaf?
    ensures var sub := SubAt(s, r);
      var u := if sub.left.Leaf? then sub.right else sub.left;
      Linked(u) && Distinct(u) && ElemSet(u) <= ElemSet(sub) && sub.elem !in ElemSet(u) &&
      ValidPath(Abs(s), r) && SubAt(Abs(s), r).Node? && Abs(u) == RemoveRoot(SubAt(Abs(s), r))
  {
    LinkedSubAt(s, r);
    DistinctSubAt(s, r);
  }

  /** Cutting out the node c below the node at q, in direction d, by hanging c's right
      sub-shape in its place: that sub-shape shares no node with the rest of the
      shape outside c, and does not hold the node at q. */
  lemma CutRight(s: Tree<BinaryNode>, q: Path, d: Dir)
    requires Distinct(s) && ValidPath(s, q) && SubAt(s, q).Node? && Child(SubAt(s, q), d).Node?
    ensures ElemSet(Child(SubAt(s, q), d).right) !! ElemSet(s) - ElemSet(Child(SubAt(s, q), d))
    ensures SubAt(s, q).elem !in ElemSet(Child(SubAt(s, q), d).right)
  {
    DistinctSubAt(s, q);
  }

  /** A shape none of whose nodes changed is linked and reads as before. */
  twostate lemma {:induction false} Unchanged(s: Tree<BinaryNode>)
    requires forall n :: n in ElemSet(s) ==> old(allocated(n)) && unchanged(n)
    ensures Linked(s) == old(Linked(s))
    ensures Abs(s) == old(Abs(s))
  {
    match s
    case Leaf =>
    case Node(l, n, r) =>
      assert n in ElemSet(s) && ElemSet(l) <= ElemSet(s) && ElemSet(r) <= ElemSet(s);
      Unchanged(l);
      Unchanged(r);
  }

  /** In a shape without repeated nodes, the node at p occurs nowhere else: not at
      the root above it, and not in the sibling subtree on the way. */
  lemma {:induction false} NodeAtPath(s: Tree<BinaryNode>, p: Path)
    requires Distinct(s) && ValidPath(s, p) && SubAt(s, p).Node?
    ensures SubAt(s, p).elem in ElemSet(s)
    ensures p != [] ==> SubAt(s, p).elem != s.elem
    ensures p != [] ==> SubAt(s, p).elem in ElemSet(Child(s, p[0]))
    ensures p != [] && p[0] == Left ==> SubAt(s, p).elem !in ElemSet(s.right)
    ensures p != [] && p[0] == Right ==> SubAt(s, p).elem !in ElemSet(s.left)
  {
    ElemSetSubAt(s, p);
    if p != [] {
      ElemSetSubAt(Child(s, p[0]), p[1..]);
    }
  }

  /** Rewriting the fields of the one node at q: if that node now points to the roots
      of the two sub-shapes of c, and no other node of the shape or of c changed,
      then the shape with c put at q is linked and reads as the old tree with the
      node's new record and the old reading of c's sub-shapes put at q. */
  twostate lemma {:induction false} Rewrite(new s: Tree<BinaryNode>, new q: Path, new c: Tree<BinaryNode>)
    requires old(allocated(s)) && old(allocated(c))
    requires Distinct(s) && old(Linked(s)) && ValidPath(s, q) && SubAt(s, q).Node?
    requires c.Node? && c.elem == SubAt(s, q).elem && Distinct(c)
    requires ElemSet(c) !! ElemSet(s) - ElemSet(SubAt(s, q))
    requires old(Linked(c.left)) && old(Linked(c.right))
    requires c.elem.left == RootOf(c.left) && c.elem.right == RootOf(c.right)
    requires forall n :: n in ElemSet(s) ==> old(allocated(n)) && (n == c.elem || unchanged(n))
    requires forall n :: n in ElemSet(c) ==> old(allocated(n)) && (n == c.elem || unchanged(n))
    ensures Linked(ReplaceAt(s, q, c))
    ensures Abs(ReplaceAt(s, q, c)) ==
      ReplaceAt(old(Abs(s)), q, Node(old(Abs(c.left)), c.elem.element, old(Abs(c.right))))
    decreases q
  {
    NodeAtPath(s, q);
    assert ElemSet(c) == ElemSet(c.left) + {c.elem} + ElemSet(c.right);
    if q == [] {
      Unchanged(c.left);
      Unchanged(c.right);
    } else {
      var l, y, r := s.left, s.elem, s.right;
      assert ElemSet(s) == ElemSet(l) + {y} + ElemSet(r);
      var ch := Child(s, q[0]);
      ElemSetSubAt(ch, q[1..]);
      Rewrite(ch, q[1..], c);
      var ch' := ReplaceAt(ch, q[1..], c);
      assert RootOf(ch') == RootOf(ch);
      if q[0] == Left {
        Unchanged(r);
        assert ReplaceAt(s, q, c) == Node(ch', y, r);
      } else {
        Unchanged(l);
        assert ReplaceAt(s, q, c) == Node(l, y, ch');
      }
    }
  }

  /** Reading a shape in the earlier state commutes with following a path too. */
  twostate lemma {:induction false} OldAbsSubAt(new s: Tree<BinaryNode>, new p: Path)
    requires old(allocated(s))
    ensures old(Abs(SubAt(s, p))) == SubAt(old(Abs(s)), p)
    ensures ValidPath(s, p) <==> ValidPath(old(Abs(s)), p)
    decreases p
  {
    if p != [] && s.Node? {
      OldAbsSubAt(Child(s, p[0]), p[1..]);
    }
  }

  /** Re-pointing one child pointer: the node at q now points in direction d to the
      root of u, its other pointer and its record are as before, and nothing else
      changed. The shape with u put at q + [d] is then linked, has no repeated node,
      and reads as the old tree with the old reading of u put there. */
  twostate lemma Relink(new s: Tree<BinaryNode>, new q: Path, new d: Dir, new u: Tree<BinaryNode>)
    requires old(allocated(s)) && old(allocated(u))
    requires Distinct(s) && old(Linked(s)) && ValidPath(s, q) && SubAt(s, q).Node?
    requires old(Linked(SubAt(s, q))) && old(Linked(u)) && Distinct(u)
    requires ElemSet(u) !! ElemSet(s) - ElemSet(Child(SubAt(s, q), d))
    requires SubAt(s, q).elem !in ElemSet(u)
    requires forall n :: n in ElemSet(s) ==> old(allocated(n)) && (n == SubAt(s, q).elem || unchanged(n))
    requires forall n :: n in ElemSet(u) ==> old(allocated(n)) && unchanged(n)
    requires d == Left ==>
      SubAt(s, q).elem.left == RootOf(u) && SubAt(s, q).elem.right == old(SubAt(s, q).elem.right)
    requires d == Right ==>
      SubAt(s, q).elem.right == RootOf(u) && SubAt(s, q).elem.left == old(SubAt(s, q).elem.left)
    requires SubAt(s, q).elem.element == old(SubAt(s, q).elem.element)
    ensures ValidPath(s, q + [d])
    ensures Linked(ReplaceAt(s, q + [d], u)) && Distinct(ReplaceAt(s, q + [d], u))
    ensures Abs(ReplaceAt(s, q + [d], u)) == ReplaceAt(old(Abs(s)), q + [d], old(Abs(u)))
    ensures ElemSet(ReplaceAt(s, q + [d], u)) == ElemSet(s) - ElemSet(SubAt(s, q + [d])) + ElemSet(u)
  {
    var sub := SubAt(s, q);
    var c := WithChild(sub, d, u);
    SubAtSnoc(s, q, d);
    DistinctSubAt(s, q);
    ElemSetSubAt(s, q);
    ElemSetSubAt(sub, [d]);
    assert SubAt(sub, [d]) == Child(sub, d);
    assert ElemSet(sub) == ElemSet(sub.left) + {sub.elem} + ElemSet(sub.right);
    assert ElemSet(c) == ElemSet(c.left) + {sub.elem} + ElemSet(c.right);
    Rewrite(s, q, c);
    ReplaceAtSnoc(s, q, d, u);
    OldAbsSubAt(s, q);
    ReplaceAtSnoc(old(Abs(s)), q, d, old(Abs(u)));
    ElemSetReplaceAt(s, q + [d], u);
    DistinctReplaceAt(s, q + [d], u);
  }

  /** Overwriting the record of the node at q and nothing else: the shape stays
      linked and reads as the old tree with the new record at q. */
  twostate lemma Restamp(new s: Tree<BinaryNode>, new q: Path)
    requires old(allocated(s))
    requires Distinct(s) && old(Linked(s)) && ValidPath(s, q) && SubAt(s, q).Node?
    requires old(Linked(SubAt(s, q)))
    requires forall n :: n in ElemSet(s) ==> old(allocated(n)) && (n == SubAt(s, q).elem || unchanged(n))
    requires SubAt(s, q).elem.left == old(SubAt(s, q).elem.left)
    requires SubAt(s, q).elem.right == old(SubAt(s, q).elem.right)
    ensures Linked(s)
    ensures Abs(s) == ReplaceAt(old(Abs(s)), q, Node(old(Abs(SubAt(s, q).left)), SubAt(s, q).elem.element, old(Abs(SubAt(s, q).right))))
  {
    var sub := SubAt(s, q);
    DistinctSubAt(s, q);
    ElemSetSubAt(s, q);
    assert ElemSet(sub) == ElemSet(sub.left) + {sub.elem} + ElemSet(sub.right);
    Rewrite(s, q, sub);
    ReplaceAtSame(s, q);
  }

  /** The nodes of an allocated shape are allocated. */
  lemma {:induction false} AllocatedElems(s: Tree<BinaryNode>)
    requires allocated(s)
    ensures forall n :: n in ElemSet(s) ==> allocated(n)
  {
    if s.Node? {
      AllocatedElems(s.left);
      AllocatedElems(s.right);
    }
  }

  /** The side a pointer update goes to. */
  function Side(toLeft: bool): Dir
  {
    if toLeft then Left else Right
  }

  /** Points the left (toLeft) or right child pointer of parent, the node at q of the
      shape s, to child, the root of the shape u: u then takes the place of that
      child's sub-shape, and the records read as before with the old reading of u
      put there. */
  method SetChild(parent: BinaryNode, toLeft: bool, child: BinaryNode?,
                  ghost s: Tree<BinaryNode>, ghost q: Path, ghost u: Tree<BinaryNode>)
    requires Distinct(s) && Linked(s) && ValidPath(s, q) && SubAt(s, q).Node? && parent == SubAt(s, q).elem
    requires Linked(u) && Distinct(u) && child == RootOf(u)
    requires ElemSet(u) !! ElemSet(s) - ElemSet(Child(SubAt(s, q), Side(toLeft)))
    requires parent !in ElemSet(u)
    modifies parent
    ensures parent.element == old(parent.element)
    ensures ValidPath(s, q + [Side(toLeft)])
    ensures Linked(ReplaceAt(s, q + [Side(toLeft)], u)) && Distinct(ReplaceAt(s, q + [Side(toLeft)], u))
    ensures Abs(ReplaceAt(s, q + [Side(toLeft)], u)) == ReplaceAt(old(Abs(s)), q + [Side(toLeft)], old(Abs(u)))
    ensures ElemSet(ReplaceAt(s, q + [Side(toLeft)], u)) ==
      ElemSet(s) - ElemSet(SubAt(s, q + [Side(toLeft)])) + ElemSet(u)
  {
    LinkedSubAt(s, q);
    AllocatedElems(s);
    AllocatedElems(u);
    label L:
    if toLeft {
      parent.left := child;
    } else {
      parent.right := child;
    }
    assert forall n :: n in ElemSet(s) + ElemSet(u) && n != parent ==> unchanged@L(n);
    Relink@L(s, q, Side(toLeft), u);
  }

  /** Overwrites the record of n, the node at q of the shape s: the shape stays linked
      and reads as before with the new record at q. */
  method SetRecord(n: BinaryNode, e: Employee, ghost s: Tree<BinaryNode>, ghost q: Path)
    requires Distinct(s) && Linked(s) && ValidPath(s, q) && SubAt(s, q).Node? && n == SubAt(s, q).elem
    modifies n
    ensures n.left == old(n.left) && n.right == old(n.right)
    ensures Linked(s)
    ensures Abs(s) == ReplaceAt(old(Abs(s)), q, Node(old(Abs(SubAt(s, q).left)), e, old(Abs(SubAt(s, q).right))))
  {
    LinkedSubAt(s, q);
    AllocatedElems(s);
    label L:
    n.element := e;
    assert forall m :: m in ElemSet(s) && m != n ==> unchanged@L(m);
    Restamp@L(s, q);
  }
  /** The unhooking step of removing curr, the node at r, when it has two children:
      temp, the leftmost node of curr's right sub-shape (reached by w from there),
      is replaced by its right sub-shape, through the left pointer of its parent
      prev, or through curr's right pointer when temp is curr's right child. */
  method Unhook(curr: BinaryNode, prev: BinaryNode?, temp: BinaryNode,
                ghost s: Tree<BinaryNode>, ghost r: Path, ghost w: Path, ghost pw: Path)
    requires Linked(s) && Distinct(s) && ValidPath(s, r) && SubAt(s, r).Node? && curr == SubAt(s, r).elem
    requires ValidPath(SubAt(s, r).right, w) && SubAt(SubAt(s, r).right, w).Node?
    requires temp == SubAt(SubAt(s, r).right, w).elem
    requires prev == null <==> w == []
    requires prev != null ==>
      w == pw + [Left] && ValidPath(SubAt(s, r).right, pw) &&
      SubAt(SubAt(s, r).right, pw).Node? && prev == SubAt(SubAt(s, r).right, pw).elem
    modifies curr, prev
    ensures temp.element == old(temp.element)
    ensures ValidPath(s, r + ([Right] + w)) && SubAt(s, r + ([Right] + w)).Node?
    ensures Linked(ReplaceAt(s, r + ([Right] + w), SubAt(s, r + ([Right] + w)).right))
    ensures Distinct(ReplaceAt(s, r + ([Right] + w), SubAt(s, r + ([Right] + w)).right))
    ensures Abs(ReplaceAt(s, r + ([Right] + w), SubAt(s, r + ([Right] + w)).right)) ==
      ReplaceAt(old(Abs(s)), r + ([Right] + w), old(Abs(SubAt(s, r + ([Right] + w)).right)))
    ensures ElemSet(ReplaceAt(s, r + ([Right] + w), SubAt(s, r + ([Right] + w)).right)) <= ElemSet(s)
  {
    ghost var tp := r + ([Right] + w);
    SubAtBelow(s, r, Right, w);
    ghost var u := SubAt(s, tp).right;
    LinkedSubAt(s, tp);
    DistinctSubAt(s, tp);
    ElemSetReplaceAt(s, tp, u);
    ElemSetSubAt(s, tp);
    if prev != null {
      ghost var q := r + ([Right] + pw);
      assert q + [Left] == tp;
      SubAtBelow(s, r, Right, pw);
      SubAtSnoc(s, q, Left);
      CutRight(s, q, Left);
      SetChild(prev, true, temp.right, s, q, u);
    } else {
      assert r + [Right] == tp;
      SubAtSnoc(s, r, Right);
      CutRight(s, r, Right);
      SetChild(curr, false, temp.right, s, r, u);
    }
  }
}
