/** The pointer-based binary search tree of employee records.

    The object owns a root pointer; the ghost `shape` is the tree of its nodes and
    `Repr` its footprint. `Model()` reads the records out of the nodes, and every
    operation is proved to act on `Model()` as the matching function of module
    EmployeeTree does, keeping the class invariant `Valid()`. */
module Bst {
  import opened Trees
  import opened EmployeeTree
  import opened NodeHeap

  /** The nodes on report's stack, top first: the node stack[i] sits at path ps[i] of
      the shape s, and subs[i] is the subtree of records m has there. */
  ghost predicate Waiting(s: Tree<BinaryNode>, m: Tree<Employee>, stack: seq<BinaryNode>,
                          ps: seq<Path>, subs: seq<Tree<Employee>>)
  {
    |stack| == |ps| == |subs| &&
    forall i :: 0 <= i < |ps| ==>
      ValidPath(s, ps[i]) && SubAt(s, ps[i]).Node? && stack[i] == SubAt(s, ps[i]).elem &&
      subs[i] == SubAt(m, ps[i])
  }

  lemma WaitingPush(s: Tree<BinaryNode>, m: Tree<Employee>, stack: seq<BinaryNode>,
                    ps: seq<Path>, subs: seq<Tree<Employee>>, p: Path)
    requires Waiting(s, m, stack, ps, subs) && ValidPath(s, p) && SubAt(s, p).Node?
    ensures Waiting(s, m, [SubAt(s, p).elem] + stack, [p] + ps, [SubAt(m, p)] + subs)
  {
    var stack', ps', subs' := [SubAt(s, p).elem] + stack, [p] + ps, [SubAt(m, p)] + subs;
    forall i | 0 <= i < |ps'|
      ensures ValidPath(s, ps'[i]) && SubAt(s, ps'[i]).Node? && stack'[i] == SubAt(s, ps'[i]).elem &&
        subs'[i] == SubAt(m, ps'[i])
    {
      if i > 0 {
        assert ps'[i] == ps[i - 1] && stack'[i] == stack[i - 1] && subs'[i] == subs[i - 1];
      }
    }
  }

  lemma WaitingPop(s: Tree<BinaryNode>, m: Tree<Employee>, stack: seq<BinaryNode>,
                   ps: seq<Path>, subs: seq<Tree<Employee>>)
    requires Waiting(s, m, stack, ps, subs) && |ps| > 0
    ensures ValidPath(s, ps[0]) && SubAt(s, ps[0]).Node? && stack[0] == SubAt(s, ps[0]).elem
    ensures subs[0] == SubAt(m, ps[0])
    ensures Waiting(s, m, stack[1..], ps[1..], subs[1..])
  {
    forall i | 0 <= i < |ps| - 1
      ensures ValidPath(s, ps[1..][i]) && SubAt(s, ps[1..][i]).Node? &&
        stack[1..][i] == SubAt(s, ps[1..][i]).elem && subs[1..][i] == SubAt(m, ps[1..][i])
    {
      assert ps[1..][i] == ps[i + 1];
    }
  }

  /** Going down one edge of a linked shape, seen on the records it holds. */
  lemma Descend(s: Tree<BinaryNode>, p: Path, d: Dir)
    requires Linked(s) && ValidPath(s, p) && SubAt(s, p).Node?
    ensures ValidPath(s, p + [d]) && SubAt(Abs(s), p).Node? && SubAt(Abs(s), p).elem == SubAt(s, p).elem.element
    ensures SubAt(Abs(s), p + [d]) == Child(SubAt(Abs(s), p), d)
    ensures RootOf(SubAt(s, p + [d])) == if d == Left then SubAt(s, p).elem.left else SubAt(s, p).elem.right
  {
    Step(s, p, d);
    LinkedSubAt(s, p);
    LinkedSubAt(s, p + [d]);
  }

  /** A null pointer at a path of a linked shape stands for an empty subtree. */
  lemma NullIsLeaf(s: Tree<BinaryNode>, p: Path)
    requires Linked(s) && ValidPath(s, p) && RootOf(SubAt(s, p)) == null
    ensures SubAt(Abs(s), p) == Leaf
  {
    LinkedSubAt(s, p);
  }

  /** Where report's walk stands: the pending lines of the subtree at cp (which t
      points to, its root at depth level + 1) and of the stacked nodes, after lines,
      are the listing of the whole tree m. */
  ghost predicate Walking(s: Tree<BinaryNode>, m: Tree<Employee>, lines: seq<(int, int)>,
                          t: BinaryNode?, stack: seq<BinaryNode>, levelStack: seq<int>, level: int,
                          cp: Path, ps: seq<Path>, subs: seq<Tree<Employee>>)
  {
    Waiting(s, m, stack, ps, subs) && |levelStack| == |subs| &&
    ValidPath(s, cp) && t == RootOf(SubAt(s, cp)) &&
    Reporting(m, lines, SubAt(m, cp), level + 1, subs, levelStack)
  }

  /** The inner loop of report: stack every node on the way down to the left, with
      its depth. */
  method Lefts(t: BinaryNode?, stack: seq<BinaryNode>, levelStack: seq<int>, level: int,
               ghost s: Tree<BinaryNode>, ghost lines: seq<(int, int)>,
               ghost cp: Path, ghost ps: seq<Path>, ghost subs: seq<Tree<Employee>>)
    returns (t': BinaryNode?, stack': seq<BinaryNode>, levelStack': seq<int>, level': int,
             ghost cp': Path, ghost ps': seq<Path>, ghost subs': seq<Tree<Employee>>)
    requires Linked(s) && Walking(s, Abs(s), lines, t, stack, levelStack, level, cp, ps, subs)
    ensures Walking(s, Abs(s), lines, t', stack', levelStack', level', cp', ps', subs')
    ensures t' == null && |stack'| >= |stack| && (t != null ==> |stack'| > 0)
  {
    ghost var m := Abs(s);
    AllocatedElems(s);
    t', stack', levelStack', level', cp', ps', subs' := t, stack, levelStack, level, cp, ps, subs;
    while t' != null
      invariant Walking(s, m, lines, t', stack', levelStack', level', cp', ps', subs')
      invariant |stack'| >= |stack| && (t != null ==> t' != null || |stack'| > 0)
      decreases Size(SubAt(m, cp'))
    {
      Descend(s, cp', Left);
      ReportingPush(m, lines, SubAt(m, cp'), level' + 1, subs', levelStack');
      WaitingPush(s, m, stack', ps', subs', cp');
      stack' := [t'] + stack';
      ps', subs' := [cp'] + ps', [SubAt(m, cp')] + subs';
      t' := t'.left;
      cp' := cp' + [Left];
      level' := level' + 1;
      levelStack' := [level'] + levelStack';
    }
  }

  /** The walk of report over the linked nodes s below root: going left it stacks
      each node with its depth, then prints the top and goes right. */
  method Walk(root: BinaryNode?, ghost s: Tree<BinaryNode>) returns (lines: seq<(int, int)>)
    requires Linked(s) && root == RootOf(s)
    ensures lines == Listing(Abs(s), 1)
  {
    ghost var m := Abs(s);
    AllocatedElems(s);
    lines := [];
    var stack: seq<BinaryNode> := [];
    var t := root;
    var levelStack: seq<int> := [];
    var level := 0;
    ghost var cp: Path := [];
    ghost var ps: seq<Path> := [];
    ghost var subs: seq<Tree<Employee>> := [];
    while t != null || |stack| != 0
      invariant Walking(s, m, lines, t, stack, levelStack, level, cp, ps, subs)
      decreases |Listing(m, 1)| - |lines|
    {
      t, stack, levelStack, level, cp, ps, subs := Lefts(t, stack, levelStack, level, s, lines, cp, ps, subs);
      NullIsLeaf(s, cp);
      WaitingPop(s, m, stack, ps, subs);
      Descend(s, ps[0], Right);
      ReportingPop(m, lines, level + 1, subs, levelStack);
      t := stack[0];
      stack := stack[1..];
      level := levelStack[0];
      var levelToPrint := levelStack[0];
      levelStack := levelStack[1..];
      lines := lines + [(t.element.id, levelToPrint)];
      t := t.right;
      cp := ps[0] + [Right];
      ps, subs := ps[1..], subs[1..];
    }
    NullIsLeaf(s, cp);
  }

  class BinarySearchTree {
    var root: BinaryNode?
    ghost var shape: Tree<BinaryNode>
    ghost var Repr: set<object>

    /** The class invariant: the footprint is this object and the nodes of the shape,
        no node occurs twice, the pointers follow the shape, and the records are
        ordered by id. */
    ghost predicate Valid()
      reads this, Repr
    {
      this in Repr && ElemSet(shape) <= Repr && Repr == {this} + ElemSet(shape) &&
      root == RootOf(shape) && Distinct(shape) && Linked(shape) && Ordered(Abs(shape))
    }

    /** The tree of records the object holds. */
    ghost function Model(): Tree<Employee>
      reads this, Repr
      requires Valid()
    {
      Abs(shape)
    }

    /** Takes s as the new shape once the pointers already follow it: the invariant
        holds again, and the tree holds the records t that s reads as. */
    ghost method Adopt(s: Tree<BinaryNode>, t: Tree<Employee>)
      requires root == RootOf(s) && Distinct(s) && Linked(s) && Abs(s) == t && Ordered(t)
      modifies this
      ensures Valid() && Repr == {this} + ElemSet(s) && Model() == t
    {
      shape, Repr := s, {this} + ElemSet(s);
    }

    constructor ()
      ensures Valid() && fresh(Repr)
      ensures Model() == Leaf
    {
      root := null;
      shape := Leaf;
      Repr := {this};
    }

    method IsEmpty() returns (b: bool)
      requires Valid()
      ensures b <==> Model() == Leaf
    {
      b := root == null;
    }

    /** find: walk down from the root, left on a smaller id and right otherwise, until
        a node with the id or an empty slot. The record found is what find prints;
        find's answer is whether there is one. */
    method Find(id: int) returns (r: Option<Employee>)
      requires Valid()
      ensures r == Search(Model(), id)
      ensures r.Some? <==> id in Ids(Model())
      ensures r.Some? ==> r.value.id == id && r.value in Elems(Model())
    {
      SearchCorrect(Model(), id);
      var t := root;
      ghost var p: Path := [];
      LinkedSubAt(shape, p);
      while t != null && t.element.id != id
        invariant ValidPath(shape, p) && t == RootOf(SubAt(shape, p))
        invariant Search(Model(), id) == Search(Abs(SubAt(shape, p)), id)
        decreases Size(SubAt(shape, p))
      {
        Step(shape, p, Route(id, t.element));
        LinkedSubAt(shape, p);
        if id < t.element.id {
          t := t.left;
        } else {
          t := t.right;
        }
        p := p + [Route(id, SubAt(shape, p).elem.element)];
        LinkedSubAt(shape, p);
      }
      LinkedSubAt(shape, p);
      if t == null {
        r := None;
      } else {
        r := Some(t.element);
      }
    }

    /** findMin: the record of the leftmost node, the default record on an empty tree. */
    method FindMin() returns (e: Employee)
      requires Valid()
      ensures e == Leftmost(Model())
      ensures Model() == Leaf ==> e == DefaultEmployee
      ensures Model().Node? ==> e.id in Ids(Model()) && forall i :: i in Ids(Model()) ==> e.id <= i
    {
      ghost var m := Model();
      if m.Node? {
        ExtremeIds(m);
      }
      var curr := root;
      if curr == null {
        return DefaultEmployee;
      }
      ghost var p: Path := [];
      LinkedSubAt(shape, p);
      while curr.left != null
        invariant ValidPath(shape, p) && SubAt(shape, p).Node? && curr == SubAt(shape, p).elem
        invariant Leftmost(m) == Leftmost(Abs(SubAt(shape, p)))
        decreases Size(SubAt(shape, p))
      {
        Step(shape, p, Left);
        curr := curr.left;
        p := p + [Left];
      }
      Step(shape, p, Left);
      e := curr.element;
    }

    /** findMax: the record of the rightmost node, the default record on an empty tree. */
    method FindMax() returns (e: Employee)
      requires Valid()
      ensures e == Rightmost(Model())
      ensures Model() == Leaf ==> e == DefaultEmployee
      ensures Model().Node? ==> e.id in Ids(Model()) && forall i :: i in Ids(Model()) ==> i <= e.id
    {
      ghost var m := Model();
      if m.Node? {
        ExtremeIds(m);
      }
      var curr := root;
      if curr == null {
        return DefaultEmployee;
      }
      ghost var p: Path := [];
      LinkedSubAt(shape, p);
      while curr.right != null && curr != null
        invariant ValidPath(shape, p) && SubAt(shape, p).Node? && curr == SubAt(shape, p).elem
        invariant Rightmost(m) == Rightmost(Abs(SubAt(shape, p)))
        decreases Size(SubAt(shape, p))
      {
        Step(shape, p, Right);
        curr := curr.right;
        p := p + [Right];
      }
      Step(shape, p, Right);
      e := curr.element;
    }

    /** The walk of insert: from the root, left on a strictly smaller id and right
        otherwise, counting levels from 1 at the root, until an empty slot. Returns
        the last node passed (null on an empty tree) and the level of the slot; the
        ghost q is the path to that last node. */
    method InsertionPoint(x: Employee) returns (prev: BinaryNode?, level: int, ghost q: Path)
      requires Valid()
      ensures level == |InsertPath(Model(), x.id)| + 1
      ensures prev == null <==> Model() == Leaf
      ensures prev != null ==>
        ValidPath(shape, q) && SubAt(shape, q).Node? && prev == SubAt(shape, q).elem &&
        InsertPath(Model(), x.id) == q + [Route(x.id, prev.element)]
    {
      ghost var m, s := Model(), shape;
      var curr := root;
      prev := null;
      level := 1;
      ghost var p: Path := [];
      q := [];
      while curr != null
        invariant ValidPath(s, p) && curr == RootOf(SubAt(s, p))
        invariant level == |p| + 1
        invariant InsertPath(m, x.id) == p + InsertPath(SubAt(m, p), x.id)
        invariant prev == null <==> p == []
        invariant p != [] ==>
          p == q + [Route(x.id, prev.element)] && ValidPath(s, q) &&
          SubAt(s, q).Node? && prev == SubAt(s, q).elem
        decreases Size(SubAt(s, p))
      {
        Step(s, p, Route(x.id, curr.element));
        LinkedSubAt(s, p);
        InsertPathStep(m, p, x.id);
        prev := curr;
        if x.id < curr.element.id {
          curr := curr.left;
        } else {
          curr := curr.right;
        }
        level := level + 1;
        q := p;
        p := p + [Route(x.id, prev.element)];
      }
      LinkedSubAt(s, p);
    }

    /** insert: hang a new node holding x, stamped with the level of the slot the
        walk reaches, at that slot. A duplicate id is stored again, never ignored. */
    method Insert(x: Employee)
      requires Valid()
      modifies Repr
      ensures Valid() && fresh(Repr - old(Repr))
      ensures Model() == EmployeeTree.Insert(old(Model()), x)
    {
      ghost var m := Model();
      InsertAtPath(m, x, 1);
      var nodeToInsert := new BinaryNode(x, null, null);
      var prev, level, q := InsertionPoint(x);
      nodeToInsert.element := nodeToInsert.element.(level := level);
      assert Model() == m;
      if prev == null {
        InsertOrdered(m, x, 1);
        prev := nodeToInsert;
        root, shape, Repr := prev, Node(Leaf, nodeToInsert, Leaf), Repr + {nodeToInsert};
      } else {
        NodeAtPath(shape, q);
        Hang(prev, x, nodeToInsert, q);
      }
    }

    /** The last step of insert below an existing node: prev is the node at q, the
        last node the walk passed, and the new node goes to its left when x's id is
        smaller than prev's and to its right otherwise. */
    method Hang(prev: BinaryNode, x: Employee, nodeToInsert: BinaryNode, ghost q: Path)
      requires Valid()
      requires nodeToInsert !in Repr && nodeToInsert.left == null && nodeToInsert.right == null
      requires ValidPath(shape, q) && SubAt(shape, q).Node? && prev == SubAt(shape, q).elem
      requires InsertPath(Model(), x.id) == q + [Route(x.id, prev.element)]
      requires nodeToInsert.element == InsertedRecord(Model(), x, 1)
      modifies this, prev
      ensures Valid() && Repr == old(Repr) + {nodeToInsert}
      ensures Model() == EmployeeTree.Insert(old(Model()), x)
    {
      ghost var m, s0 := Model(), shape;
      ghost var p := InsertPath(m, x.id);
      ghost var leaf := Node(Leaf, nodeToInsert, Leaf);
      Step(s0, q, Route(x.id, prev.element));
      assert SubAt(s0, p) == Leaf by {
        InsertAtPath(m, x, 1);
        LinkedSubAt(s0, p);
      }
      assert prev in ElemSet(s0) by {
        NodeAtPath(s0, q);
      }
      assert Abs(leaf) == Node(Leaf, InsertedRecord(m, x, 1), Leaf);
      assert EmployeeTree.Insert(m, x) == ReplaceAt(m, p, Abs(leaf)) && Ordered(EmployeeTree.Insert(m, x)) by {
        InsertAtPath(m, x, 1);
        InsertOrdered(m, x, 1);
      }
      ghost var s1 := ReplaceAt(s0, p, leaf);
      assert root == RootOf(s1) && ElemSet(s1) == ElemSet(s0) + {nodeToInsert} by {
        ElemSetReplaceAt(s0, p, leaf);
      }
      SetChild(prev, x.id < prev.element.id, nodeToInsert, s0, q, leaf);
      Adopt(s1, EmployeeTree.Insert(m, x));
    }

    /** The search walk of remove: from the root, left on a smaller id and right on a
        larger one, until a node with the id or an empty slot. Returns that node (null
        when the id is absent) and the node passed just before it (null when the walk
        stops at the root); the ghost q is the path to that parent. */
    method Locate(id: int) returns (prev: BinaryNode?, curr: BinaryNode?, ghost q: Path)
      requires Valid()
      ensures ValidPath(shape, SearchPath(Model(), id))
      ensures curr == RootOf(SubAt(shape, SearchPath(Model(), id)))
      ensures prev == null <==> SearchPath(Model(), id) == []
      ensures prev != null ==>
        ValidPath(shape, q) && SubAt(shape, q).Node? && prev == SubAt(shape, q).elem &&
        SearchPath(Model(), id) == q + [Route(id, prev.element)]
    {
      ghost var m, s := Model(), shape;
      prev := null;
      curr := root;
      ghost var p: Path := [];
      q := [];
      while curr != null && curr.element.id != id
        invariant ValidPath(s, p) && curr == RootOf(SubAt(s, p))
        invariant SearchPath(m, id) == p + SearchPath(SubAt(m, p), id)
        invariant prev == null <==> p == []
        invariant p != [] ==>
          p == q + [Route(id, prev.element)] && ValidPath(s, q) &&
          SubAt(s, q).Node? && prev == SubAt(s, q).elem
        decreases Size(SubAt(s, p))
      {
        Step(s, p, Route(id, curr.element));
        LinkedSubAt(s, p);
        SearchPathStep(m, p, id);
        prev := curr;
        if id < curr.element.id {
          curr := curr.left;
        } else {
          curr := curr.right;
        }
        q := p;
        p := p + [Route(id, prev.element)];
      }
      LinkedSubAt(s, p);
      assert SearchPath(SubAt(m, p), id) == [];
      assert SearchPath(m, id) == p + [] == p;
    }

    /** The successor walk of remove for a node with two children: from the right
        child of curr, the node at r, go left while there is a left child. Returns the
        node reached and its parent in that walk (null when the walk did not move);
        the ghost paths w and pw lead to them from curr's right child. */
    method Successor(curr: BinaryNode, ghost r: Path) returns (prev: BinaryNode?, temp: BinaryNode, ghost w: Path, ghost pw: Path)
      requires Valid()
      requires ValidPath(shape, r) && SubAt(shape, r).Node? && curr == SubAt(shape, r).elem
      requires curr.right != null
      ensures SubAt(shape, r).right.Node?
      ensures w == LeftPath(Abs(SubAt(shape, r).right))
      ensures ValidPath(SubAt(shape, r).right, w) && SubAt(SubAt(shape, r).right, w).Node?
      ensures temp == SubAt(SubAt(shape, r).right, w).elem && temp.left == null
      ensures prev == null <==> w == []
      ensures prev != null ==>
        w == pw + [Left] && ValidPath(SubAt(shape, r).right, pw) &&
        SubAt(SubAt(shape, r).right, pw).Node? && prev == SubAt(SubAt(shape, r).right, pw).elem
    {
      ghost var s := shape;
      Step(s, r, Right);
      LinkedSubAt(s, r + [Right]);
      ghost var R := SubAt(s, r).right;
      ghost var a := Abs(R);
      temp := curr.right;
      prev := null;
      w, pw := [], [];
      while temp.left != null
        invariant Linked(R) && a == Abs(R)
        invariant ValidPath(R, w) && SubAt(R, w).Node? && temp == SubAt(R, w).elem
        invariant LeftPath(a) == w + LeftPath(SubAt(a, w))
        invariant prev == null <==> w == []
        invariant prev != null ==>
          w == pw + [Left] && ValidPath(R, pw) && SubAt(R, pw).Node? && prev == SubAt(R, pw).elem
        decreases Size(SubAt(R, w))
      {
        Step(R, w, Left);
        LinkedSubAt(R, w);
        assert SubAt(a, w).left.Node?;
        LeftPathStep(a, w);
        prev := temp;
        temp := temp.left;
        pw := w;
        w := w + [Left];
      }
      Step(R, w, Left);
    }

    /** remove: find the first node on the search path holding id; nothing happens
        when there is none. A node lacking a child is replaced by its other child; a
        node with two children takes over its successor's record and the successor
        node is cut out. The nodes taken out leave the footprint. */
    method Remove(id: int)
      requires Valid()
      modifies Repr
      ensures Valid() && Repr <= old(Repr)
      ensures Model() == RemoveId(old(Model()), id)
    {
      var prev, curr, q := Locate(id);
      if curr == null {
        RemoveAtPath(Model(), id);
        LinkedSubAt(shape, SearchPath(Model(), id));
        return;
      } else if curr.left == null || curr.right == null {
        Splice(prev, curr, id, q, SearchPath(Model(), id));
      } else {
        RemoveTwo(curr, id, SearchPath(Model(), id));
      }
    }

    /** remove when the node found, curr, lacks a child: the other child (or nothing)
        takes its place, as the root when there is no parent, else under the parent
        prev on the side where curr hangs. */
    method Splice(prev: BinaryNode?, curr: BinaryNode, id: int, ghost q: Path, ghost r: Path)
      requires Valid()
      requires r == SearchPath(Model(), id) && ValidPath(shape, r) && curr == RootOf(SubAt(shape, r))
      requires prev == null <==> r == []
      requires prev != null ==>
        ValidPath(shape, q) && SubAt(shape, q).Node? && prev == SubAt(shape, q).elem &&
        r == q + [Route(id, prev.element)]
      requires curr.left == null || curr.right == null
      modifies Repr
      ensures Valid() && Repr <= old(Repr)
      ensures Model() == RemoveId(old(Model()), id)
    {
      ghost var m, s0 := Model(), shape;
      ghost var sub := SubAt(s0, r);
      ghost var u := if sub.left.Leaf? then sub.right else sub.left;
      var replacementNode: BinaryNode?;
      if curr.left == null {
        replacementNode := curr.right;
      } else {
        replacementNode := curr.left;
      }
      LinkedSubAt(s0, r);
      SpliceShape(s0, r);
      assert RemoveId(m, id) == ReplaceAt(m, r, Abs(u)) && Ordered(RemoveId(m, id)) by {
        RemoveAtPath(m, id);
        RemoveOrdered(m, id);
      }
      if prev == null {
        root := replacementNode;
        Adopt(u, RemoveId(m, id));
      } else {
        ghost var d := Route(id, prev.element);
        assert (curr == prev.left) == (d == Left) && prev in Repr by {
          Step(s0, q, d);
          ChildSide(s0, q, d);
          NodeAtPath(s0, q);
        }
        assert ElemSet(sub) == ElemSet(Child(SubAt(s0, q), d)) && prev !in ElemSet(sub) by {
          Step(s0, q, d);
          DistinctSubAt(s0, q);
        }
        ghost var s1 := ReplaceAt(s0, r, u);
        assert r == q + [Side(curr == prev.left)];
        SetChild(prev, curr == prev.left, replacementNode, s0, q, u);
        assert ElemSet(s1) <= ElemSet(s0) by {
          ElemSetReplaceAt(s0, r, u);
        }
        Adopt(s1, RemoveId(m, id));
      }
    }

    /** remove when the node found, curr at path r, has two children: the successor
        (the leftmost node of the right subtree) is cut out by pointing its parent, or
        curr itself when the successor is curr's right child, to the successor's right
        child; then curr takes over the successor's whole record, level included. */
    method RemoveTwo(curr: BinaryNode, id: int, ghost r: Path)
      requires Valid()
      requires r == SearchPath(Model(), id) && ValidPath(shape, r)
      requires SubAt(shape, r).Node? && curr == SubAt(shape, r).elem
      requires curr.left != null && curr.right != null
      modifies Repr
      ensures Valid() && Repr <= old(Repr)
      ensures Model() == RemoveId(old(Model()), id)
    {
      ghost var m, s0 := Model(), shape;
      var prev, temp, w, pw := Successor(curr, r);
      ghost var tp := r + ([Right] + w);
      LinkedSubAt(s0, r);
      RemoveTwoAtPath(m, r);
      assert Ordered(RemoveId(m, id)) && RemoveId(m, id) == ReplaceAt(m, r, RemoveRoot(SubAt(m, r))) by {
        RemoveOrdered(m, id);
        RemoveAtPath(m, id);
      }
      assert curr in Repr && (prev != null ==> prev in Repr) by {
        NodeAtPath(s0, r);
        if prev != null {
          SubAtBelow(s0, r, Right, pw);
          NodeAtPath(s0, r + ([Right] + pw));
        }
      }
      assert SubAt(s0, tp).Node? && temp.element == SubAt(m, tp).elem &&
        Abs(SubAt(s0, tp).right) == SubAt(m, tp).right by {
        SubAtBelow(s0, r, Right, w);
        LinkedSubAt(s0, tp);
      }
      ghost var s1 := ReplaceAt(s0, tp, SubAt(s0, tp).right);
      assert root == RootOf(s1);
      Unhook(curr, prev, temp, s0, r, w, pw);
      assert Abs(s1) == ReplaceAt(m, tp, SubAt(m, tp).right);
      ReplaceBelow(s0, r, Right, w, SubAt(s0, tp).right);
      LinkedSubAt(s1, r);
      SetRecord(curr, temp.element, s1, r);
      Adopt(s1, RemoveId(m, id));
    }

    /** makeEmpty: look up the least id and remove it, until the id looked up is the
        -1 that findMin reports for an empty tree. The tree ends up empty unless a
        record carries the id -1 (see EmptiedSentinel). */
    method MakeEmpty()
      requires Valid()
      modifies Repr
      ensures Valid() && Repr <= old(Repr)
      ensures Model() == Emptied(old(Model()))
      ensures -1 !in Ids(old(Model())) ==> Model() == Leaf
    {
      ghost var m0 := Model();
      var least := FindMin();
      var min := least.id;
      while min != -1
        invariant Valid() && Repr <= old(Repr)
        invariant Drain(Model(), min) == Emptied(m0)
        decreases Size(Model()) + (if min != -1 then 1 else 0)
      {
        DrainStep(Model());
        least := FindMin();
        min := least.id;
        Remove(min);
      }
      if -1 !in Ids(m0) {
        EmptiedClears(m0);
      }
    }

    /** report: an in-order walk with an explicit stack of nodes and a parallel stack
        of their depths, the root at depth 1. Returns the (id, depth) lines it
        prints, in order; nothing on an empty tree. */
    method Report() returns (lines: seq<(int, int)>)
      requires Valid()
      ensures lines == Listing(Model(), 1)
    {
      if root == null {
        return [];
      }
      lines := Walk(root, shape);
    }
  }
}
