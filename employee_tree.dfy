/** The search tree of employee records as a value: the records, the ordering
    invariant, and each operation of the pointer-based tree as a function on
    values. The heap implementation in module Bst is proved against these. */
module EmployeeTree {
  import opened Trees

  datatype Option<T> = None | Some(value: T)

  /** An employee record; `level` is the depth stamped on it when it was inserted. */
  datatype Employee = Employee(id: int, age: int, name: string, level: int)

  /** The record a default-constructed Employee holds: every field -1 or empty.
      findMin and findMax answer it on an empty tree. */
  const DefaultEmployee := Employee(-1, -1, "", -1)

  /** The ids occurring in a tree. */
  function Ids(t: Tree<Employee>): set<int>
  {
    match t
    case Leaf => {}
    case Node(l, e, r) => Ids(l) + {e.id} + Ids(r)
  }

  /** How many records of t carry the id. */
  function Count(t: Tree<Employee>, id: int): nat
  {
    match t
    case Leaf => 0
    case Node(l, e, r) => Count(l, id) + (if e.id == id then 1 else 0) + Count(r, id)
  }

  /** The ordering invariant: ids in the left subtree are strictly smaller than the
      node's id, ids in the right subtree are at least as large (equal ids go right). */
  predicate Ordered(t: Tree<Employee>)
  {
    match t
    case Leaf => true
    case Node(l, e, r) =>
      (forall i :: i in Ids(l) ==> i < e.id) &&
      (forall i :: i in Ids(r) ==> e.id <= i) &&
      Ordered(l) && Ordered(r)
  }

  /** The way the walks turn at a node holding e when looking for id. */
  function Route(id: int, e: Employee): Dir
  {
    if id < e.id then Left else Right
  }

  /** Cancelling a common part of two multiset sums. */
  lemma Cancel<T>(a: multiset<T>, b: multiset<T>, c: multiset<T>)
    requires a + c == b + c
    ensures a == b
  {
    assert forall x :: a[x] == b[x] by {
      forall x ensures a[x] == b[x] {
        assert (a + c)[x] == (b + c)[x];
      }
    }
  }

  lemma {:induction false} CountIds(t: Tree<Employee>, id: int)
    ensures Count(t, id) > 0 <==> id in Ids(t)
  {
    match t
    case Leaf =>
    case Node(l, e, r) =>
      CountIds(l, id);
      CountIds(r, id);
  }

  lemma {:induction false} IdsOfElems(t: Tree<Employee>, e: Employee)
    requires e in Elems(t)
    ensures e.id in Ids(t)
  {
    match t
    case Leaf =>
    case Node(l, x, r) =>
      if e in Elems(l) {
        IdsOfElems(l, e);
      } else if e in Elems(r) {
        IdsOfElems(r, e);
      }
  }

  /** Ordering is inherited by every subtree. */
  lemma {:induction false} OrderedSubAt(t: Tree<Employee>, p: Path)
    requires Ordered(t)
    ensures Ordered(SubAt(t, p))
    ensures Ids(SubAt(t, p)) <= Ids(t)
    decreases p
  {
    if p != [] && t.Node? {
      OrderedSubAt(Child(t, p[0]), p[1..]);
    }
  }

  // ----------------------------------------------------------------------------
  // insert

  /** Insertion into the subtree t whose root sits at depth d: go left on a strictly
      smaller id, right otherwise, and hang a new leaf stamped with its depth at the
      first empty slot. */
  function InsertAt(t: Tree<Employee>, x: Employee, d: int): Tree<Employee>
  {
    match t
    case Leaf => Node(Leaf, x.(level := d), Leaf)
    case Node(l, e, r) =>
      if x.id < e.id then Node(InsertAt(l, x, d + 1), e, r)
      else Node(l, e, InsertAt(r, x, d + 1))
  }

  /** Insertion into the whole tree, whose root is at depth 1. */
  function Insert(t: Tree<Employee>, x: Employee): Tree<Employee>
  {
    InsertAt(t, x, 1)
  }

  /** The turns the insertion walk takes for id, down to the empty slot. */
  function InsertPath(t: Tree<Employee>, id: int): Path
  {
    match t
    case Leaf => []
    case Node(l, e, r) => [Route(id, e)] + InsertPath(Child(t, Route(id, e)), id)
  }

  /** One step of the insertion walk: from a node on the insertion path, the turn
      taken leads to the next node of the path or to its empty slot. */
  lemma InsertPathStep(t: Tree<Employee>, p: Path, id: int)
    requires ValidPath(t, p) && SubAt(t, p).Node?
    requires InsertPath(t, id) == p + InsertPath(SubAt(t, p), id)
    ensures ValidPath(t, p + [Route(id, SubAt(t, p).elem)])
    ensures InsertPath(t, id) ==
      (p + [Route(id, SubAt(t, p).elem)]) + InsertPath(SubAt(t, p + [Route(id, SubAt(t, p).elem)]), id)
  {
    var d := Route(id, SubAt(t, p).elem);
    SubAtSnoc(t, p, d);
    var rest := InsertPath(SubAt(t, p + [d]), id);
    assert InsertPath(SubAt(t, p), id) == [d] + rest;
    forall i | 0 <= i < |p| + 1 + |rest| ensures (p + ([d] + rest))[i] == ((p + [d]) + rest)[i] { }
    assert p + ([d] + rest) == (p + [d]) + rest;
  }

  /** The record insertion stores: x stamped with the depth of its new node, one
      more than the number of nodes the walk passes. */
  function InsertedRecord(t: Tree<Employee>, x: Employee, d: int): Employee
  {
    x.(level := d + |InsertPath(t, x.id)|)
  }

  /** Insertion adds one leaf at the end of the search path, stamped with the number
      of nodes on that path plus the depth of t's root, and leaves the rest as it was. */
  lemma {:induction false} InsertAtPath(t: Tree<Employee>, x: Employee, d: int)
    ensures ValidPath(t, InsertPath(t, x.id))
    ensures SubAt(t, InsertPath(t, x.id)) == Leaf
    ensures InsertAt(t, x, d) ==
      ReplaceAt(t, InsertPath(t, x.id), Node(Leaf, InsertedRecord(t, x, d), Leaf))
  {
    match t
    case Leaf =>
    case Node(l, e, r) =>
      InsertAtPath(Child(t, Route(x.id, e)), x, d + 1);
  }

  /** Insertion adds exactly one record, even when its id is already present. */
  lemma InsertAddsOne(t: Tree<Employee>, x: Employee, d: int)
    ensures Elems(InsertAt(t, x, d)) == Elems(t) + multiset{InsertedRecord(t, x, d)}
    ensures Size(InsertAt(t, x, d)) == Size(t) + 1
  {
    var p := InsertPath(t, x.id);
    var leaf := Node(Leaf, InsertedRecord(t, x, d), Leaf);
    InsertAtPath(t, x, d);
    ElemsFillSlot(t, p, leaf);
    ElemsSingleton(leaf.elem);
    InsertSize(t, x, d);
  }

  lemma {:induction false} InsertSize(t: Tree<Employee>, x: Employee, d: int)
    ensures Size(InsertAt(t, x, d)) == Size(t) + 1
  {
    match t
    case Leaf =>
    case Node(l, e, r) =>
      InsertSize(Child(t, Route(x.id, e)), x, d + 1);
  }

  /** The id set gains the new id and the count of that id goes up by one. */
  lemma {:induction false} InsertIds(t: Tree<Employee>, x: Employee, d: int)
    ensures Ids(InsertAt(t, x, d)) == Ids(t) + {x.id}
    ensures Count(InsertAt(t, x, d), x.id) == Count(t, x.id) + 1
  {
    match t
    case Leaf =>
    case Node(l, e, r) =>
      InsertIds(Child(t, Route(x.id, e)), x, d + 1);
  }

  /** Insertion keeps the tree ordered. */
  lemma {:induction false} InsertOrdered(t: Tree<Employee>, x: Employee, d: int)
    requires Ordered(t)
    ensures Ordered(InsertAt(t, x, d))
  {
    match t
    case Leaf =>
    case Node(l, e, r) =>
      InsertOrdered(Child(t, Route(x.id, e)), x, d + 1);
      InsertIds(Child(t, Route(x.id, e)), x, d + 1);
  }

  // ----------------------------------------------------------------------------
  // find

  /** The record find reports for id: the first node on the search path holding id. */
  function Search(t: Tree<Employee>, id: int): Option<Employee>
  {
    match t
    case Leaf => None
    case Node(l, e, r) =>
      if e.id == id then Some(e)
      else if id < e.id then Search(l, id)
      else Search(r, id)
  }

  /** The turns a walk for id takes down to the first node holding id, or to the
      empty slot where it gives up. */
  function SearchPath(t: Tree<Employee>, id: int): Path
  {
    match t
    case Leaf => []
    case Node(l, e, r) =>
      if e.id == id then [] else [Route(id, e)] + SearchPath(Child(t, Route(id, e)), id)
  }

  /** The search path ends at the node find reports, or at an empty slot when find fails. */
  lemma {:induction false} SearchAtPath(t: Tree<Employee>, id: int)
    ensures ValidPath(t, SearchPath(t, id))
    ensures Search(t, id) ==
      if SubAt(t, SearchPath(t, id)).Node? then Some(SubAt(t, SearchPath(t, id)).elem) else None
    ensures SubAt(t, SearchPath(t, id)).Node? ==> SubAt(t, SearchPath(t, id)).elem.id == id
  {
    match t
    case Leaf =>
    case Node(l, e, r) =>
      if e.id != id {
        SearchAtPath(Child(t, Route(id, e)), id);
      }
  }

  /** In an ordered tree find succeeds exactly when some record has the id, and what
      it reports is a record of the tree with that id. */
  lemma {:induction false} SearchCorrect(t: Tree<Employee>, id: int)
    requires Ordered(t)
    ensures Search(t, id).Some? <==> id in Ids(t)
    ensures Search(t, id).Some? ==> Search(t, id).value.id == id && Search(t, id).value in Elems(t)
  {
    match t
    case Leaf =>
    case Node(l, e, r) =>
      SearchCorrect(l, id);
      SearchCorrect(r, id);
  }

  /** A record inserted under a new id is found afterwards, stamped with its level. */
  lemma {:induction false} InsertThenSearch(t: Tree<Employee>, x: Employee, d: int)
    requires x.id !in Ids(t)
    ensures Search(InsertAt(t, x, d), x.id) == Some(InsertedRecord(t, x, d))
  {
    match t
    case Leaf =>
    case Node(l, e, r) =>
      InsertThenSearch(Child(t, Route(x.id, e)), x, d + 1);
  }

  /** With a duplicate id the older record, higher up, is the one found. */
  lemma {:induction false} InsertDuplicateThenSearch(t: Tree<Employee>, x: Employee, d: int)
    requires Search(t, x.id).Some?
    ensures Search(InsertAt(t, x, d), x.id) == Search(t, x.id)
  {
    match t
    case Leaf =>
    case Node(l, e, r) =>
      if e.id != x.id {
        InsertDuplicateThenSearch(Child(t, Route(x.id, e)), x, d + 1);
      }
  }

  // ----------------------------------------------------------------------------
  // findMin, findMax

  /** The record of the leftmost node, or the default record on an empty tree. */
  function Leftmost(t: Tree<Employee>): Employee
  {
    match t
    case Leaf => DefaultEmployee
    case Node(Leaf, e, _) => e
    case Node(l, _, _) => Leftmost(l)
  }

  /** The record of the rightmost node, or the default record on an empty tree. */
  function Rightmost(t: Tree<Employee>): Employee
  {
    match t
    case Leaf => DefaultEmployee
    case Node(_, e, Leaf) => e
    case Node(_, _, r) => Rightmost(r)
  }

  /** The leftmost record holds the least id of an ordered tree. */
  lemma {:induction false} LeftmostIsMin(t: Tree<Employee>)
    requires Ordered(t) && t.Node?
    ensures Leftmost(t) in Elems(t)
    ensures forall i :: i in Ids(t) ==> Leftmost(t).id <= i
  {
    if t.left.Node? {
      LeftmostIsMin(t.left);
      IdsOfElems(t.left, Leftmost(t.left));
    }
  }

  /** The rightmost record holds the greatest id of an ordered tree. */
  lemma {:induction false} RightmostIsMax(t: Tree<Employee>)
    requires Ordered(t) && t.Node?
    ensures Rightmost(t) in Elems(t)
    ensures forall i :: i in Ids(t) ==> i <= Rightmost(t).id
  {
    if t.right.Node? {
      RightmostIsMax(t.right);
      IdsOfElems(t.right, Rightmost(t.right));
    }
  }

  /** The least and greatest ids of a non-empty ordered tree are ids of its
      leftmost and rightmost records. */
  lemma ExtremeIds(t: Tree<Employee>)
    requires Ordered(t) && t.Node?
    ensures Leftmost(t).id in Ids(t) && forall i :: i in Ids(t) ==> Leftmost(t).id <= i
    ensures Rightmost(t).id in Ids(t) && forall i :: i in Ids(t) ==> i <= Rightmost(t).id
  {
    LeftmostIsMin(t);
    IdsOfElems(t, Leftmost(t));
    RightmostIsMax(t);
    IdsOfElems(t, Rightmost(t));
  }

  // ----------------------------------------------------------------------------
  // remove

  /** Detaches the leftmost node: its record, and the tree with that node replaced
      by its right subtree. */
  function RemoveMin(t: Tree<Employee>): (Employee, Tree<Employee>)
    requires t.Node?
  {
    if t.left.Leaf? then (t.elem, t.right)
    else
      var (m, l') := RemoveMin(t.left);
      (m, Node(l', t.elem, t.right))
  }

  /** Removal of the root node: a missing child lets the other one take its place;
      with two children the successor's record (level included) is copied into the
      root and the successor node is detached. */
  function RemoveRoot(t: Tree<Employee>): Tree<Employee>
    requires t.Node?
  {
    if t.left.Leaf? then t.right
    else if t.right.Leaf? then t.left
    else
      var (m, r') := RemoveMin(t.right);
      Node(t.left, m, r')
  }

  /** Removal of the first node on the search path whose id matches; nothing when
      there is none. */
  function RemoveId(t: Tree<Employee>, id: int): Tree<Employee>
  {
    match t
    case Leaf => Leaf
    case Node(l, e, r) =>
      if e.id == id then RemoveRoot(t)
      else if id < e.id then Node(RemoveId(l, id), e, r)
      else Node(l, e, RemoveId(r, id))
  }

  /** The turns from the root to the leftmost node. */
  function LeftPath(t: Tree<Employee>): Path
  {
    if t.Leaf? || t.left.Leaf? then [] else [Left] + LeftPath(t.left)
  }

  /** The leftmost node sits at the end of the left path, has no left child, and
      detaching it puts its right subtree in its place. */
  lemma {:induction false} RemoveMinAtPath(t: Tree<Employee>)
    requires t.Node?
    ensures ValidPath(t, LeftPath(t))
    ensures SubAt(t, LeftPath(t)).Node? && SubAt(t, LeftPath(t)).left == Leaf
    ensures RemoveMin(t).0 == SubAt(t, LeftPath(t)).elem == Leftmost(t)
    ensures RemoveMin(t).1 == ReplaceAt(t, LeftPath(t), SubAt(t, LeftPath(t)).right)
  {
    if t.left.Node? {
      RemoveMinAtPath(t.left);
    }
  }

  /** One step of the search walk: from a node on the search path whose id differs,
      the turn taken leads further along the path. */
  lemma SearchPathStep(t: Tree<Employee>, p: Path, id: int)
    requires ValidPath(t, p) && SubAt(t, p).Node? && SubAt(t, p).elem.id != id
    requires SearchPath(t, id) == p + SearchPath(SubAt(t, p), id)
    ensures ValidPath(t, p + [Route(id, SubAt(t, p).elem)])
    ensures SearchPath(t, id) ==
      (p + [Route(id, SubAt(t, p).elem)]) + SearchPath(SubAt(t, p + [Route(id, SubAt(t, p).elem)]), id)
  {
    var d := Route(id, SubAt(t, p).elem);
    SubAtSnoc(t, p, d);
    var rest := SearchPath(SubAt(t, p + [d]), id);
    assert SearchPath(SubAt(t, p), id) == [d] + rest;
    forall i | 0 <= i < |p| + 1 + |rest| ensures (p + ([d] + rest))[i] == ((p + [d]) + rest)[i] { }
    assert p + ([d] + rest) == (p + [d]) + rest;
  }

  /** One step of the walk to the leftmost node: from a node on the left path that
      has a left child, going left stays on the path. */
  lemma LeftPathStep(t: Tree<Employee>, p: Path)
    requires ValidPath(t, p) && SubAt(t, p).Node? && SubAt(t, p).left.Node?
    requires LeftPath(t) == p + LeftPath(SubAt(t, p))
    ensures ValidPath(t, p + [Left])
    ensures LeftPath(t) == (p + [Left]) + LeftPath(SubAt(t, p + [Left]))
  {
    SubAtSnoc(t, p, Left);
    var rest := LeftPath(SubAt(t, p + [Left]));
    assert LeftPath(SubAt(t, p)) == [Left] + rest;
    forall i | 0 <= i < |p| + 1 + |rest| ensures (p + ([Left] + rest))[i] == ((p + [Left]) + rest)[i] { }
    assert p + ([Left] + rest) == (p + [Left]) + rest;
  }

  /** Removing a node with two children at path r, done the way the heap code does it:
      the successor node at r + ([Right] + LeftPath(right subtree)) is replaced by its
      right subtree, then the record at r is overwritten with the successor's. The
      result is the tree with RemoveRoot applied at r. */
  lemma {:induction false} RemoveTwoAtPath(t: Tree<Employee>, r: Path)
    requires ValidPath(t, r) && SubAt(t, r).Node? && SubAt(t, r).left.Node? && SubAt(t, r).right.Node?
    ensures var tp := r + ([Right] + LeftPath(SubAt(t, r).right));
      ValidPath(t, tp) && SubAt(t, tp).Node? && SubAt(t, tp).left.Leaf? &&
      var t1 := ReplaceAt(t, tp, SubAt(t, tp).right);
      ValidPath(t1, r) && SubAt(t1, r).Node? && SubAt(t1, r).left == SubAt(t, r).left &&
      ReplaceAt(t1, r, Node(SubAt(t1, r).left, SubAt(t, tp).elem, SubAt(t1, r).right)) ==
        ReplaceAt(t, r, RemoveRoot(SubAt(t, r)))
  {
    var sub := SubAt(t, r);
    var lp := LeftPath(sub.right);
    var tp := r + ([Right] + lp);
    RemoveMinAtPath(sub.right);
    assert ([Right] + lp)[1..] == lp;
    assert SubAt(sub, [Right] + lp) == SubAt(sub.right, lp);
    assert ValidPath(sub, [Right] + lp);
    SubAtAppend(t, r, [Right] + lp);
    var x := SubAt(t, tp).right;
    ReplaceAtAppend(t, r, [Right] + lp, x);
    var sub1 := ReplaceAt(sub, [Right] + lp, x);
    assert sub1 == Node(sub.left, sub.elem, ReplaceAt(sub.right, lp, x));
    SubAtReplaceAt(t, r, sub1);
    ReplaceAtTwice(t, r, sub1, Node(sub.left, SubAt(t, tp).elem, sub1.right));
  }

  /** Removal of a present id happens at the end of its search path. */
  lemma {:induction false} RemoveAtPath(t: Tree<Employee>, id: int)
    ensures SubAt(t, SearchPath(t, id)).Node? ==>
      RemoveId(t, id) == ReplaceAt(t, SearchPath(t, id), RemoveRoot(SubAt(t, SearchPath(t, id))))
    ensures SubAt(t, SearchPath(t, id)).Leaf? ==> RemoveId(t, id) == t
  {
    match t
    case Leaf =>
    case Node(l, e, r) =>
      if e.id != id {
        RemoveAtPath(Child(t, Route(id, e)), id);
      }
  }

  /** Ids shrink under detaching the leftmost node, which holds the least of them;
      the rest stays ordered. */
  lemma {:induction false} RemoveMinOrdered(t: Tree<Employee>)
    requires Ordered(t) && t.Node?
    ensures RemoveMin(t).0.id in Ids(t)
    ensures Ids(RemoveMin(t).1) <= Ids(t)
    ensures Ordered(RemoveMin(t).1)
    ensures forall i :: i in Ids(RemoveMin(t).1) ==> RemoveMin(t).0.id <= i
  {
    if t.left.Node? {
      RemoveMinOrdered(t.left);
    }
  }

  /** Detaching the leftmost node removes exactly its record. */
  lemma RemoveMinElems(t: Tree<Employee>)
    requires t.Node?
    ensures Elems(RemoveMin(t).1) + multiset{RemoveMin(t).0} == Elems(t)
  {
    RemoveMinAtPath(t);
    var p := LeftPath(t);
    var s := SubAt(t, p);
    ElemsReplaceAt(t, p, s.right);
    assert Elems(s) == multiset{s.elem} + Elems(s.right);
    Cancel(Elems(RemoveMin(t).1) + multiset{s.elem}, Elems(t), Elems(s.right));
  }

  /** Removing the root removes exactly the root's record, ordered tree or not. */
  lemma RemoveRootElems(t: Tree<Employee>)
    requires t.Node?
    ensures Elems(RemoveRoot(t)) + multiset{t.elem} == Elems(t)
  {
    if t.left.Node? && t.right.Node? {
      var m, r' := RemoveMin(t.right).0, RemoveMin(t.right).1;
      RemoveMinElems(t.right);
      var a, b := Elems(t.left), Elems(r');
      assert RemoveRoot(t) == Node(t.left, m, r');
      assert Elems(RemoveRoot(t)) == a + multiset{m} + b;
      assert Elems(t) == a + multiset{t.elem} + (b + multiset{m});
      assert (a + multiset{m} + b) + multiset{t.elem} == a + multiset{t.elem} + (b + multiset{m});
    }
  }

  /** Removing the root removes exactly the root's record and keeps the tree ordered. */
  lemma RemoveRootCorrect(t: Tree<Employee>)
    requires Ordered(t) && t.Node?
    ensures Elems(RemoveRoot(t)) + multiset{t.elem} == Elems(t)
    ensures Ids(RemoveRoot(t)) <= Ids(t)
    ensures Ordered(RemoveRoot(t))
  {
    RemoveRootElems(t);
    if t.left.Node? && t.right.Node? {
      RemoveMinOrdered(t.right);
      var m := RemoveMin(t.right).0;
      assert t.elem.id <= m.id;
      assert forall i :: i in Ids(t.left) ==> i < m.id;
    }
  }

  /** Removal of a present id removes exactly the record find reports for it. */
  lemma RemoveRemovesOne(t: Tree<Employee>, id: int)
    requires Ordered(t) && Search(t, id).Some?
    ensures Elems(RemoveId(t, id)) + multiset{Search(t, id).value} == Elems(t)
  {
    SearchAtPath(t, id);
    RemoveAtPath(t, id);
    var p := SearchPath(t, id);
    var s := SubAt(t, p);
    OrderedSubAt(t, p);
    RemoveRootCorrect(s);
    ElemsReplaceAt(t, p, RemoveRoot(s));
    Cancel(Elems(RemoveId(t, id)) + multiset{s.elem}, Elems(t), Elems(RemoveRoot(s)));
  }

  /** Removal takes away one record with the id when find would report one, and
      leaves the count of every other id alone. */
  lemma {:induction false} RemoveCount(t: Tree<Employee>, id: int, j: int)
    ensures Count(RemoveId(t, id), j) + (if j == id && Search(t, id).Some? then 1 else 0) == Count(t, j)
  {
    match t
    case Leaf =>
    case Node(l, e, r) =>
      if e.id == id {
        RemoveRootCount(t, j);
      } else {
        RemoveCount(Child(t, Route(id, e)), id, j);
      }
  }

  lemma {:induction false} RemoveMinCount(t: Tree<Employee>, j: int)
    requires t.Node?
    ensures Count(RemoveMin(t).1, j) + (if RemoveMin(t).0.id == j then 1 else 0) == Count(t, j)
    ensures Size(RemoveMin(t).1) + 1 == Size(t)
  {
    if t.left.Node? {
      RemoveMinCount(t.left, j);
    }
  }

  lemma RemoveRootCount(t: Tree<Employee>, j: int)
    requires t.Node?
    ensures Count(RemoveRoot(t), j) + (if t.elem.id == j then 1 else 0) == Count(t, j)
    ensures Size(RemoveRoot(t)) + 1 == Size(t)
  {
    if t.left.Node? && t.right.Node? {
      RemoveMinCount(t.right, j);
    }
  }

  /** Removal takes away one node exactly when find would report a record. */
  lemma {:induction false} RemoveSize(t: Tree<Employee>, id: int)
    ensures Size(RemoveId(t, id)) + (if Search(t, id).Some? then 1 else 0) == Size(t)
  {
    match t
    case Leaf =>
    case Node(l, e, r) =>
      if e.id == id {
        RemoveRootCount(t, id);
      } else {
        RemoveSize(Child(t, Route(id, e)), id);
      }
  }

  /** Removal of an id no record has leaves the tree as it was. */
  lemma {:induction false} RemoveAbsent(t: Tree<Employee>, id: int)
    requires id !in Ids(t)
    ensures RemoveId(t, id) == t
  {
    match t
    case Leaf =>
    case Node(l, e, r) =>
      RemoveAbsent(l, id);
      RemoveAbsent(r, id);
  }

  /** Removal keeps the tree ordered. */
  lemma {:induction false} RemoveOrdered(t: Tree<Employee>, id: int)
    requires Ordered(t)
    ensures Ordered(RemoveId(t, id))
    ensures Ids(RemoveId(t, id)) <= Ids(t)
  {
    match t
    case Leaf =>
    case Node(l, e, r) =>
      if e.id == id {
        RemoveRootCorrect(t);
      } else {
        RemoveOrdered(Child(t, Route(id, e)), id);
      }
  }

  /** After removing an id held by a single record, find no longer finds it. */
  lemma RemoveThenSearch(t: Tree<Employee>, id: int)
    requires Ordered(t) && Count(t, id) == 1
    ensures Search(RemoveId(t, id), id) == None
  {
    CountIds(t, id);
    SearchCorrect(t, id);
    RemoveCount(t, id, id);
    RemoveOrdered(t, id);
    CountIds(RemoveId(t, id), id);
    SearchCorrect(RemoveId(t, id), id);
  }

  // ----------------------------------------------------------------------------
  // makeEmpty

  /** One round of makeEmpty's loop on a non-empty ordered tree removes a node, the
      one find reports for the least id, and keeps the tree ordered. */
  lemma DrainStep(t: Tree<Employee>)
    requires Ordered(t)
    ensures Ordered(RemoveId(t, Leftmost(t).id))
    ensures t.Node? ==> Size(RemoveId(t, Leftmost(t).id)) + 1 == Size(t)
    ensures t.Leaf? ==> Leftmost(t).id == -1 && RemoveId(t, Leftmost(t).id) == Leaf
  {
    RemoveOrdered(t, Leftmost(t).id);
    RemoveSize(t, Leftmost(t).id);
    if t.Node? {
      LeftmostIsMin(t);
      IdsOfElems(t, Leftmost(t));
      SearchCorrect(t, Leftmost(t).id);
    }
  }

  /** The tree makeEmpty's loop leaves behind when it is entered with the loop
      variable at last: while the id last removed is not -1, look up the least id
      and remove it. */
  function Drain(t: Tree<Employee>, last: int): Tree<Employee>
    requires Ordered(t)
    decreases Size(t) + (if last != -1 then 1 else 0)
  {
    if last == -1 then t
    else
      DrainStep(t);
      Drain(RemoveId(t, Leftmost(t).id), Leftmost(t).id)
  }

  /** makeEmpty: the loop variable starts at the least id (-1 on an empty tree). */
  function Emptied(t: Tree<Employee>): Tree<Employee>
    requires Ordered(t)
  {
    Drain(t, Leftmost(t).id)
  }

  lemma {:induction false} DrainClears(t: Tree<Employee>, last: int)
    requires Ordered(t) && -1 !in Ids(t)
    requires last != -1 || t == Leaf
    ensures Drain(t, last) == Leaf
    decreases Size(t) + (if last != -1 then 1 else 0)
  {
    if last != -1 {
      var m := Leftmost(t).id;
      DrainStep(t);
      RemoveOrdered(t, m);
      if t.Node? {
        LeftmostIsMin(t);
        IdsOfElems(t, Leftmost(t));
      }
      DrainClears(RemoveId(t, m), m);
    }
  }

  /** makeEmpty empties every ordered tree in which no record has the id -1. */
  lemma EmptiedClears(t: Tree<Employee>)
    requires Ordered(t) && -1 !in Ids(t)
    ensures Emptied(t) == Leaf
  {
    if t.Node? {
      LeftmostIsMin(t);
      IdsOfElems(t, Leftmost(t));
    }
    DrainClears(t, Leftmost(t).id);
  }

  lemma {:induction false} DrainSentinel(t: Tree<Employee>, last: int, i: int)
    requires Ordered(t) && -1 in Ids(t) && last != -1
    ensures Count(Drain(t, last), i) ==
      if i < -1 then 0 else if i == -1 then Count(t, i) - 1 else Count(t, i)
    decreases Size(t)
  {
    var m := Leftmost(t).id;
    DrainStep(t);
    LeftmostIsMin(t);
    IdsOfElems(t, Leftmost(t));
    SearchCorrect(t, m);
    RemoveCount(t, m, i);
    RemoveCount(t, m, -1);
    CountIds(t, i);
    CountIds(t, -1);
    if m != -1 {
      CountIds(RemoveId(t, m), -1);
      DrainSentinel(RemoveId(t, m), m, i);
    }
  }

  /** When a record has the id -1, makeEmpty stops right after removing it: records
      with smaller ids are gone, one record with id -1 is gone, and every larger id
      keeps all its records. If -1 is already the least id the loop never runs. */
  lemma EmptiedSentinel(t: Tree<Employee>, i: int)
    requires Ordered(t) && -1 in Ids(t)
    ensures Leftmost(t).id == -1 ==> Emptied(t) == t
    ensures Leftmost(t).id != -1 ==>
      Count(Emptied(t), i) == if i < -1 then 0 else if i == -1 then Count(t, i) - 1 else Count(t, i)
  {
    if Leftmost(t).id != -1 {
      DrainSentinel(t, Leftmost(t).id, i);
    }
  }

  // ----------------------------------------------------------------------------
  // report

  /** The (id, depth) lines report prints, in order, for the subtree t whose root
      sits at depth d. */
  function Listing(t: Tree<Employee>, d: int): (lines: seq<(int, int)>)
    ensures |lines| == Size(t)
  {
    match t
    case Leaf => []
    case Node(l, e, r) => Listing(l, d + 1) + [(e.id, d)] + Listing(r, d + 1)
  }

  /** Every record carries its depth as its level, the root of t being at depth d. */
  predicate Stamped(t: Tree<Employee>, d: int)
  {
    match t
    case Leaf => true
    case Node(l, e, r) => e.level == d && Stamped(l, d + 1) && Stamped(r, d + 1)
  }

  /** The listing shows the records' ids in in-order sequence. */
  lemma {:induction false} ListingInOrder(t: Tree<Employee>, d: int)
    ensures |InOrder(t)| == |Listing(t, d)|
    ensures forall k :: 0 <= k < |Listing(t, d)| ==> Listing(t, d)[k].0 == InOrder(t)[k].id
  {
    match t
    case Leaf =>
    case Node(l, e, r) =>
      ListingInOrder(l, d + 1);
      ListingInOrder(r, d + 1);
      var a, b := Listing(l, d + 1), Listing(r, d + 1);
      var s, o := Listing(t, d), InOrder(t);
      assert s == a + [(e.id, d)] + b;
      assert o == InOrder(l) + [e] + InOrder(r);
      forall k | 0 <= k < |s| ensures s[k].0 == o[k].id {
        if k < |a| {
          assert s[k] == a[k] && o[k] == InOrder(l)[k];
        } else if k > |a| {
          assert s[k] == b[k - |a| - 1] && o[k] == InOrder(r)[k - |a| - 1];
        }
      }
  }

  /** The listing has one line per node and shows each record of the tree exactly
      once: its k-th id is the id of the k-th record of an in-order sequence that
      holds every record as many times as the tree does. */
  lemma ListingCoversElems(t: Tree<Employee>, d: int)
    ensures |Listing(t, d)| == Size(t)
    ensures multiset(InOrder(t)) == Elems(t) && |InOrder(t)| == |Listing(t, d)|
    ensures forall k :: 0 <= k < |Listing(t, d)| ==> Listing(t, d)[k].0 == InOrder(t)[k].id
  {
    SizeIsCount(t);
    ListingInOrder(t, d);
  }

  /** When every record carries its depth as its level, the level column of the
      listing shows exactly the stored levels, in in-order sequence. */
  lemma {:induction false} ListingLevels(t: Tree<Employee>, d: int)
    requires Stamped(t, d)
    ensures |InOrder(t)| == |Listing(t, d)|
    ensures forall k :: 0 <= k < |Listing(t, d)| ==> Listing(t, d)[k].1 == InOrder(t)[k].level
  {
    match t
    case Leaf =>
    case Node(l, e, r) =>
      ListingLevels(l, d + 1);
      ListingLevels(r, d + 1);
      var a, b := Listing(l, d + 1), Listing(r, d + 1);
      var s, o := Listing(t, d), InOrder(t);
      assert s == a + [(e.id, d)] + b;
      assert o == InOrder(l) + [e] + InOrder(r);
      forall k | 0 <= k < |s| ensures s[k].1 == o[k].level {
        if k < |a| {
          assert s[k] == a[k] && o[k] == InOrder(l)[k];
        } else if k > |a| {
          assert s[k] == b[k - |a| - 1] && o[k] == InOrder(r)[k - |a| - 1];
        }
      }
  }

  /** Every id listed is an id of the tree, and every depth listed is at least d. */
  lemma {:induction false} ListingIds(t: Tree<Employee>, d: int)
    ensures forall k :: 0 <= k < |Listing(t, d)| ==> Listing(t, d)[k].0 in Ids(t)
    ensures forall k :: 0 <= k < |Listing(t, d)| ==> d <= Listing(t, d)[k].1
  {
    match t
    case Leaf =>
    case Node(l, e, r) =>
      ListingIds(l, d + 1);
      ListingIds(r, d + 1);
      var a, b := Listing(l, d + 1), Listing(r, d + 1);
      assert Listing(t, d) == a + [(e.id, d)] + b;
      forall k | 0 <= k < |Listing(t, d)|
        ensures Listing(t, d)[k].0 in Ids(t) && d <= Listing(t, d)[k].1
      {
        if k < |a| {
          assert Listing(t, d)[k] == a[k];
        } else if k > |a| {
          assert Listing(t, d)[k] == b[k - |a| - 1];
        }
      }
  }

  /** On an ordered tree the ids come out in ascending order. */
  lemma {:induction false} ListingSorted(t: Tree<Employee>, d: int)
    requires Ordered(t)
    ensures forall i, j :: 0 <= i < j < |Listing(t, d)| ==> Listing(t, d)[i].0 <= Listing(t, d)[j].0
  {
    match t
    case Leaf =>
    case Node(l, e, r) =>
      ListingSorted(l, d + 1);
      ListingSorted(r, d + 1);
      ListingIds(l, d + 1);
      ListingIds(r, d + 1);
      var a, b := Listing(l, d + 1), Listing(r, d + 1);
      var s := Listing(t, d);
      assert s == a + [(e.id, d)] + b;
      forall i, j | 0 <= i < j < |s| ensures s[i].0 <= s[j].0 {
        var x := if i < |a| then a[i].0 else if i == |a| then e.id else b[i - |a| - 1].0;
        var y := if j < |a| then a[j].0 else if j == |a| then e.id else b[j - |a| - 1].0;
        assert s[i].0 == x && s[j].0 == y;
      }
  }

  /** What is still to be printed for the nodes waiting on report's stack: for each
      subtree c (with its root's depth d), the root's line and then c's right
      subtree. */
  function Pending(subs: seq<Tree<Employee>>, depths: seq<int>): (lines: seq<(int, int)>)
    requires |subs| == |depths|
    ensures |subs| > 0 && subs[0].Node? ==> |lines| > 0
  {
    if |subs| == 0 then []
    else
      match subs[0]
      case Leaf => Pending(subs[1..], depths[1..])
      case Node(_, e, r) => [(e.id, depths[0])] + Listing(r, depths[0] + 1) + Pending(subs[1..], depths[1..])
  }

  /** Pushing a node: listing it and then the pending lines is listing its left
      subtree and then the pending lines with the node on top. */
  lemma ListingPush(c: Tree<Employee>, d: int, subs: seq<Tree<Employee>>, depths: seq<int>)
    requires c.Node? && |subs| == |depths|
    ensures Listing(c, d) + Pending(subs, depths) == Listing(c.left, d + 1) + Pending([c] + subs, [d] + depths)
  {
    assert ([c] + subs)[1..] == subs && ([d] + depths)[1..] == depths;
    var a, b, p := Listing(c.left, d + 1), [(c.elem.id, d)] + Listing(c.right, d + 1), Pending(subs, depths);
    assert Listing(c, d) == a + b by {
      assert a + ([(c.elem.id, d)] + Listing(c.right, d + 1)) == (a + [(c.elem.id, d)]) + Listing(c.right, d + 1);
    }
    assert a + (b + p) == (a + b) + p;
  }

  /** Popping a node: once the left part is done, its line is printed and its right
      subtree comes next. */
  lemma ListingPop(out: seq<(int, int)>, subs: seq<Tree<Employee>>, depths: seq<int>)
    requires |subs| == |depths| && |subs| > 0 && subs[0].Node?
    ensures out + Pending(subs, depths) ==
      (out + [(subs[0].elem.id, depths[0])]) + (Listing(subs[0].right, depths[0] + 1) + Pending(subs[1..], depths[1..]))
  {
    var x, l, p := [(subs[0].elem.id, depths[0])], Listing(subs[0].right, depths[0] + 1), Pending(subs[1..], depths[1..]);
    assert Pending(subs, depths) == x + (l + p) by {
      forall i | 0 <= i < |x| + |l| + |p| ensures (x + (l + p))[i] == ((x + l) + p)[i] { }
    }
    forall i | 0 <= i < |out| + |x| + |l + p| ensures (out + (x + (l + p)))[i] == ((out + x) + (l + p))[i] { }
  }

  /** Midway through report on m: lines are printed, the subtree c (root at depth d)
      is next, and after it the stacked nodes subs with their depths. */
  predicate Reporting(m: Tree<Employee>, lines: seq<(int, int)>, c: Tree<Employee>, d: int,
                      subs: seq<Tree<Employee>>, depths: seq<int>)
  {
    |subs| == |depths| && lines + (Listing(c, d) + Pending(subs, depths)) == Listing(m, 1)
  }

  /** Stacking the root of c and going left keeps the report on track. */
  lemma ReportingPush(m: Tree<Employee>, lines: seq<(int, int)>, c: Tree<Employee>, d: int,
                      subs: seq<Tree<Employee>>, depths: seq<int>)
    requires Reporting(m, lines, c, d, subs, depths) && c.Node?
    ensures Reporting(m, lines, c.left, d + 1, [c] + subs, [d] + depths)
  {
    ListingPush(c, d, subs, depths);
  }

  /** With nothing left on the left, printing the stacked top and going to its right
      keeps the report on track. */
  lemma ReportingPop(m: Tree<Employee>, lines: seq<(int, int)>, d: int,
                     subs: seq<Tree<Employee>>, depths: seq<int>)
    requires Reporting(m, lines, Leaf, d, subs, depths) && |subs| > 0 && subs[0].Node?
    ensures Reporting(m, lines + [(subs[0].elem.id, depths[0])], subs[0].right, depths[0] + 1,
                      subs[1..], depths[1..])
  {
    assert lines + Pending(subs, depths) == Listing(m, 1);
    ListingPop(lines, subs, depths);
  }

  /** Insertion stamps the new record with its depth, so a tree built by insertions
      alone keeps every record's level equal to its depth. */
  lemma {:induction false} InsertStamped(t: Tree<Employee>, x: Employee, d: int)
    requires Stamped(t, d)
    ensures Stamped(InsertAt(t, x, d), d)
  {
    match t
    case Leaf =>
    case Node(l, e, r) =>
      InsertStamped(Child(t, Route(x.id, e)), x, d + 1);
  }

  // ----------------------------------------------------------------------------
  // Worked examples

  /** Three records inserted in the order 5, 3, 8: the least and greatest ids are 3
      and 8, and report lists 3, 5, 8 with the root 5 at depth 1. */
  lemma ThreeRecords()
    ensures var t := Insert(Insert(Insert(Leaf, Employee(5, 20, "A", 0)), Employee(3, 21, "B", 0)), Employee(8, 22, "C", 0));
      Leftmost(t).id == 3 && Rightmost(t).id == 8 && Listing(t, 1) == [(3, 2), (5, 1), (8, 2)]
  {
  }

  /** Ids 5, 3, 8, 7, 9 inserted and then 8, which has two children, removed: its
      successor 9 takes its place, 7 and 9 are still found and the order holds. The
      record of 9 keeps the level 3 it was inserted at, while report now lists it
      at depth 2. */
  lemma TwoChildRemoval()
    ensures var t := Insert(Insert(Insert(Insert(Insert(Leaf, Employee(5, 0, "", 0)), Employee(3, 0, "", 0)),
                                   Employee(8, 0, "", 0)), Employee(7, 0, "", 0)), Employee(9, 0, "", 0));
      var u := RemoveId(t, 8);
      Search(u, 7).Some? && Search(u, 9).Some? && Search(u, 8).None? && Ordered(u) &&
      Listing(u, 1) == [(3, 2), (5, 1), (7, 3), (9, 2)] && Search(u, 9).value.level == 3
  {
    var e5, e3, e8, e7, e9 := Employee(5, 0, "", 1), Employee(3, 0, "", 2), Employee(8, 0, "", 2),
      Employee(7, 0, "", 3), Employee(9, 0, "", 3);
    var t := Insert(Insert(Insert(Insert(Insert(Leaf, Employee(5, 0, "", 0)), Employee(3, 0, "", 0)),
                                   Employee(8, 0, "", 0)), Employee(7, 0, "", 0)), Employee(9, 0, "", 0));
    assert t == Node(Node(Leaf, e3, Leaf), e5, Node(Node(Leaf, e7, Leaf), e8, Node(Leaf, e9, Leaf)));
    assert RemoveId(t, 8) == Node(Node(Leaf, e3, Leaf), e5, Node(Node(Leaf, e7, Leaf), e9, Leaf));
  }
}
