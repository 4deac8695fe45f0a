/** Binary trees as values, and paths from the root into them.

    The same datatype serves twice: `Tree<Employee>` is the abstract content of the
    search tree, and `Tree<BinaryNode>` is the ghost shape of the heap nodes that
    implement it. A path names a node by the left/right turns taken from the root. */
module Trees {

  datatype Tree<T> = Leaf | Node(left: Tree<T>, elem: T, right: Tree<T>)

  datatype Dir = Left | Right

  type Path = seq<Dir>

  function Size<T>(t: Tree<T>): nat
  {
    match t
    case Leaf => 0
    case Node(l, _, r) => Size(l) + 1 + Size(r)
  }

  /** The child of a node in direction d. */
  function Child<T>(t: Tree<T>, d: Dir): Tree<T>
    requires t.Node?
  {
    if d == Left then t.left else t.right
  }

  /** The node t with its child in direction d replaced by c. */
  function WithChild<T>(t: Tree<T>, d: Dir, c: Tree<T>): (r: Tree<T>)
    requires t.Node?
    ensures r.Node? && r.elem == t.elem && Child(r, d) == c
    ensures d == Left ==> r.right == t.right
    ensures d == Right ==> r.left == t.left
  {
    if d == Left then t.(left := c) else t.(right := c)
  }

  /** The subtree reached by following p from the root; Leaf once p runs off the tree. */
  function SubAt<T>(t: Tree<T>, p: Path): Tree<T>
    decreases p
  {
    if p == [] then t
    else if t.Leaf? then Leaf
    else SubAt(Child(t, p[0]), p[1..])
  }

  /** Every proper prefix of p ends at a node, so p ends at a node or at an empty slot. */
  predicate ValidPath<T>(t: Tree<T>, p: Path)
    decreases p
  {
    p == [] || (t.Node? && ValidPath(Child(t, p[0]), p[1..]))
  }

  /** t with the subtree at p replaced by s (t itself when p leaves the tree). */
  function ReplaceAt<T>(t: Tree<T>, p: Path, s: Tree<T>): Tree<T>
    decreases p
  {
    if p == [] then s
    else if t.Leaf? then t
    else WithChild(t, p[0], ReplaceAt(Child(t, p[0]), p[1..], s))
  }

  /** The elements in in-order (left subtree, node, right subtree). */
  function InOrder<T>(t: Tree<T>): (s: seq<T>)
    ensures |s| == Size(t)
  {
    match t
    case Leaf => []
    case Node(l, x, r) => InOrder(l) + [x] + InOrder(r)
  }

  /** The elements as a multiset. */
  function Elems<T>(t: Tree<T>): multiset<T>
  {
    match t
    case Leaf => multiset{}
    case Node(l, x, r) => Elems(l) + multiset{x} + Elems(r)
  }

  /** The elements as a set. */
  function ElemSet<T>(t: Tree<T>): set<T>
  {
    match t
    case Leaf => {}
    case Node(l, x, r) => ElemSet(l) + {x} + ElemSet(r)
  }

  /** No element occurs twice in t. */
  predicate Distinct<T(==)>(t: Tree<T>)
  {
    match t
    case Leaf => true
    case Node(l, x, r) =>
      x !in ElemSet(l) && x !in ElemSet(r) && ElemSet(l) !! ElemSet(r) &&
      Distinct(l) && Distinct(r)
  }

  lemma {:induction false} SizeIsCount<T>(t: Tree<T>)
    ensures |InOrder(t)| == |Elems(t)| == Size(t)
    ensures multiset(InOrder(t)) == Elems(t)
  {
    match t
    case Leaf =>
    case Node(l, x, r) =>
      SizeIsCount(l);
      SizeIsCount(r);
  }

  /** Extending a path by one step looks at the child of the subtree reached so far. */
  lemma {:induction false} SubAtSnoc<T>(t: Tree<T>, p: Path, d: Dir)
    requires ValidPath(t, p) && SubAt(t, p).Node?
    ensures ValidPath(t, p + [d])
    ensures SubAt(t, p + [d]) == Child(SubAt(t, p), d)
  {
    if p != [] {
      assert (p + [d])[0] == p[0] && (p + [d])[1..] == p[1..] + [d];
      SubAtSnoc(Child(t, p[0]), p[1..], d);
    }
  }

  /** Replacing the child in direction d of the node at p is replacing at p + [d]. */
  lemma {:induction false} ReplaceAtSnoc<T>(t: Tree<T>, p: Path, d: Dir, c: Tree<T>)
    requires ValidPath(t, p) && SubAt(t, p).Node?
    ensures ReplaceAt(t, p + [d], c) == ReplaceAt(t, p, WithChild(SubAt(t, p), d, c))
  {
    if p != [] {
      assert (p + [d])[0] == p[0] && (p + [d])[1..] == p[1..] + [d];
      ReplaceAtSnoc(Child(t, p[0]), p[1..], d, c);
    }
  }

  /** Putting back the subtree that was at p changes nothing. */
  lemma {:induction false} ReplaceAtSame<T>(t: Tree<T>, p: Path)
    ensures ReplaceAt(t, p, SubAt(t, p)) == t
    decreases p
  {
    if p != [] && t.Node? {
      ReplaceAtSame(Child(t, p[0]), p[1..]);
    }
  }

  /** Swapping part b of a multiset for s, beside a fixed part a. */
  lemma SwapBeside<T>(a: multiset<T>, c: multiset<T>, c': multiset<T>, b: multiset<T>, s: multiset<T>)
    requires c' + b == c + s && b <= c
    ensures (c' + a) + b == (c + a) + s && b <= c + a
    ensures (a + c') + b == (a + c) + s && b <= a + c
  {
    forall x
      ensures ((c' + a) + b)[x] == ((c + a) + s)[x] && ((a + c') + b)[x] == ((a + c) + s)[x]
    {
      assert (c' + b)[x] == (c + s)[x];
    }
    assert (c' + a) + b == (c + a) + s;
    assert (a + c') + b == (a + c) + s;
  }

  /** Replacing at p swaps the multiset of the old subtree for that of the new one. */
  lemma {:induction false} ElemsReplaceAt<T>(t: Tree<T>, p: Path, s: Tree<T>)
    requires ValidPath(t, p)
    ensures Elems(SubAt(t, p)) <= Elems(t)
    ensures Elems(ReplaceAt(t, p, s)) + Elems(SubAt(t, p)) == Elems(t) + Elems(s)
    decreases p
  {
    if p != [] {
      var c := Child(t, p[0]);
      var c', b := ReplaceAt(c, p[1..], s), Elems(SubAt(c, p[1..]));
      assert Elems(c') + b == Elems(c) + Elems(s) && b <= Elems(c) by {
        ElemsReplaceAt(c, p[1..], s);
      }
      assert SubAt(t, p) == SubAt(c, p[1..]);
      if p[0] == Left {
        var a := multiset{t.elem} + Elems(t.right);
        assert Elems(ReplaceAt(t, p, s)) == Elems(c') + a && Elems(t) == Elems(c) + a by {
          assert ReplaceAt(t, p, s) == Node(c', t.elem, t.right);
        }
        SwapBeside(a, Elems(c), Elems(c'), b, Elems(s));
      } else {
        var a := Elems(t.left) + multiset{t.elem};
        assert Elems(ReplaceAt(t, p, s)) == a + Elems(c') && Elems(t) == a + Elems(c) by {
          assert ReplaceAt(t, p, s) == Node(t.left, t.elem, c');
        }
        SwapBeside(a, Elems(c), Elems(c'), b, Elems(s));
      }
    }
  }

  lemma ElemsSingleton<T>(x: T)
    ensures Elems(Node(Leaf, x, Leaf)) == multiset{x}
  {
    assert multiset{} + multiset{x} + multiset{} == multiset{x};
  }

  /** Filling an empty slot adds the elements of the new subtree. */
  lemma ElemsFillSlot<T>(t: Tree<T>, p: Path, s: Tree<T>)
    requires ValidPath(t, p) && SubAt(t, p) == Leaf
    ensures Elems(ReplaceAt(t, p, s)) == Elems(t) + Elems(s)
  {
    ElemsReplaceAt(t, p, s);
    var a := Elems(ReplaceAt(t, p, s));
    assert a + multiset{} == a;
  }

  /** The same for sets, where elements must be distinct for the old subtree's
      elements to disappear. */
  lemma {:induction false} ElemSetReplaceAt<T>(t: Tree<T>, p: Path, s: Tree<T>)
    requires ValidPath(t, p) && Distinct(t)
    ensures ElemSet(SubAt(t, p)) <= ElemSet(t)
    ensures ElemSet(ReplaceAt(t, p, s)) == ElemSet(t) - ElemSet(SubAt(t, p)) + ElemSet(s)
    decreases p
  {
    if p != [] {
      ElemSetReplaceAt(Child(t, p[0]), p[1..], s);
    }
  }

  /** Replacing a subtree by one whose elements are new to the rest keeps them distinct. */
  lemma {:induction false} DistinctReplaceAt<T>(t: Tree<T>, p: Path, s: Tree<T>)
    requires ValidPath(t, p) && Distinct(t) && Distinct(s)
    requires ElemSet(s) !! ElemSet(t) - ElemSet(SubAt(t, p))
    ensures Distinct(ReplaceAt(t, p, s))
    ensures Distinct(SubAt(t, p))
    decreases p
  {
    if p != [] {
      var c := Child(t, p[0]);
      ElemSetReplaceAt(c, p[1..], s);
      DistinctReplaceAt(c, p[1..], s);
    }
  }

  lemma {:induction false} ElemSetSubAt<T>(t: Tree<T>, p: Path)
    ensures ElemSet(SubAt(t, p)) <= ElemSet(t)
    decreases p
  {
    if p != [] && t.Node? {
      ElemSetSubAt(Child(t, p[0]), p[1..]);
    }
  }

  lemma {:induction false} DistinctSubAt<T>(t: Tree<T>, p: Path)
    requires Distinct(t)
    ensures Distinct(SubAt(t, p))
    decreases p
  {
    if p != [] && t.Node? {
      DistinctSubAt(Child(t, p[0]), p[1..]);
    }
  }

  /** Following a + b is following a, then b. */
  lemma {:induction false} SubAtAppend<T>(t: Tree<T>, a: Path, b: Path)
    ensures SubAt(t, a + b) == SubAt(SubAt(t, a), b)
    ensures ValidPath(t, a + b) <==> ValidPath(t, a) && ValidPath(SubAt(t, a), b)
    decreases a
  {
    if a == [] {
      assert a + b == b;
    } else if t.Leaf? {
      assert (a + b)[0] == a[0];
      assert b == [] ==> a + b == a;
    } else {
      assert (a + b)[0] == a[0] && (a + b)[1..] == a[1..] + b;
      SubAtAppend(Child(t, a[0]), a[1..], b);
    }
  }

  /** Below the node at r, going d and then along w is the path w in that child. */
  lemma SubAtBelow<T>(t: Tree<T>, r: Path, d: Dir, w: Path)
    requires ValidPath(t, r) && SubAt(t, r).Node?
    ensures SubAt(t, r + ([d] + w)) == SubAt(Child(SubAt(t, r), d), w)
    ensures ValidPath(t, r + ([d] + w)) <==> ValidPath(Child(SubAt(t, r), d), w)
  {
    SubAtAppend(t, r, [d] + w);
    assert ([d] + w)[1..] == w;
  }

  /** Replacing strictly below the node at r keeps a node at r, with the same
      element, whose child in direction d has the replacement made in it. */
  lemma ReplaceBelow<T>(t: Tree<T>, r: Path, d: Dir, w: Path, x: Tree<T>)
    requires ValidPath(t, r) && SubAt(t, r).Node?
    ensures ValidPath(ReplaceAt(t, r + ([d] + w), x), r)
    ensures SubAt(ReplaceAt(t, r + ([d] + w), x), r) ==
      WithChild(SubAt(t, r), d, ReplaceAt(Child(SubAt(t, r), d), w, x))
  {
    ReplaceAtAppend(t, r, [d] + w, x);
    assert ([d] + w)[1..] == w;
    SubAtReplaceAt(t, r, WithChild(SubAt(t, r), d, ReplaceAt(Child(SubAt(t, r), d), w, x)));
  }

  /** Replacing at a + b is replacing, within the subtree at a, at b. */
  lemma {:induction false} ReplaceAtAppend<T>(t: Tree<T>, a: Path, b: Path, s: Tree<T>)
    ensures ReplaceAt(t, a + b, s) == ReplaceAt(t, a, ReplaceAt(SubAt(t, a), b, s))
    decreases a
  {
    if a == [] {
      assert a + b == b;
    } else if t.Leaf? {
      assert (a + b)[0] == a[0];
    } else {
      assert (a + b)[0] == a[0] && (a + b)[1..] == a[1..] + b;
      ReplaceAtAppend(Child(t, a[0]), a[1..], b, s);
    }
  }

  /** After replacing at a valid path, that path leads to the replacement. */
  lemma {:induction false} SubAtReplaceAt<T>(t: Tree<T>, p: Path, s: Tree<T>)
    requires ValidPath(t, p)
    ensures ValidPath(ReplaceAt(t, p, s), p)
    ensures SubAt(ReplaceAt(t, p, s), p) == s
    decreases p
  {
    if p != [] {
      SubAtReplaceAt(Child(t, p[0]), p[1..], s);
    }
  }

  /** A later replacement at the same path overrides an earlier one. */
  lemma {:induction false} ReplaceAtTwice<T>(t: Tree<T>, p: Path, s: Tree<T>, s': Tree<T>)
    requires ValidPath(t, p)
    ensures ReplaceAt(ReplaceAt(t, p, s), p, s') == ReplaceAt(t, p, s')
    decreases p
  {
    if p != [] {
      ReplaceAtTwice(Child(t, p[0]), p[1..], s, s');
    }
  }
}
