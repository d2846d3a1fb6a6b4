/** The syntax tree the printer walks, a cursor over it, and the order in which a
    pre-order cursor walk visits its nodes. The tree stands for tree-sitter's: nodes carry a
    kind, a named/unnamed flag, start and end positions, and ordered children, each reached
    through an optional field name. */
module SyntaxTree {
  import opened Wrappers

  /** A (row, column) position, both counted from zero. */
  datatype Point = Point(row: nat, column: nat)

  /** A node of the tree. `field` is the name of the field its parent reaches it by, if any
      (tree-sitter stores that name on the edge; a node has one parent, so it is stored here);
      the root's is never consulted. */
  datatype Node = Node(kind: string, isNamed: bool, start: Point, end: Point, field: Option<string>, children: seq<Node>)

  /** `p` leads from `n` down to one of its descendants (or to `n` itself when empty). */
  predicate IsPath(n: Node, p: seq<nat>)
    decreases |p|
  {
    p == [] || (p[0] < |n.children| && IsPath(n.children[p[0]], p[1..]))
  }

  /** The descendant of `n` that `p` leads to. */
  function NodeAt(n: Node, p: seq<nat>): Node
    requires IsPath(n, p)
    decreases |p|
  {
    if p == [] then n else NodeAt(n.children[p[0]], p[1..])
  }

  /** A path extended by the position of one of its node's children leads to that child. */
  lemma {:induction false} NodeAtChild(n: Node, p: seq<nat>, i: nat)
    requires IsPath(n, p) && i < |NodeAt(n, p).children|
    ensures IsPath(n, p + [i]) && NodeAt(n, p + [i]) == NodeAt(n, p).children[i]
    decreases |p|
  {
    if p == [] {
      assert p + [i] == [i];
      assert [i][1..] == [];
    } else {
      NodeAtChild(n.children[p[0]], p[1..], i);
      assert (p + [i])[0] == p[0] && (p + [i])[1..] == p[1..] + [i];
    }
  }

  // ---------------------------------------------------------------------------
  // The visit order of a pre-order walk

  /** A walk enters a node on the way down and leaves it on the way up; nodes are named by
      their path from the root. */
  datatype Visit = Enter(path: seq<nat>) | Leave(path: seq<nat>)

  function VisitOf(entering: bool, path: seq<nat>): Visit {
    if entering then Enter(path) else Leave(path)
  }

  /** The visits a walk of the subtree at `path` makes: enter it, walk its children in order,
      leave it. */
  function Walk(n: Node, path: seq<nat>): seq<Visit>
    decreases n
  {
    [Enter(path)] + WalkChildren(n.children, path, 0) + [Leave(path)]
  }

  /** The walks of `cs`, the children of the node at `path` from position `i` on. */
  function WalkChildren(cs: seq<Node>, path: seq<nat>, i: nat): seq<Visit>
    decreases cs
  {
    if cs == [] then [] else Walk(cs[0], path + [i]) + WalkChildren(cs[1..], path, i + 1)
  }

  /** Every visit of the walk of a subtree names a path that extends the subtree's own. */
  lemma {:induction false} WalkStaysBelow(n: Node, path: seq<nat>)
    ensures forall v :: v in Walk(n, path) ==> path <= v.path
    decreases n
  {
    WalkChildrenStaysBelow(n.children, path, 0);
  }

  lemma {:induction false} WalkChildrenStaysBelow(cs: seq<Node>, path: seq<nat>, i: nat)
    ensures forall v :: v in WalkChildren(cs, path, i) ==> path + [i] <= v.path || (|v.path| > |path| && v.path[|path|] > i && path <= v.path)
    decreases cs
  {
    if cs != [] {
      WalkStaysBelow(cs[0], path + [i]);
      WalkChildrenStaysBelow(cs[1..], path, i + 1);
      forall v | v in Walk(cs[0], path + [i]) ensures path + [i] <= v.path { }
      forall v | v in WalkChildren(cs[1..], path, i + 1)
        ensures |v.path| > |path| && v.path[|path|] > i && path <= v.path
      {
        if path + [i + 1] <= v.path {
          assert v.path[|path|] == (path + [i + 1])[|path|];
        }
      }
    }
  }

  /** The walk of a subtree enters and leaves exactly its own nodes below `path`. */
  lemma {:induction false} WalkHas(n: Node, path: seq<nat>, r: seq<nat>, entering: bool)
    ensures VisitOf(entering, path + r) in Walk(n, path) <==> IsPath(n, r)
    decreases n, 0
  {
    var v := VisitOf(entering, path + r);
    var w := WalkChildren(n.children, path, 0);
    assert Walk(n, path) == [Enter(path)] + w + [Leave(path)];
    if r == [] {
      assert path + r == path;
    } else {
      assert |v.path| > |path|;
      WalkChildrenHas(n.children, path, 0, r, entering);
    }
  }

  lemma {:induction false} WalkChildrenHas(cs: seq<Node>, path: seq<nat>, i: nat, r: seq<nat>, entering: bool)
    ensures VisitOf(entering, path + r) in WalkChildren(cs, path, i) <==>
      |r| > 0 && i <= r[0] < i + |cs| && IsPath(cs[r[0] - i], r[1..])
    decreases cs
  {
    if cs != [] {
      assert WalkChildren(cs, path, i) == Walk(cs[0], path + [i]) + WalkChildren(cs[1..], path, i + 1);
      ChildWalkHas(cs[0], path, i, r, entering);
      WalkChildrenHas(cs[1..], path, i + 1, r, entering);
      if |r| > 0 && i + 1 <= r[0] < i + |cs| {
        assert cs[1..][r[0] - (i + 1)] == cs[r[0] - i];
      }
    }
  }

  /** The walk of the child at position `i` visits only the paths through that child. */
  lemma {:induction false} ChildWalkHas(c: Node, path: seq<nat>, i: nat, r: seq<nat>, entering: bool)
    ensures VisitOf(entering, path + r) in Walk(c, path + [i]) <==> |r| > 0 && r[0] == i && IsPath(c, r[1..])
    decreases c, 1
  {
    var v := VisitOf(entering, path + r);
    if |r| > 0 && r[0] == i {
      assert path + r == (path + [i]) + r[1..];
      WalkHas(c, path + [i], r[1..], entering);
    } else {
      WalkStaysBelow(c, path + [i]);
      assert !(path + [i] <= path + r) by {
        if |r| > 0 {
          assert (path + r)[|path|] == r[0] && (path + [i])[|path|] == i;
        }
      }
    }
  }

  /** No visit occurs twice in `s`. */
  ghost predicate Distinct(s: seq<Visit>) {
    forall j, k :: 0 <= j < k < |s| ==> s[j] != s[k]
  }

  lemma DistinctAppend(a: seq<Visit>, b: seq<Visit>)
    requires Distinct(a) && Distinct(b)
    requires forall v :: v in a ==> v !in b
    ensures Distinct(a + b)
  {
    forall j, k | 0 <= j < k < |a + b| ensures (a + b)[j] != (a + b)[k] {
      if k < |a| {
        assert (a + b)[j] == a[j] && (a + b)[k] == a[k];
      } else if |a| <= j {
        assert (a + b)[j] == b[j - |a|] && (a + b)[k] == b[k - |a|];
      } else {
        assert (a + b)[j] == a[j] && (a + b)[k] == b[k - |a|];
        assert a[j] in a && b[k - |a|] in b;
      }
    }
  }

  /** In a sequence without repetitions every element occurs once. */
  lemma {:induction false} CountOfDistinct(s: seq<Visit>, v: Visit)
    requires Distinct(s)
    ensures multiset(s)[v] == if v in s then 1 else 0
    decreases |s|
  {
    if s != [] {
      assert s == [s[0]] + s[1..];
      assert Distinct(s[1..]) by {
        forall j, k | 0 <= j < k < |s[1..]| ensures s[1..][j] != s[1..][k] {
          assert s[1..][j] == s[j + 1] && s[1..][k] == s[k + 1];
        }
      }
      CountOfDistinct(s[1..], v);
      if s[0] == v {
        assert v !in s[1..] by {
          forall k | 0 <= k < |s[1..]| ensures s[1..][k] != v {
            assert s[1..][k] == s[k + 1];
          }
        }
      }
    }
  }

  /** A walk never repeats a visit. */
  lemma {:induction false} WalkDistinct(n: Node, path: seq<nat>)
    ensures Distinct(Walk(n, path))
    decreases n, 0
  {
    var w := WalkChildren(n.children, path, 0);
    WalkChildrenDistinct(n.children, path, 0);
    WalkChildrenStaysBelow(n.children, path, 0);
    assert forall v :: v in w ==> |v.path| > |path|;
    DistinctAppend([Enter(path)], w);
    DistinctAppend([Enter(path)] + w, [Leave(path)]);
  }

  lemma {:induction false} WalkChildrenDistinct(cs: seq<Node>, path: seq<nat>, i: nat)
    ensures Distinct(WalkChildren(cs, path, i))
    decreases cs
  {
    if cs != [] {
      var first, rest := Walk(cs[0], path + [i]), WalkChildren(cs[1..], path, i + 1);
      WalkDistinct(cs[0], path + [i]);
      WalkChildrenDistinct(cs[1..], path, i + 1);
      WalkStaysBelow(cs[0], path + [i]);
      WalkChildrenStaysBelow(cs[1..], path, i + 1);
      forall v | v in rest ensures |v.path| > |path| && v.path[|path|] > i {
        if path + [i + 1] <= v.path {
          assert v.path[|path|] == (path + [i + 1])[|path|];
        }
      }
      forall v | v in first ensures v !in rest {
        assert v.path[|path|] == (path + [i])[|path|];
      }
      DistinctAppend(first, rest);
    }
  }

  /** A walk from the root enters every node once and leaves it once, and names no other path. */
  lemma WalkVisitsEachNodeOnce(t: Node)
    ensures forall p :: multiset(Walk(t, []))[Enter(p)] == (if IsPath(t, p) then 1 else 0)
    ensures forall p :: multiset(Walk(t, []))[Leave(p)] == (if IsPath(t, p) then 1 else 0)
  {
    WalkDistinct(t, []);
    forall p ensures multiset(Walk(t, []))[Enter(p)] == (if IsPath(t, p) then 1 else 0)
      && multiset(Walk(t, []))[Leave(p)] == (if IsPath(t, p) then 1 else 0)
    {
      assert [] + p == p;
      WalkHas(t, [], p, true);
      WalkHas(t, [], p, false);
      CountOfDistinct(Walk(t, []), Enter(p));
      CountOfDistinct(Walk(t, []), Leave(p));
    }
  }

  // ---------------------------------------------------------------------------
  // The cursor

  /** One level of a cursor: a node and its position among its parent's children. */
  datatype Entry = Entry(node: Node, index: nat)

  /** `e` is the child of `parent` at its stored position. */
  predicate ChildAt(parent: Node, e: Entry) {
    e.index < |parent.children| && e.node == parent.children[e.index]
  }

  /** Each entry below the first is the child of the entry above it at its stored position. */
  ghost predicate Linked(stack: seq<Entry>)
    decreases |stack|
  {
    |stack| <= 1 || (Linked(stack[..|stack| - 1]) && ChildAt(stack[|stack| - 2].node, stack[|stack| - 1]))
  }

  /** The child positions that lead from the root to the cursor's node. */
  function PathOf(stack: seq<Entry>): seq<nat>
  {
    if |stack| <= 1 then [] else PathOf(stack[..|stack| - 1]) + [stack[|stack| - 1].index]
  }

  /** The node at the top of `stack` has a later sibling; the root has none. */
  predicate HasNextSibling(stack: seq<Entry>) {
    |stack| > 1 && stack[|stack| - 1].index + 1 < |stack[|stack| - 2].node.children|
  }

  /** The field name the cursor's node is reached by; the root has none. */
  function FieldOf(stack: seq<Entry>): Option<string>
  {
    if |stack| <= 1 then None
    else stack[|stack| - 1].node.field
  }

  /** The visits still to come once the cursor's node has been left: for each ancestor, the
      walks of the later siblings at that level, then leaving the ancestor. */
  function RemainingVisits(stack: seq<Entry>): seq<Visit>
    requires Linked(stack)
  {
    if |stack| <= 1 then []
    else
      var up := stack[..|stack| - 1];
      var i := stack[|stack| - 1].index;
      WalkChildren(stack[|stack| - 2].node.children[i + 1..], PathOf(up), i + 1)
        + [Leave(PathOf(up))] + RemainingVisits(up)
  }

  /** The node at the top of a linked stack is the one its path leads to from the bottom node. */
  lemma {:induction false} LinkedNodeAt(stack: seq<Entry>)
    requires Linked(stack) && |stack| > 0
    ensures IsPath(stack[0].node, PathOf(stack)) && NodeAt(stack[0].node, PathOf(stack)) == stack[|stack| - 1].node
    decreases |stack|
  {
    if |stack| > 1 {
      var up := stack[..|stack| - 1];
      LinkedNodeAt(up);
      assert up[0] == stack[0] && up[|up| - 1] == stack[|stack| - 2];
      NodeAtChild(stack[0].node, PathOf(up), stack[|stack| - 1].index);
    }
  }

  /** Every prefix of a linked stack is linked. */
  lemma {:induction false} LinkedPrefix(stack: seq<Entry>, n: nat)
    requires Linked(stack) && n <= |stack|
    ensures Linked(stack[..n])
    decreases |stack|
  {
    if n < |stack| {
      var up := stack[..|stack| - 1];
      LinkedPrefix(up, n);
      assert up[..n] == stack[..n];
    } else {
      assert stack[..n] == stack;
    }
  }

  /** A tree-sitter `TreeCursor`: a stack of nodes from the root down to the current node. */
  class TreeCursor {
    const root: Node
    var stack: seq<Entry>

    ghost predicate Valid()
      reads this
    {
      |stack| > 0 && stack[0] == Entry(root, 0) && Linked(stack)
    }

    /** `Tree::walk`: a cursor at the root. */
    constructor (root: Node)
      ensures Valid() && this.root == root && stack == [Entry(root, 0)]
    {
      this.root := root;
      stack := [Entry(root, 0)];
    }

    /** `TreeCursor::node`: the node of the tree that the cursor's path leads to. */
    function Current(): (n: Node)
      reads this
      requires Valid()
      ensures IsPath(root, PathOf(stack)) && n == NodeAt(root, PathOf(stack))
    {
      LinkedNodeAt(stack);
      stack[|stack| - 1].node
    }

    /** `TreeCursor::field_name`: the name of the field through which the parent reaches the
        current node; the root has none. */
    function FieldName(): (f: Option<string>)
      reads this
      requires Valid()
      ensures |stack| == 1 ==> f == None
      ensures |stack| > 1 ==> f == stack[|stack| - 2].node.children[stack[|stack| - 1].index].field
    {
      FieldOf(stack)
    }

    /** `TreeCursor::goto_first_child`: moves to the first child, if there is one. */
    method GotoFirstChild() returns (moved: bool)
      requires Valid()
      modifies this
      ensures Valid()
      ensures moved <==> old(Current()).children != []
      ensures moved ==> stack == old(stack) + [Entry(old(Current()).children[0], 0)]
      ensures !moved ==> stack == old(stack)
    {
      var n := stack[|stack| - 1].node;
      moved := n.children != [];
      if moved {
        stack := stack + [Entry(n.children[0], 0)];
      }
    }

    /** `TreeCursor::goto_next_sibling`: moves to the next child of the same parent, if there
        is one; the root has no siblings. */
    method GotoNextSibling() returns (moved: bool)
      requires Valid()
      modifies this
      ensures Valid()
      ensures moved <==> |old(stack)| > 1 && old(stack)[|old(stack)| - 1].index + 1 < |old(stack)[|old(stack)| - 2].node.children|
      ensures moved ==>
        var n, i := |old(stack)|, old(stack)[|old(stack)| - 1].index;
        stack == old(stack)[..n - 1] + [Entry(old(stack)[n - 2].node.children[i + 1], i + 1)]
      ensures !moved ==> stack == old(stack)
    {
      var n := |stack|;
      if n > 1 && stack[n - 1].index + 1 < |stack[n - 2].node.children| {
        var i := stack[n - 1].index + 1;
        stack := stack[..n - 1] + [Entry(stack[n - 2].node.children[i], i)];
        moved := true;
      } else {
        moved := false;
      }
    }

    /** `TreeCursor::goto_parent`: moves up one level, unless at the root. */
    method GotoParent() returns (moved: bool)
      requires Valid()
      modifies this
      ensures Valid()
      ensures moved <==> |old(stack)| > 1
      ensures stack == if moved then old(stack)[..|old(stack)| - 1] else old(stack)
    {
      moved := |stack| > 1;
      if moved {
        stack := stack[..|stack| - 1];
      }
    }
  }
}
