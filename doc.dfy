/** A parsed document's operations that do not touch the file system or the parser: printing
    the syntax tree (`Document::write_tree`) and turning the query engine's raw matches into
    `Match` and `Capture` values (`Document::find`). */
module Doc {
  import opened Wrappers
  import opened SyntaxTree
  import opened TreeOutput

  // ---------------------------------------------------------------------------
  // write_tree

  /** The raw output still to come when the cursor is at the top of `stack`: the whole subtree
      and everything after it if the node is about to be entered, or only its `)` and what
      follows if its children are done (`left`). */
  ghost function OutputAhead(stack: seq<Entry>, left: bool): seq<Token>
    requires Linked(stack) && |stack| > 0
  {
    var n := stack[|stack| - 1].node;
    (if left then CloseOf(n) else Emit(n, |stack| - 1, FieldOf(stack))) + Remaining(stack)
  }

  /** The visits still to come in the same situation. */
  ghost function VisitsAhead(stack: seq<Entry>, left: bool): seq<Visit>
    requires Linked(stack) && |stack| > 0
  {
    var n := stack[|stack| - 1].node;
    (if left then [Leave(PathOf(stack))] else Walk(n, PathOf(stack))) + RemainingVisits(stack)
  }

  /** Moving to the first child keeps the stack linked, and the child's depth, field and path
      are read off the new stack. */
  lemma FirstChildStack(stack: seq<Entry>)
    requires Linked(stack) && |stack| > 0 && stack[|stack| - 1].node.children != []
    ensures var n := stack[|stack| - 1].node;
      var down := stack + [Entry(n.children[0], 0)];
      Linked(down) && down[..|down| - 1] == stack && FieldOf(down) == n.children[0].field &&
      PathOf(down) == PathOf(stack) + [0]
  {
  }

  /** Moving a piece from what is ahead to what is done keeps their concatenation. */
  lemma Advance<T>(done: seq<T>, step: seq<T>, ahead: seq<T>, rest: seq<T>, whole: seq<T>)
    requires done + ahead == whole && ahead == step + rest
    ensures (done + step) + rest == whole
  {
    assert (done + step) + rest == done + (step + rest);
  }

  /** Entering a node that has children: its header, then the output of its first child. */
  lemma EnterFirstChild(stack: seq<Entry>, n: Node, down: seq<Entry>)
    requires Linked(stack) && |stack| > 0 && n == stack[|stack| - 1].node && n.children != []
    requires down == stack + [Entry(n.children[0], 0)] && Linked(down)
    ensures OutputAhead(stack, false) == OpenOf(n, |stack| - 1, FieldOf(stack)) + OutputAhead(down, false)
  {
    var d, f := |stack| - 1, FieldOf(stack);
    FirstChildStack(stack);
    var first := Emit(n.children[0], d + 1, n.children[0].field);
    var rest := EmitChildren(n.children[1..], d + 1);
    assert Remaining(down) == rest + CloseOf(n) + Remaining(stack);
    assert EmitChildren(n.children, d + 1) == first + rest;
    assert OpenOf(n, d, f) + (first + rest) + CloseOf(n) + Remaining(stack) == OpenOf(n, d, f) + (first + (rest + CloseOf(n) + Remaining(stack)));
  }

  /** Entering a node that has children: then the walk of its first child. */
  lemma EnterFirstChildVisits(stack: seq<Entry>, n: Node, down: seq<Entry>)
    requires Linked(stack) && |stack| > 0 && n == stack[|stack| - 1].node && n.children != []
    requires down == stack + [Entry(n.children[0], 0)] && Linked(down)
    ensures VisitsAhead(stack, false) == [Enter(PathOf(stack))] + VisitsAhead(down, false)
  {
    var p := PathOf(stack);
    FirstChildStack(stack);
    var first := Walk(n.children[0], p + [0]);
    var rest := WalkChildren(n.children[1..], p, 1);
    assert RemainingVisits(down) == rest + [Leave(p)] + RemainingVisits(stack);
    assert WalkChildren(n.children, p, 0) == first + rest;
    assert [Enter(p)] + (first + rest) + [Leave(p)] + RemainingVisits(stack) == [Enter(p)] + (first + (rest + [Leave(p)] + RemainingVisits(stack)));
  }

  /** Entering a node without children: its header, then at once its `)`. */
  lemma EnterLeaf(stack: seq<Entry>, n: Node)
    requires Linked(stack) && |stack| > 0 && n == stack[|stack| - 1].node && n.children == []
    ensures OutputAhead(stack, false) == OpenOf(n, |stack| - 1, FieldOf(stack)) + OutputAhead(stack, true)
  {
    assert EmitChildren(n.children, |stack|) == [];
  }

  /** Entering a node without children: then at once leaving it. */
  lemma {:induction false} EnterLeafVisits(stack: seq<Entry>, n: Node)
    requires Linked(stack) && |stack| > 0 && n == stack[|stack| - 1].node && n.children == []
    ensures VisitsAhead(stack, false) == [Enter(PathOf(stack))] + VisitsAhead(stack, true)
  {
    var p := PathOf(stack);
    assert WalkChildren(n.children, p, 0) == [];
    assert Walk(n, p) == [Enter(p)] + [Leave(p)];
    assert ([Enter(p)] + [Leave(p)]) + RemainingVisits(stack) == [Enter(p)] + ([Leave(p)] + RemainingVisits(stack));
  }

  /** Moving to the next sibling keeps the stack linked; the sibling's field and path are read
      off the new stack. */
  lemma SiblingStack(stack: seq<Entry>)
    requires Linked(stack) && |stack| > 1
    requires stack[|stack| - 1].index + 1 < |stack[|stack| - 2].node.children|
    ensures var n, i := |stack|, stack[|stack| - 1].index;
      var sibling := stack[n - 2].node.children[i + 1];
      var next := stack[..n - 1] + [Entry(sibling, i + 1)];
      Linked(next) && next[..n - 1] == stack[..n - 1] && Linked(stack[..n - 1]) &&
      FieldOf(next) == sibling.field && |next| == n &&
      PathOf(next) == PathOf(stack[..n - 1]) + [i + 1] &&
      stack[n - 2].node.children[i + 1..][1..] == stack[n - 2].node.children[i + 2..]
  {
    LinkedPrefix(stack, |stack| - 1);
  }

  /** Leaving a node that has a next sibling: its `)`, then the output of that sibling. */
  lemma LeaveToSibling(stack: seq<Entry>, next: seq<Entry>)
    requires Linked(stack) && |stack| > 1
    requires stack[|stack| - 1].index + 1 < |stack[|stack| - 2].node.children|
    requires var n, i := |stack|, stack[|stack| - 1].index;
      next == stack[..n - 1] + [Entry(stack[n - 2].node.children[i + 1], i + 1)] && Linked(next)
    ensures OutputAhead(stack, true) == CloseOf(stack[|stack| - 1].node) + OutputAhead(next, false)
  {
    var n, i := |stack|, stack[|stack| - 1].index;
    var up, parent := stack[..n - 1], stack[n - 2].node;
    var sibling := parent.children[i + 1];
    SiblingStack(stack);
    var first := Emit(sibling, n - 1, sibling.field);
    var later := EmitChildren(parent.children[i + 2..], n - 1);
    assert Remaining(next) == later + CloseOf(parent) + Remaining(up);
    assert EmitChildren(parent.children[i + 1..], n - 1) == first + later;
    assert Remaining(stack) == first + later + CloseOf(parent) + Remaining(up);
    assert first + later + CloseOf(parent) + Remaining(up) == first + (later + CloseOf(parent) + Remaining(up));
  }

  /** Leaving a node that has a next sibling: then the walk of that sibling. */
  lemma LeaveToSiblingVisits(stack: seq<Entry>, next: seq<Entry>)
    requires Linked(stack) && |stack| > 1
    requires stack[|stack| - 1].index + 1 < |stack[|stack| - 2].node.children|
    requires var n, i := |stack|, stack[|stack| - 1].index;
      next == stack[..n - 1] + [Entry(stack[n - 2].node.children[i + 1], i + 1)] && Linked(next)
    ensures VisitsAhead(stack, true) == [Leave(PathOf(stack))] + VisitsAhead(next, false)
  {
    var n, i := |stack|, stack[|stack| - 1].index;
    var up, parent := stack[..n - 1], stack[n - 2].node;
    var p, sibling := PathOf(up), parent.children[i + 1];
    SiblingStack(stack);
    var first := Walk(sibling, p + [i + 1]);
    var later := WalkChildren(parent.children[i + 2..], p, i + 2);
    assert RemainingVisits(next) == later + [Leave(p)] + RemainingVisits(up);
    assert WalkChildren(parent.children[i + 1..], p, i + 1) == first + later;
    assert RemainingVisits(stack) == first + later + [Leave(p)] + RemainingVisits(up);
    assert first + later + [Leave(p)] + RemainingVisits(up) == first + (later + [Leave(p)] + RemainingVisits(up));
  }

  /** Leaving the last child of a node: what is ahead of it is its parent's `)` and what
      follows that. */
  lemma LeaveToParent(stack: seq<Entry>)
    requires Linked(stack) && |stack| > 1
    requires !(stack[|stack| - 1].index + 1 < |stack[|stack| - 2].node.children|)
    ensures Linked(stack[..|stack| - 1])
    ensures Remaining(stack) == CloseOf(stack[|stack| - 2].node) + Remaining(stack[..|stack| - 1])
  {
    var parent := stack[|stack| - 2].node;
    assert parent.children[stack[|stack| - 1].index + 1..] == [];
  }

  /** Leaving the last child of a node: what is ahead of it is leaving the parent and what
      follows that. */
  lemma LeaveToParentVisits(stack: seq<Entry>)
    requires Linked(stack) && |stack| > 1
    requires !(stack[|stack| - 1].index + 1 < |stack[|stack| - 2].node.children|)
    ensures Linked(stack[..|stack| - 1])
    ensures RemainingVisits(stack) == [Leave(PathOf(stack[..|stack| - 1]))] + RemainingVisits(stack[..|stack| - 1])
  {
    var parent := stack[|stack| - 2].node;
    assert parent.children[stack[|stack| - 1].index + 1..] == [];
  }

  /** Dropping the leading line break and appending commute, unless the output so far is empty
      and the appended part starts with a line break. */
  lemma DropLeadingNewlineAppend(a: seq<Token>, b: seq<Token>)
    requires a != [] || b == [] || b[0] != Newline
    ensures DropLeadingNewline(a + b) == DropLeadingNewline(a) + b
  {
    if a == [] {
      assert a + b == b;
    } else {
      assert (a + b)[0] == a[0];
      if a[0] == Newline {
        assert (a + b)[1..] == a[1..] + b;
      }
    }
  }

  /** The output written so far is `raw` without its leading line break, and a line break is
      due before the next header exactly when something has been written. */
  ghost predicate Written(out: seq<Token>, needsNewline: bool, raw: seq<Token>) {
    out == DropLeadingNewline(raw) && (needsNewline <==> raw != [])
  }

  /** What has been written (as raw output) and visited so far, followed by what is still
      ahead of the cursor at the top of `stack`, is the whole raw output and the whole walk of
      `tree`. */
  ghost predicate OnTrack(tree: Node, stack: seq<Entry>, left: bool, raw: seq<Token>, visits: seq<Visit>) {
    Linked(stack) && |stack| > 0 &&
    raw + OutputAhead(stack, left) == Emit(tree, 0, None) &&
    visits + VisitsAhead(stack, left) == Walk(tree, [])
  }

  /** Entering a node and moving to its first child stays on track. */
  lemma {:induction false} EnterFirstChildOnTrack(tree: Node, stack: seq<Entry>, n: Node, depth: nat, field: Option<string>,
                                down: seq<Entry>, raw: seq<Token>, visits: seq<Visit>)
    requires OnTrack(tree, stack, false, raw, visits)
    requires n == stack[|stack| - 1].node && depth == |stack| - 1 && field == FieldOf(stack)
    requires n.children != [] && down == stack + [Entry(n.children[0], 0)]
    ensures OnTrack(tree, down, false, raw + OpenOf(n, depth, field), visits + [Enter(PathOf(stack))])
  {
    FirstChildStack(stack);
    EnterFirstChild(stack, n, down);
    assert OpenOf(n, depth, field) == OpenOf(n, |stack| - 1, FieldOf(stack));
    EnterFirstChildVisits(stack, n, down);
    Advance(raw, OpenOf(n, depth, field), OutputAhead(stack, false), OutputAhead(down, false), Emit(tree, 0, None));
    Advance(visits, [Enter(PathOf(stack))], VisitsAhead(stack, false), VisitsAhead(down, false), Walk(tree, []));
  }

  /** Entering a node without children stays on track, with its children done. */
  lemma {:induction false} EnterLeafOnTrack(tree: Node, stack: seq<Entry>, n: Node, depth: nat, field: Option<string>,
                          raw: seq<Token>, visits: seq<Visit>)
    requires OnTrack(tree, stack, false, raw, visits)
    requires n == stack[|stack| - 1].node && depth == |stack| - 1 && field == FieldOf(stack)
    requires n.children == []
    ensures OnTrack(tree, stack, true, raw + OpenOf(n, depth, field), visits + [Enter(PathOf(stack))])
  {
    EnterLeaf(stack, n);
    assert OpenOf(n, depth, field) == OpenOf(n, |stack| - 1, FieldOf(stack));
    EnterLeafVisits(stack, n);
    Advance(raw, OpenOf(n, depth, field), OutputAhead(stack, false), OutputAhead(stack, true), Emit(tree, 0, None));
    Advance(visits, [Enter(PathOf(stack))], VisitsAhead(stack, false), VisitsAhead(stack, true), Walk(tree, []));
  }

  /** Leaving a node and moving to its next sibling stays on track. */
  lemma LeaveToSiblingOnTrack(tree: Node, stack: seq<Entry>, node: Node, next: seq<Entry>, raw: seq<Token>, visits: seq<Visit>)
    requires OnTrack(tree, stack, true, raw, visits) && |stack| > 1 && node == stack[|stack| - 1].node
    requires stack[|stack| - 1].index + 1 < |stack[|stack| - 2].node.children|
    requires var n, i := |stack|, stack[|stack| - 1].index;
      next == stack[..n - 1] + [Entry(stack[n - 2].node.children[i + 1], i + 1)]
    ensures OnTrack(tree, next, false, raw + CloseOf(node), visits + [Leave(PathOf(stack))])
  {
    SiblingStack(stack);
    LeaveToSibling(stack, next);
    LeaveToSiblingVisits(stack, next);
    Advance(raw, CloseOf(node), OutputAhead(stack, true), OutputAhead(next, false), Emit(tree, 0, None));
    Advance(visits, [Leave(PathOf(stack))], VisitsAhead(stack, true), VisitsAhead(next, false), Walk(tree, []));
  }

  /** Leaving the last child of a node and moving up stays on track, with the parent's
      children done. */
  lemma LeaveToParentOnTrack(tree: Node, stack: seq<Entry>, node: Node, up: seq<Entry>, raw: seq<Token>, visits: seq<Visit>)
    requires OnTrack(tree, stack, true, raw, visits) && |stack| > 1 && node == stack[|stack| - 1].node
    requires !(stack[|stack| - 1].index + 1 < |stack[|stack| - 2].node.children|)
    requires up == stack[..|stack| - 1]
    ensures OnTrack(tree, up, true, raw + CloseOf(node), visits + [Leave(PathOf(stack))])
  {
    LeaveToParent(stack);
    LeaveToParentVisits(stack);
    assert OutputAhead(stack, true) == CloseOf(node) + OutputAhead(up, true);
    assert VisitsAhead(stack, true) == [Leave(PathOf(stack))] + VisitsAhead(up, true);
    Advance(raw, CloseOf(node), OutputAhead(stack, true), OutputAhead(up, true), Emit(tree, 0, None));
    Advance(visits, [Leave(PathOf(stack))], VisitsAhead(stack, true), VisitsAhead(up, true), Walk(tree, []));
  }

  /** Leaving the root completes the output and the walk. */
  lemma LeaveRootOnTrack(tree: Node, stack: seq<Entry>, node: Node, raw: seq<Token>, visits: seq<Visit>)
    requires OnTrack(tree, stack, true, raw, visits) && |stack| == 1 && node == stack[0].node
    ensures raw + CloseOf(node) == Emit(tree, 0, None)
    ensures visits + [Leave(PathOf(stack))] == Walk(tree, [])
  {
    assert OutputAhead(stack, true) == CloseOf(stack[0].node);
    assert VisitsAhead(stack, true) == [Leave(PathOf(stack))];
  }

  /** The indentation of a header: two spaces for each of `depth` levels. */
  method WriteIndent(o: seq<Token>, depth: nat) returns (r: seq<Token>)
    ensures r == o + Indents(depth)
  {
    r := o;
    for k := 0 to depth
      invariant r == o + Indents(k)
    {
      r := r + [Indent];
    }
  }

  /** One header line after its line break: the indentation, the field prefix, then the
      header of `node`. */
  method WriteLine(o: seq<Token>, depth: nat, field: Option<string>, node: Node) returns (r: seq<Token>)
    ensures r == o + (Indents(depth) + FieldPart(field) + [Header(node.kind, node.start, node.end)])
  {
    r := WriteIndent(o, depth);
    if field.Some? {
      r := r + [FieldPrefix(field.value)];
    }
    r := r + [Header(node.kind, node.start, node.end)];
    assert o + Indents(depth) + FieldPart(field) + [Header(node.kind, node.start, node.end)] == o + (Indents(depth) + FieldPart(field) + [Header(node.kind, node.start, node.end)]);
  }

  /** Appending a named node's header to the raw output appends its line, preceded by a line
      break unless nothing has been written yet, to the written output. */
  lemma WrittenOpen(out: seq<Token>, raw: seq<Token>, needsNewline: bool, depth: nat, field: Option<string>, node: Node)
    requires out == DropLeadingNewline(raw) && (needsNewline <==> raw != [])
    requires node.isNamed
    ensures DropLeadingNewline(raw + OpenOf(node, depth, field))
      == (if needsNewline then out + [Newline] else out) + (Indents(depth) + FieldPart(field) + [Header(node.kind, node.start, node.end)])
  {
    var line := Indents(depth) + FieldPart(field) + [Header(node.kind, node.start, node.end)];
    var open := OpenOf(node, depth, field);
    assert open == [Newline] + line;
    if needsNewline {
      DropLeadingNewlineAppend(raw, open);
      assert (out + [Newline]) + line == out + ([Newline] + line);
    } else {
      assert raw + open == open;
      assert out + line == line;
    }
  }

  /** What `write_tree` writes on entering `node`: nothing if it is unnamed; otherwise a line
      break unless nothing has been written yet, two spaces per level of `depth`, the field
      prefix, then the header. `raw` is the output so far as if every header had its line
      break. */
  method WriteOpen(out: seq<Token>, ghost raw: seq<Token>, needsNewline: bool, depth: nat, field: Option<string>, node: Node)
    returns (o: seq<Token>, needs: bool)
    requires out == DropLeadingNewline(raw) && (needsNewline <==> raw != [])
    ensures o == DropLeadingNewline(raw + OpenOf(node, depth, field))
    ensures needs <==> raw + OpenOf(node, depth, field) != []
  {
    if !node.isNamed {
      assert raw + OpenOf(node, depth, field) == raw;
      return out, needsNewline;
    }
    o := out;
    if needsNewline {
      o := o + [Newline];
    }
    o := WriteLine(o, depth, field, node);
    needs := true;
    WrittenOpen(out, raw, needsNewline, depth, field, node);
  }

  /** What `write_tree` writes on leaving `node`: `)` if it is named, nothing otherwise. */
  method WriteClose(out: seq<Token>, ghost raw: seq<Token>, needsNewline: bool, node: Node)
    returns (o: seq<Token>, needs: bool)
    requires out == DropLeadingNewline(raw) && (needsNewline <==> raw != [])
    ensures o == DropLeadingNewline(raw + CloseOf(node))
    ensures needs <==> raw + CloseOf(node) != []
  {
    o, needs := out, needsNewline;
    if node.isNamed {
      DropLeadingNewlineAppend(raw, [Close]);
      o := o + [Close];
      needs := true;
    } else {
      assert raw + CloseOf(node) == raw;
    }
  }

  /** The half of a `write_tree` round that leaves the cursor's node, whose children are done:
      `)` if it is named, then a move to the next sibling (`sibling`) or else to the parent
      (`parent`); neither moves at the root. */
  method LeaveNode(cursor: TreeCursor, ghost tree: Node, out: seq<Token>, needsNewline: bool,
                   ghost raw: seq<Token>, ghost visits: seq<Visit>)
    returns (o: seq<Token>, needs: bool, sibling: bool, parent: bool, ghost raw': seq<Token>, ghost visits': seq<Visit>)
    requires cursor.Valid() && Written(out, needsNewline, raw) && OnTrack(tree, cursor.stack, true, raw, visits)
    modifies cursor
    ensures cursor.Valid() && Written(o, needs, raw') && |visits'| == |visits| + 1
    ensures raw' == raw + CloseOf(old(cursor.Current())) && visits' == visits + [Leave(PathOf(old(cursor.stack)))]
    ensures sibling <==> HasNextSibling(old(cursor.stack))
    ensures parent <==> !sibling && |old(cursor.stack)| > 1
    ensures !sibling && !parent ==> |cursor.stack| == 1
    ensures sibling ==> OnTrack(tree, cursor.stack, false, raw', visits') && |cursor.stack| == |old(cursor.stack)|
    ensures !sibling && parent ==> OnTrack(tree, cursor.stack, true, raw', visits') && |cursor.stack| == |old(cursor.stack)| - 1
    ensures !sibling && !parent ==> raw' == Emit(tree, 0, None) && visits' == Walk(tree, [])
  {
    var node := cursor.Current();
    ghost var stack := cursor.stack;
    o, needs := WriteClose(out, raw, needsNewline, node);
    raw', visits' := raw + CloseOf(node), visits + [Leave(PathOf(stack))];
    sibling, parent := MoveOn(cursor, tree, node, raw, visits);
  }

  /** The moves after leaving `node`: to its next sibling if it has one, else to its parent;
      neither is possible at the root. */
  method MoveOn(cursor: TreeCursor, ghost tree: Node, ghost node: Node, ghost raw: seq<Token>, ghost visits: seq<Visit>)
    returns (sibling: bool, parent: bool)
    requires cursor.Valid() && OnTrack(tree, cursor.stack, true, raw, visits) && node == cursor.Current()
    modifies cursor
    ensures cursor.Valid()
    ensures sibling <==> HasNextSibling(old(cursor.stack))
    ensures parent <==> !sibling && |old(cursor.stack)| > 1
    ensures !sibling && !parent ==> |cursor.stack| == 1
    ensures sibling ==> (|cursor.stack| == |old(cursor.stack)| &&
      OnTrack(tree, cursor.stack, false, raw + CloseOf(node), visits + [Leave(PathOf(old(cursor.stack)))]))
    ensures !sibling && parent ==> (|cursor.stack| == |old(cursor.stack)| - 1 &&
      OnTrack(tree, cursor.stack, true, raw + CloseOf(node), visits + [Leave(PathOf(old(cursor.stack)))]))
    ensures !sibling && !parent ==>
      raw + CloseOf(node) == Emit(tree, 0, None) && visits + [Leave(PathOf(old(cursor.stack)))] == Walk(tree, [])
  {
    ghost var stack := cursor.stack;
    sibling := cursor.GotoNextSibling();
    parent := false;
    if sibling {
      LeaveToSiblingOnTrack(tree, stack, node, cursor.stack, raw, visits);
    } else {
      parent := cursor.GotoParent();
      if parent {
        LeaveToParentOnTrack(tree, stack, node, cursor.stack, raw, visits);
      } else {
        LeaveRootOnTrack(tree, stack, node, raw, visits);
      }
    }
  }

  /** The half of a `write_tree` round that enters the cursor's node: its header if it is
      named, then a move to its first child (`child`) if it has one. */
  method EnterNode(cursor: TreeCursor, ghost tree: Node, out: seq<Token>, needsNewline: bool, indentLevel: nat,
                   ghost raw: seq<Token>, ghost visits: seq<Visit>)
    returns (o: seq<Token>, needs: bool, child: bool, ghost raw': seq<Token>, ghost visits': seq<Visit>)
    requires cursor.Valid() && indentLevel == |cursor.stack| - 1
    requires Written(out, needsNewline, raw) && OnTrack(tree, cursor.stack, false, raw, visits)
    modifies cursor
    ensures cursor.Valid() && Written(o, needs, raw') && |visits'| == |visits| + 1
    ensures raw' == raw + OpenOf(old(cursor.Current()), indentLevel, old(cursor.FieldName()))
    ensures visits' == visits + [Enter(PathOf(old(cursor.stack)))]
    ensures child <==> old(cursor.Current()).children != []
    ensures OnTrack(tree, cursor.stack, !child, raw', visits')
    ensures |cursor.stack| == |old(cursor.stack)| + (if child then 1 else 0)
  {
    var node := cursor.Current();
    ghost var stack := cursor.stack;
    var field := cursor.FieldName();
    o, needs := WriteOpen(out, raw, needsNewline, indentLevel, field, node);
    raw', visits' := raw + OpenOf(node, indentLevel, field), visits + [Enter(PathOf(stack))];
    child := cursor.GotoFirstChild();
    if child {
      EnterFirstChildOnTrack(tree, stack, node, indentLevel, field, cursor.stack, raw, visits);
    } else {
      EnterLeafOnTrack(tree, stack, node, indentLevel, field, raw, visits);
    }
  }

  /** `Document::write_tree`. The cursor starts at the root; each round either enters the
      current node or, once its children are done, leaves it; the walk ends when the root has
      no parent. `visits` records which node each round entered or left, and `finalIndent` is
      the indentation level when the loop breaks. The indentation level is at every round the
      number of ancestors of the cursor's node, so it never goes negative. */
  method WriteTree(tree: Node) returns (out: seq<Token>, ghost visits: seq<Visit>, ghost finalIndent: int)
    ensures out == Render(tree)
    ensures visits == Walk(tree, [])
    ensures finalIndent == 0
  {
    var cursor := new TreeCursor(tree);
    var needsNewline := false;
    var indentLevel: int := 0;
    var didVisitChildren := false;
    out := [];
    visits := [];
    ghost var raw: seq<Token> := [];
    while true
      invariant cursor.Valid() && indentLevel == |cursor.stack| - 1
      invariant Written(out, needsNewline, raw)
      invariant OnTrack(tree, cursor.stack, didVisitChildren, raw, visits)
      decreases |Walk(tree, [])| - |visits|
    {
      if didVisitChildren {
        var sibling, parent;
        out, needsNewline, sibling, parent, raw, visits := LeaveNode(cursor, tree, out, needsNewline, raw, visits);
        if sibling {
          didVisitChildren := false;
        } else if parent {
          didVisitChildren := true;
          indentLevel := indentLevel - 1;
        } else {
          break;
        }
      } else {
        var child;
        out, needsNewline, child, raw, visits := EnterNode(cursor, tree, out, needsNewline, indentLevel, raw, visits);
        if child {
          didVisitChildren := false;
          indentLevel := indentLevel + 1;
        } else {
          didVisitChildren := true;
        }
      }
    }
    finalIndent := indentLevel;
  }

  // ---------------------------------------------------------------------------
  // find

  /** One capture of a match: the capture slot, the slot's name, the captured node's range and
      its text. */
  datatype Capture = Capture(index: nat, name: string, start: Point, end: Point, text: string) {
    function Index(): (r: nat)
      ensures this == Capture(r, name, start, end, text)
    {
      index
    }
    function Name(): (r: string)
      ensures this == Capture(index, r, start, end, text)
    {
      name
    }
    function StartPosition(): (r: Point)
      ensures this == Capture(index, name, r, end, text)
    {
      start
    }
    function EndPosition(): (r: Point)
      ensures this == Capture(index, name, start, r, text)
    {
      end
    }
    function Text(): (r: string)
      ensures this == Capture(index, name, start, end, r)
    {
      text
    }
  }

  /** One match of a query: its id, the index of the pattern that matched, and its captures. */
  datatype Match = Match(id: nat, pattern: nat, captures: seq<Capture>) {
    function Id(): (r: nat)
      ensures this == Match(r, pattern, captures)
    {
      id
    }
    function PatternIndex(): (r: nat)
      ensures this == Match(id, r, captures)
    {
      pattern
    }
    function Captures(): (r: seq<Capture>)
      ensures this == Match(id, pattern, r)
    {
      captures
    }
  }

  /** A capture as the query engine reports it. `text` is the captured node's source text,
      absent when those bytes are not valid UTF-8. */
  datatype QueryCapture = QueryCapture(index: nat, start: Point, end: Point, text: Option<string>)

  /** A match as the query engine reports it. */
  datatype QueryMatch = QueryMatch(id: nat, patternIndex: nat, captures: seq<QueryCapture>)

  /** Every capture slot the engine reports has a name in the query's table. */
  predicate SlotsNamed(captureNames: seq<string>, ms: seq<QueryMatch>) {
    forall i, j :: 0 <= i < |ms| && 0 <= j < |ms[i].captures| ==> ms[i].captures[j].index < |captureNames|
  }

  function ToCapture(captureNames: seq<string>, c: QueryCapture): Capture
    requires c.index < |captureNames|
  {
    Capture(c.index, captureNames[c.index], c.start, c.end, c.text.GetOr(""))
  }

  function ToCaptures(captureNames: seq<string>, cs: seq<QueryCapture>): (r: seq<Capture>)
    requires forall j :: 0 <= j < |cs| ==> cs[j].index < |captureNames|
    ensures |r| == |cs|
    ensures forall j :: 0 <= j < |cs| ==> r[j] == ToCapture(captureNames, cs[j])
  {
    if cs == [] then [] else [ToCapture(captureNames, cs[0])] + ToCaptures(captureNames, cs[1..])
  }

  function ToMatch(captureNames: seq<string>, m: QueryMatch): Match
    requires forall j :: 0 <= j < |m.captures| ==> m.captures[j].index < |captureNames|
  {
    Match(m.id, m.patternIndex, ToCaptures(captureNames, m.captures))
  }

  /** The shaping half of `Document::find`: one `Match` per reported match, in the engine's
      order, each with its captures in order, named from the query's capture-name table, and
      with the empty string for text that is not valid UTF-8. */
  function Find(captureNames: seq<string>, ms: seq<QueryMatch>): (r: seq<Match>)
    requires SlotsNamed(captureNames, ms)
    ensures |r| == |ms|
    ensures forall i :: 0 <= i < |ms| ==>
      r[i].Id() == ms[i].id && r[i].PatternIndex() == ms[i].patternIndex && |r[i].Captures()| == |ms[i].captures|
    ensures forall i, j :: 0 <= i < |ms| && 0 <= j < |ms[i].captures| ==>
      var c, q := r[i].Captures()[j], ms[i].captures[j];
      c.Index() == q.index && c.Name() == captureNames[q.index] &&
      c.StartPosition() == q.start && c.EndPosition() == q.end &&
      c.Text() == (if q.text.Some? then q.text.value else "")
  {
    if ms == [] then []
    else
      assert SlotsNamed(captureNames, ms[1..]) by {
        forall i, j | 0 <= i < |ms| - 1 && 0 <= j < |ms[1..][i].captures|
          ensures ms[1..][i].captures[j].index < |captureNames|
        {
          assert ms[1..][i] == ms[i + 1];
        }
      }
      assert forall j :: 0 <= j < |ms[0].captures| ==> ms[0].captures[j].index < |captureNames|;
      [ToMatch(captureNames, ms[0])] + Find(captureNames, ms[1..])
  }

  /** Shaping works match by match: the result for two runs of matches is the two results in
      the same order. */
  lemma FindAppend(captureNames: seq<string>, a: seq<QueryMatch>, b: seq<QueryMatch>)
    requires SlotsNamed(captureNames, a) && SlotsNamed(captureNames, b)
    ensures SlotsNamed(captureNames, a + b)
    ensures Find(captureNames, a + b) == Find(captureNames, a) + Find(captureNames, b)
  {
    assert SlotsNamed(captureNames, a + b) by {
      forall i, j | 0 <= i < |a + b| && 0 <= j < |(a + b)[i].captures|
        ensures (a + b)[i].captures[j].index < |captureNames|
      {
        if i < |a| { assert (a + b)[i] == a[i]; } else { assert (a + b)[i] == b[i - |a|]; }
      }
    }
    var fa, fb, fab := Find(captureNames, a), Find(captureNames, b), Find(captureNames, a + b);
    assert |fab| == |fa + fb|;
    forall i | 0 <= i < |fab| ensures fab[i] == (fa + fb)[i] {
      if i < |a| {
        assert (a + b)[i] == a[i];
      } else {
        assert (a + b)[i] == b[i - |a|];
      }
      assert fab[i].captures == (fa + fb)[i].captures;
    }
  }

  /** The raw match a shaped match came from, taking its text as valid. */
  function Unshape(m: Match): QueryMatch
  {
    QueryMatch(m.id, m.pattern, seq(|m.captures|, j requires 0 <= j < |m.captures| =>
      QueryCapture(m.captures[j].index, m.captures[j].start, m.captures[j].end, Some(m.captures[j].text))))
  }

  /** When every captured text is valid UTF-8, shaping loses nothing: the raw matches can be
      recovered from the result. */
  lemma FindUnshape(captureNames: seq<string>, ms: seq<QueryMatch>)
    requires SlotsNamed(captureNames, ms)
    requires forall i, j :: 0 <= i < |ms| && 0 <= j < |ms[i].captures| ==> ms[i].captures[j].text.Some?
    ensures var r := Find(captureNames, ms);
      |r| == |ms| && forall i :: 0 <= i < |ms| ==> Unshape(r[i]) == ms[i]
  {
    var r := Find(captureNames, ms);
    forall i | 0 <= i < |ms| ensures Unshape(r[i]) == ms[i] {
      var u, cs := Unshape(r[i]), r[i].captures;
      assert u.id == ms[i].id && u.patternIndex == ms[i].patternIndex;
      assert |u.captures| == |cs| == |ms[i].captures|;
      forall j | 0 <= j < |u.captures| ensures u.captures[j] == ms[i].captures[j] {
        assert u.captures[j] == QueryCapture(cs[j].index, cs[j].start, cs[j].end, Some(cs[j].text));
      }
    }
  }
}
