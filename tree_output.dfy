/** What `Document::write_tree` writes, as a sequence of tokens, and the properties of that
    output: one line per named node in pre-order with its indentation and field prefix,
    balanced brackets, and newlines only between lines. */
module TreeOutput {
  import opened Wrappers
  import opened SyntaxTree

  /** The pieces the printer writes: a line break, two spaces of indentation, a
      `"<field>: "` prefix, a node header `"(<kind> [<row>, <column>] - [<row>, <column>]"`,
      and a closing `")"`. */
  datatype Token = Newline | Indent | FieldPrefix(name: string) | Header(kind: string, start: Point, end: Point) | Close

  function Indents(n: nat): (r: seq<Token>)
    ensures |r| == n && forall k :: 0 <= k < n ==> r[k] == Indent
  {
    if n == 0 then [] else Indents(n - 1) + [Indent]
  }

  function FieldPart(field: Option<string>): seq<Token> {
    match field
    case None => []
    case Some(name) => [FieldPrefix(name)]
  }

  /** What entering a node writes. This is the raw form, in which every header is preceded by
      a line break; the printer leaves out the first one. */
  function OpenOf(n: Node, depth: nat, field: Option<string>): seq<Token> {
    if n.isNamed then [Newline] + Indents(depth) + FieldPart(field) + [Header(n.kind, n.start, n.end)] else []
  }

  /** What leaving a node writes. */
  function CloseOf(n: Node): seq<Token> {
    if n.isNamed then [Close] else []
  }

  /** The raw output for the subtree `n`, found at `depth` levels below the root and reached by
      `field`. */
  function Emit(n: Node, depth: nat, field: Option<string>): seq<Token>
    decreases n, 0
  {
    OpenOf(n, depth, field) + EmitChildren(n.children, depth + 1) + CloseOf(n)
  }

  function EmitChildren(cs: seq<Node>, depth: nat): seq<Token>
    decreases cs
  {
    if cs == [] then [] else Emit(cs[0], depth, cs[0].field) + EmitChildren(cs[1..], depth)
  }

  function DropLeadingNewline(ts: seq<Token>): seq<Token> {
    if |ts| > 0 && ts[0] == Newline then ts[1..] else ts
  }

  /** The printer's output for a tree: at the root nothing has been written yet, so no line
      break precedes the first header. */
  function Render(t: Node): seq<Token> {
    DropLeadingNewline(Emit(t, 0, None))
  }

  /** The raw output still to come once the cursor's node has been left: for each ancestor,
      the output of the later siblings at that level, then the ancestor's `)`. */
  function Remaining(stack: seq<Entry>): seq<Token>
    requires Linked(stack)
  {
    if |stack| <= 1 then []
    else
      var i := stack[|stack| - 1].index;
      var parent := stack[|stack| - 2].node;
      EmitChildren(parent.children[i + 1..], |stack| - 1) + CloseOf(parent) + Remaining(stack[..|stack| - 1])
  }

  // ---------------------------------------------------------------------------
  // Reading the output back as lines

  /** One printed line: its indentation (in steps of two spaces), its field prefix and its
      header. */
  datatype Line = Line(indent: nat, field: Option<string>, kind: string, start: Point, end: Point)

  /** The lines the named nodes of a subtree should produce: one per named node in pre-order,
      indented by the node's depth (counting unnamed ancestors too). */
  function NamedLines(n: Node, depth: nat, field: Option<string>): seq<Line>
    decreases n, 0
  {
    (if n.isNamed then [Line(depth, field, n.kind, n.start, n.end)] else []) + ChildLines(n.children, depth + 1)
  }

  function ChildLines(cs: seq<Node>, depth: nat): seq<Line>
    decreases cs
  {
    if cs == [] then [] else NamedLines(cs[0], depth, cs[0].field) + ChildLines(cs[1..], depth)
  }

  /** What has been read of the current line before its header. */
  datatype Pending = Pending(indent: nat, field: Option<string>)

  const LineStart := Pending(0, None)

  /** The state after reading one token. */
  function Step(p: Pending, x: Token): Pending {
    match x
    case Indent => Pending(p.indent + 1, p.field)
    case FieldPrefix(name) => Pending(p.indent, Some(name))
    case _ => LineStart
  }

  /** Reads tokens into lines: indentation and a field prefix are collected until a header
      completes a line. */
  function Scan(ts: seq<Token>, p: Pending): seq<Line>
  {
    if ts == [] then []
    else
      (match ts[0]
       case Header(kind, start, end) => [Line(p.indent, p.field, kind, start, end)]
       case _ => [])
      + Scan(ts[1..], Step(p, ts[0]))
  }

  function ScanState(ts: seq<Token>, p: Pending): Pending
  {
    if ts == [] then p else ScanState(ts[1..], Step(p, ts[0]))
  }

  /** The lines of a printed output. */
  function Lines(ts: seq<Token>): seq<Line> {
    Scan(ts, LineStart)
  }

  lemma {:induction false} ScanAppend(a: seq<Token>, b: seq<Token>, p: Pending)
    ensures Scan(a + b, p) == Scan(a, p) + Scan(b, ScanState(a, p))
    ensures ScanState(a + b, p) == ScanState(b, ScanState(a, p))
  {
    if a == [] {
      assert a + b == b;
    } else {
      assert (a + b)[0] == a[0] && (a + b)[1..] == a[1..] + b;
      ScanAppend(a[1..], b, Step(p, a[0]));
    }
  }

  lemma {:induction false} ScanIndents(n: nat, p: Pending)
    ensures Scan(Indents(n), p) == []
    ensures ScanState(Indents(n), p) == Pending(p.indent + n, p.field)
  {
    if n > 0 {
      ScanIndents(n - 1, p);
      ScanAppend(Indents(n - 1), [Indent], p);
    }
  }

  /** Entering a named node reads back as exactly its line. */
  lemma ScanOpen(n: Node, depth: nat, field: Option<string>, p: Pending)
    requires n.isNamed
    ensures Scan(OpenOf(n, depth, field), p) == [Line(depth, field, n.kind, n.start, n.end)]
    ensures ScanState(OpenOf(n, depth, field), p) == LineStart
  {
    var h := [Header(n.kind, n.start, n.end)];
    ScanIndents(depth, LineStart);
    ScanAppend([Newline], Indents(depth), p);
    ScanAppend([Newline] + Indents(depth), FieldPart(field), p);
    ScanAppend([Newline] + Indents(depth) + FieldPart(field), h, p);
  }

  /** The raw output of a subtree reads back as the lines of its named nodes, and leaves the
      reader at the start of a line. */
  lemma {:induction false} ScanEmit(n: Node, depth: nat, field: Option<string>)
    ensures Scan(Emit(n, depth, field), LineStart) == NamedLines(n, depth, field)
    ensures ScanState(Emit(n, depth, field), LineStart) == LineStart
    decreases n, 0
  {
    var o, c, z := OpenOf(n, depth, field), EmitChildren(n.children, depth + 1), CloseOf(n);
    ScanEmitChildren(n.children, depth + 1);
    if n.isNamed {
      ScanOpen(n, depth, field, LineStart);
    }
    ScanAppend(o, c, LineStart);
    ScanAppend(o + c, z, LineStart);
  }

  lemma {:induction false} ScanEmitChildren(cs: seq<Node>, depth: nat)
    ensures Scan(EmitChildren(cs, depth), LineStart) == ChildLines(cs, depth)
    ensures ScanState(EmitChildren(cs, depth), LineStart) == LineStart
    decreases cs
  {
    if cs != [] {
      ScanEmit(cs[0], depth, cs[0].field);
      ScanEmitChildren(cs[1..], depth);
      ScanAppend(Emit(cs[0], depth, cs[0].field), EmitChildren(cs[1..], depth), LineStart);
    }
  }

  /** The printed tree has one line per named node, in pre-order; each is indented by two
      spaces per ancestor (named or not), carries a `"<field>: "` prefix between the
      indentation and the `(` exactly when the node is reached through a field, and shows the
      node's kind and range. Unnamed nodes produce no line but their descendants do. */
  lemma RenderLines(t: Node)
    ensures Lines(Render(t)) == NamedLines(t, 0, None)
  {
    ScanEmit(t, 0, None);
  }

  // ---------------------------------------------------------------------------
  // Bracket balance

  function Weight(x: Token): int {
    match x
    case Header(_, _, _) => 1
    case Close => -1
    case _ => 0
  }

  /** The number of headers minus the number of `)`. */
  function Balance(ts: seq<Token>): int {
    if ts == [] then 0 else Weight(ts[0]) + Balance(ts[1..])
  }

  /** Starting with `base` brackets open, no prefix of `ts` closes more than are open. */
  predicate NeverBelow(ts: seq<Token>, base: int) {
    forall k :: 0 <= k <= |ts| ==> base + Balance(ts[..k]) >= 0
  }

  predicate Balanced(ts: seq<Token>) {
    Balance(ts) == 0 && NeverBelow(ts, 0)
  }

  lemma {:induction false} BalanceAppend(a: seq<Token>, b: seq<Token>)
    ensures Balance(a + b) == Balance(a) + Balance(b)
  {
    if a == [] {
      assert a + b == b;
    } else {
      assert (a + b)[0] == a[0] && (a + b)[1..] == a[1..] + b;
      BalanceAppend(a[1..], b);
    }
  }

  lemma NeverBelowAppend(a: seq<Token>, b: seq<Token>, base: int)
    requires NeverBelow(a, base) && NeverBelow(b, base + Balance(a))
    ensures NeverBelow(a + b, base)
  {
    forall k | 0 <= k <= |a + b| ensures base + Balance((a + b)[..k]) >= 0 {
      if k <= |a| {
        assert (a + b)[..k] == a[..k];
      } else {
        assert (a + b)[..k] == a + b[..k - |a|];
        BalanceAppend(a, b[..k - |a|]);
      }
    }
  }

  lemma NeverBelowRaise(ts: seq<Token>, base: int, more: int)
    requires NeverBelow(ts, base) && base <= more
    ensures NeverBelow(ts, more)
  {
  }

  /** Line breaks, indentation and field prefixes leave the balance alone. */
  lemma {:induction false} NoBracketBalance(ts: seq<Token>)
    requires forall k :: 0 <= k < |ts| ==> Weight(ts[k]) == 0
    ensures Balance(ts) == 0 && NeverBelow(ts, 0)
  {
    if ts != [] {
      NoBracketBalance(ts[1..]);
      forall k | 0 < k <= |ts| ensures Balance(ts[..k]) >= 0 {
        assert ts[..k][0] == ts[0] && ts[..k][1..] == ts[1..][..k - 1];
      }
      assert ts[..0] == [];
    }
  }

  lemma OpenBalance(n: Node, depth: nat, field: Option<string>)
    ensures Balance(OpenOf(n, depth, field)) == (if n.isNamed then 1 else 0)
    ensures NeverBelow(OpenOf(n, depth, field), 0)
  {
    if n.isNamed {
      var pre := [Newline] + Indents(depth) + FieldPart(field);
      var h := [Header(n.kind, n.start, n.end)];
      forall k | 0 <= k < |pre| ensures Weight(pre[k]) == 0 {
        if 0 < k <= depth { assert pre[k] == Indents(depth)[k - 1]; }
      }
      NoBracketBalance(pre);
      BalanceAppend(pre, h);
      assert Balance(h) == 1;
      assert h[..0] == [] && h[..1] == h;
      NeverBelowAppend(pre, h, 0);
    } else {
      assert OpenOf(n, depth, field)[..0] == [];
    }
  }

  lemma CloseBalance(n: Node, base: int)
    requires base >= (if n.isNamed then 1 else 0)
    ensures Balance(CloseOf(n)) == (if n.isNamed then -1 else 0)
    ensures NeverBelow(CloseOf(n), base)
  {
    if n.isNamed {
      assert CloseOf(n)[..1] == [Close];
    }
  }

  /** The raw output of every subtree has balanced brackets. */
  lemma {:induction false} EmitBalanced(n: Node, depth: nat, field: Option<string>)
    ensures Balanced(Emit(n, depth, field))
    decreases n, 0
  {
    var o, c, z := OpenOf(n, depth, field), EmitChildren(n.children, depth + 1), CloseOf(n);
    var w := if n.isNamed then 1 else 0;
    OpenBalance(n, depth, field);
    EmitChildrenBalanced(n.children, depth + 1);
    NeverBelowRaise(c, 0, w);
    NeverBelowAppend(o, c, 0);
    BalanceAppend(o, c);
    CloseBalance(n, w);
    NeverBelowAppend(o + c, z, 0);
    BalanceAppend(o + c, z);
  }

  lemma {:induction false} EmitChildrenBalanced(cs: seq<Node>, depth: nat)
    ensures Balanced(EmitChildren(cs, depth))
    decreases cs
  {
    if cs != [] {
      var a, b := Emit(cs[0], depth, cs[0].field), EmitChildren(cs[1..], depth);
      EmitBalanced(cs[0], depth, cs[0].field);
      EmitChildrenBalanced(cs[1..], depth);
      NeverBelowAppend(a, b, 0);
      BalanceAppend(a, b);
    } else {
      assert EmitChildren(cs, depth)[..0] == [];
    }
  }

  /** The `)` that matches a named node's header is the last token of the node's output: from
      the header on, the node's bracket stays open until that final token. */
  lemma HeaderMatchedByLastClose(n: Node, depth: nat, field: Option<string>)
    requires n.isNamed
    ensures var e := Emit(n, depth, field);
      e[|e| - 1] == Close &&
      e[|OpenOf(n, depth, field)| - 1].Header? &&
      forall k :: |OpenOf(n, depth, field)| <= k < |e| ==> Balance(e[..k]) >= 1
  {
    var o, c := OpenOf(n, depth, field), EmitChildren(n.children, depth + 1);
    var e := Emit(n, depth, field);
    OpenBalance(n, depth, field);
    EmitChildrenBalanced(n.children, depth + 1);
    forall k | |o| <= k < |e| ensures Balance(e[..k]) >= 1 {
      assert e[..k] == o + c[..k - |o|];
      BalanceAppend(o, c[..k - |o|]);
    }
  }

  /** The printed tree has balanced brackets. */
  lemma RenderBalanced(t: Node)
    ensures Balanced(Render(t))
  {
    var raw := Emit(t, 0, None);
    EmitBalanced(t, 0, None);
    if |raw| > 0 && raw[0] == Newline {
      assert raw == [Newline] + raw[1..];
      BalanceAppend([Newline], raw[1..]);
      forall k | 0 <= k <= |raw| - 1 ensures Balance(raw[1..][..k]) >= 0 {
        assert raw[..k + 1] == [Newline] + raw[1..][..k];
        BalanceAppend([Newline], raw[1..][..k]);
      }
    }
  }

  // ---------------------------------------------------------------------------
  // Line breaks

  /** Which token may follow which: after a line break or indentation comes more indentation,
      a field prefix or a header; after a field prefix, a header; after a header or `)`, a line
      break or `)`. */
  predicate Follows(x: Token, y: Token) {
    match x
    case Newline => y.Indent? || y.FieldPrefix? || y.Header?
    case Indent => y.Indent? || y.FieldPrefix? || y.Header?
    case FieldPrefix(_) => y.Header?
    case Header(_, _, _) => y.Newline? || y.Close?
    case Close => y.Newline? || y.Close?
  }

  predicate Chained(ts: seq<Token>) {
    forall k :: 0 <= k < |ts| - 1 ==> Follows(ts[k], ts[k + 1])
  }

  /** Raw output: empty, or from a line break up to a `)`, each token allowed after the last. */
  predicate RawWellFormed(ts: seq<Token>) {
    ts == [] || (ts[0] == Newline && ts[|ts| - 1] == Close && Chained(ts))
  }

  /** Printed output: empty, or a first line without a line break in front, ending with `)`. */
  predicate WellFormed(ts: seq<Token>) {
    ts == [] || ((ts[0].Indent? || ts[0].FieldPrefix? || ts[0].Header?) && ts[|ts| - 1] == Close && Chained(ts))
  }

  lemma ChainedAppend(a: seq<Token>, b: seq<Token>)
    requires Chained(a) && Chained(b)
    requires a != [] && b != [] ==> Follows(a[|a| - 1], b[0])
    ensures Chained(a + b)
  {
    forall k | 0 <= k < |a + b| - 1 ensures Follows((a + b)[k], (a + b)[k + 1]) {
      if k < |a| - 1 {
        assert (a + b)[k] == a[k] && (a + b)[k + 1] == a[k + 1];
      } else if k == |a| - 1 {
        assert (a + b)[k] == a[k] && (a + b)[k + 1] == b[0];
      } else {
        assert (a + b)[k] == b[k - |a|] && (a + b)[k + 1] == b[k - |a| + 1];
      }
    }
  }

  lemma RawWellFormedAppend(a: seq<Token>, b: seq<Token>)
    requires RawWellFormed(a) && RawWellFormed(b)
    ensures RawWellFormed(a + b)
  {
    if a == [] {
      assert a + b == b;
    } else if b == [] {
      assert a + b == a;
    } else {
      ChainedAppend(a, b);
    }
  }

  /** Entering a named node writes a proper line start ending in its header. */
  lemma OpenChained(n: Node, depth: nat, field: Option<string>)
    requires n.isNamed
    ensures var o := OpenOf(n, depth, field);
      |o| > 1 && o[0] == Newline && o[|o| - 1].Header? && Chained(o)
  {
    var ind := Indents(depth);
    var h := [Header(n.kind, n.start, n.end)];
    ChainedAppend([Newline], ind);
    var fp := FieldPart(field);
    ChainedAppend([Newline] + ind, fp);
    ChainedAppend([Newline] + ind + fp, h);
  }

  lemma {:induction false} EmitRawWellFormed(n: Node, depth: nat, field: Option<string>)
    ensures RawWellFormed(Emit(n, depth, field))
    decreases n, 0
  {
    var o, c, z := OpenOf(n, depth, field), EmitChildren(n.children, depth + 1), CloseOf(n);
    EmitChildrenRawWellFormed(n.children, depth + 1);
    if n.isNamed {
      OpenChained(n, depth, field);
      ChainedAppend(o, c);
      ChainedAppend(o + c, z);
      assert (o + c + z)[0] == o[0];
    } else {
      assert Emit(n, depth, field) == c;
    }
  }

  lemma {:induction false} EmitChildrenRawWellFormed(cs: seq<Node>, depth: nat)
    ensures RawWellFormed(EmitChildren(cs, depth))
    decreases cs
  {
    if cs != [] {
      EmitRawWellFormed(cs[0], depth, cs[0].field);
      EmitChildrenRawWellFormed(cs[1..], depth);
      RawWellFormedAppend(Emit(cs[0], depth, cs[0].field), EmitChildren(cs[1..], depth));
    }
  }

  /** The printed output never starts with a line break, ends with `)` when it is not empty,
      and has a line break only right after a header or a `)` and right before the
      indentation, field prefix or header of the next line. */
  lemma RenderWellFormed(t: Node)
    ensures WellFormed(Render(t))
  {
    var raw := Emit(t, 0, None);
    EmitRawWellFormed(t, 0, None);
    if raw != [] {
      assert raw[0] != raw[|raw| - 1];
      assert Follows(raw[0], raw[1]);
      assert Render(t) == raw[1..];
      forall k | 0 <= k < |raw| - 2 ensures Follows(raw[1..][k], raw[1..][k + 1]) {
        assert raw[1..][k] == raw[k + 1] && raw[1..][k + 1] == raw[k + 2];
      }
    }
  }

  /** The line-break facts of the printed output spelled out. */
  lemma RenderNewlines(t: Node)
    ensures var out := Render(t);
      (out == [] || (out[0] != Newline && out[|out| - 1] == Close)) &&
      forall k :: 0 <= k < |out| && out[k] == Newline ==>
        0 < k < |out| - 1 && (out[k - 1].Header? || out[k - 1].Close?) &&
        (out[k + 1].Indent? || out[k + 1].FieldPrefix? || out[k + 1].Header?)
  {
    var out := Render(t);
    RenderWellFormed(t);
    forall k | 0 <= k < |out| && out[k] == Newline
      ensures 0 < k < |out| - 1 && (out[k - 1].Header? || out[k - 1].Close?)
      ensures out[k + 1].Indent? || out[k + 1].FieldPrefix? || out[k + 1].Header?
    {
      assert Follows(out[k - 1], out[k]);
    }
  }
}
