# ssr: syntax-tree printer, match shaping and language names

This project models, in Dafny, two self-contained pieces of `ssr`, a tool that searches
source files for tree-sitter query matches and prints syntax trees:

- **`Document::write_tree`** (`src/doc.rs`), the syntax-tree printer. A tree-sitter cursor
  walks the tree with three moves: first child, next sibling and parent. On the way down,
  each *named* node writes one line: its indentation, an optional `field: ` prefix, then
  `(kind [row, column] - [row, column]`. Once the node's descendants are done, it writes `)`.
  Unnamed nodes write nothing, but the walk still goes through their children.
- **The shaping half of `Document::find`** (`src/doc.rs`). It turns the query engine's raw
  matches into `Match` and `Capture` records. Each capture gets its name from the query's
  capture-name table. Its text is the empty string when the captured bytes are not UTF-8.
- **`Language`** (`src/lang.rs`): the three language names (`as_str`, `Display`), the name
  parser `FromStr` (trim, ASCII-lowercase, match), and the grammar each language is parsed
  with.

Modules and files:

- `wrappers.dfy`, module `Wrappers`: `Option` and `Result`.
- `lang.dfy`, module `Lang`: the language enum, its names, the parser, and the grammar
  mapping. Rust's `str::trim` is modelled with an explicit Unicode `White_Space` set.
- `syntax_tree.dfy`, module `SyntaxTree`. The abstract tree `Node` has a kind, a named flag,
  start and end points, the field name its parent reaches it by, and ordered children.
  `Walk` is the enter/leave visit order of a pre-order walk. `TreeCursor` is a class holding
  a stack of (node, child index) entries, with `GotoFirstChild`, `GotoNextSibling` and
  `GotoParent`.
- `tree_output.dfy`, module `TreeOutput`. The printer's output is a sequence of tokens
  (`Newline`, `Indent` for two spaces, `FieldPrefix`, `Header`, `Close`). `Render` is the
  reference definition of what a tree prints as. The lemmas here read `Render` back as lines,
  show that its brackets balance, and show where its line breaks fall.
- `doc.dfy`, module `Doc`. `WriteTree` is the printer's loop. It has the same four pieces of
  state as the source (`needsNewline`, `indentLevel`, `didVisitChildren`, the cursor) and is
  proved to produce `Render(tree)`. The module also holds the `Match`/`Capture` records with
  their accessors and the `Find` shaping function.

The loop is proved against `Render` through a ghost "raw" output. In raw output every header
is preceded by a line break. The real output is the raw output without its first line break,
and `needsNewline` holds exactly when the raw output is non-empty. At every round, the raw
output so far plus what is still ahead of the cursor equals the raw output of the whole tree.
The same holds for the ghost enter/leave visit trace. Termination follows from this
invariant, because each round adds one visit to a trace of fixed length.

The indentation is modelled as the source computes it: `indent_level` goes up on every
successful move to a first child, named or not, and down on every move to a parent. So a
line is indented by two spaces for each ancestor, unnamed ancestors included.

## Model

| member | source | states |
|---|---|---|
| `Doc.WriteTree` | src/doc.rs:117-171 | The loop terminates, writes exactly `Render(tree)`, makes exactly the enter/leave visits of a pre-order walk, and breaks with the indentation level at 0 |
| `Doc.EnterNode` | src/doc.rs:138-168 | Entering a node writes its line if it is named (line break only when something was already written); then it moves to the first child if there is one, which adds one level, and stays on track with the whole output |
| `Doc.LeaveNode` | src/doc.rs:125-137 | Leaving a node writes `)` if it is named; then it moves to the next sibling at the same depth, or else to the parent one level up, or else at the root it ends with the whole output written |
| `Doc.MoveOn` | src/doc.rs:130-137 | After a node is done, the cursor tries the next sibling first and the parent second; if neither move works, the cursor is at the root and the output and walk are complete |
| `Doc.WriteOpen` | src/doc.rs:139-161 | A named node's header follows a line break only when something was already written; an unnamed node writes nothing and leaves `needs_newline` unchanged |
| `Doc.WriteClose` | src/doc.rs:126-129 | `)` is written exactly for named nodes, and `needs_newline` is then set |
| `Doc.WriteLine` | src/doc.rs:143-159 | A header line is the indentation, then the field prefix if the cursor reports a field, then `(kind [start] - [end]` |
| `Doc.WriteIndent` | src/doc.rs:143-145 | The indentation loop writes exactly `indent_level` two-space units |
| `TreeOutput.RenderLines` | src/doc.rs:139-161 | The output has one line per named node, in pre-order, with nothing for unnamed nodes (their descendants are still printed). Each line is indented by the node's number of ancestors, unnamed ones included, and carries a field prefix exactly when the node is reached through a field |
| `TreeOutput.RenderBalanced` | src/doc.rs:125-129 | The printed brackets are balanced: equal numbers of headers and `)`, and no prefix closes more than it opens |
| `TreeOutput.HeaderMatchedByLastClose` | src/doc.rs:151-159 | A named node's `(` stays open through all of its descendants' output and is closed by the last token of the node's own output |
| `TreeOutput.RenderWellFormed` | src/doc.rs:119-142 | The output is empty or starts with a line's indentation, prefix or header, never with a line break, and it ends with `)` |
| `TreeOutput.RenderNewlines` | src/doc.rs:140-160 | Every line break comes after a header or `)`, that is after some earlier output, and comes right before the next line's indentation, prefix or header; there is none at the end |
| `SyntaxTree.WalkVisitsEachNodeOnce` | src/doc.rs:122-169 | The walk enters every node of the tree exactly once and leaves it exactly once, and visits nothing else |
| `SyntaxTree.TreeCursor.constructor` | src/doc.rs:118 | `Tree::walk` gives a cursor at the root |
| `SyntaxTree.TreeCursor.GotoFirstChild` | src/doc.rs:162 | Moves down to child 0 exactly when the current node has children; otherwise the cursor is unchanged |
| `SyntaxTree.TreeCursor.GotoNextSibling` | src/doc.rs:130 | Moves to child i+1 of the same parent exactly when there is one; at the root or at the last child the cursor is unchanged |
| `SyntaxTree.TreeCursor.GotoParent` | src/doc.rs:132 | Moves up one level exactly when the cursor is not at the root |
| `SyntaxTree.TreeCursor.Current` | src/doc.rs:123 | `cursor.node()` is the node of the tree that the cursor's path of child positions leads to from the root |
| `SyntaxTree.TreeCursor.FieldName` | src/doc.rs:148 | `cursor.field_name()` is `None` at the root; elsewhere it is the field name on the edge from the parent to the current node |
| `Doc.Match.Id` | src/doc.rs:19-21 | Returns the stored id unchanged: the match is the record with that id and its other fields |
| `Doc.Match.PatternIndex` | src/doc.rs:22-24 | Returns the stored pattern index unchanged |
| `Doc.Match.Captures` | src/doc.rs:25-27 | Returns the stored captures unchanged, in order |
| `Doc.Capture.Index` | src/doc.rs:40-42 | Returns the stored capture slot unchanged |
| `Doc.Capture.Name` | src/doc.rs:43-45 | Returns the stored capture name unchanged |
| `Doc.Capture.StartPosition` | src/doc.rs:46-48 | Returns the stored start point unchanged |
| `Doc.Capture.EndPosition` | src/doc.rs:49-51 | Returns the stored end point unchanged |
| `Doc.Capture.Text` | src/doc.rs:52-54 | Returns the stored text unchanged |
| `Doc.Find` | src/doc.rs:92-113 | One `Match` per raw match, in order, with the same id and pattern index and the same number of captures in the same order. Each capture keeps its index and range, is named `capture_names[index]`, and has the text, or `""` when the text is not UTF-8. All of this is read through the accessors |
| `Doc.FindAppend` | src/doc.rs:92-113 | Shaping works match by match: the result for a concatenation of raw matches is the concatenation of the results |
| `Doc.FindUnshape` | src/doc.rs:96-110 | When every captured text is UTF-8, shaping loses nothing: each raw match can be recovered from its `Match` |
| `Lang.AsStr` | src/lang.rs:21-28 | Each name is a non-empty string of lower-case ASCII letters, so it is already in the form `from_str` compares against; `AsStrInjective` shows the three names differ |
| `Lang.GrammarOf` | src/lang.rs:14-19 | The Python grammar is selected exactly for the languages other than Rust |
| `Lang.Trim` | src/lang.rs:49 | `trim` returns a slice of the input with only white space before and after it, and the slice neither starts nor ends with white space |
| `Lang.Normalize` | src/lang.rs:49 | The trimmed, lower-cased input is no longer than the input, holds no upper-case ASCII letter, and neither starts nor ends with white space |
| `Lang.FromStr` | src/lang.rs:48-57 | Returns `Ok(l)` only when `as_str(l)` equals the trimmed, lower-cased input, and returns `Err` exactly when no language has that name |
| `Lang.FromStrAsStr` | src/lang.rs:48-56 | Parsing a language's name gives back `Ok` of that language, for each of Bazel, Python and Rust |
| `Lang.FromStrIgnoresSurroundingWhiteSpace` | src/lang.rs:49 | White space added before and after the input does not change the parse |
| `Lang.FromStrIgnoresAsciiCase` | src/lang.rs:49 | Inputs that differ only in the case of ASCII letters parse the same |
| `Lang.FromStrPaddedMixedCase` | src/lang.rs:49-53 | `"  RuSt "` parses as Rust |
| `Lang.TrimIgnoresSurroundingWhiteSpace` | src/lang.rs:49 | Trimming a string padded with white space gives the same result as trimming the string itself |
| `Lang.ToAsciiLowercase` | src/lang.rs:49 | Lower-casing keeps the length and maps each character on its own, only `A`-`Z` changing |
| `Lang.AsStrInjective` | src/lang.rs:21-28 | The three names are distinct: two languages have the same name exactly when they are equal |
| `Lang.Fmt` | src/lang.rs:39-43 | `Display` appends exactly `as_str(l)` to what the formatter already holds |
| `Lang.FromStrFmt` | src/lang.rs:39-43 | Parsing what `Display` writes gives back the language |
| `Lang.GrammarSelection` | src/lang.rs:14-19 | Bazel and Python select the same grammar; Rust selects a different one |

## Left out

- Writer errors: every `write_all`/`write!` in `write_tree` can fail and end the function early with `?`. The model's output is an appended token sequence that cannot fail.
- Text formatting: the tokens stand for their text. `Indent` is two spaces, `FieldPrefix(f)` is `"f: "`, `Header` is `(kind [r, c] - [r, c]` with decimal numbers, and `Close` is `)`. Decimal formatting is not modelled.
- Integer widths: `indent_level` (an `i32`), match ids and capture indices (`u32`) and the pattern index (`usize`) are unbounded `int`/`nat`. A tree deeper than 2^31 levels, where the Rust counter would overflow, is not modelled.
- `Doc.Find`: requires every capture index to be in the capture-name table. The source instead panics on an out-of-range index inside `Query::capture_name`, and `src/query.rs` is not part of this model.
- The matching itself (`tree_sitter::QueryCursor::matches`) is a foreign library. Its output is the input `QueryMatch` sequence of `Doc.Find`.
- `Document::open`, `Document::path` and `Document::lines`: they read the file system, call the tree-sitter parser, or split text into lines for the command-line output. The tree that `open` would produce is the input of `WriteTree`.
- `Language::language` returns a tree-sitter grammar object. It is modelled as a grammar id (`Lang.GrammarOf`).
- The `Display` strings of the two `Error` types ("document error", "invalid language") are constants and are not modelled.
- `src/main.rs` (command-line parsing, printing of matches with a floating-point line-number width, the per-file driver) is not part of this model. Edit application and diff rendering are called there but defined in no file of this model, so they are left out too.
