/** The languages the tool can parse, their names, and the parser of names. */
module Lang {
  import opened Wrappers

  datatype Language = Bazel | Python | Rust

  /** The tree-sitter grammars the languages are parsed with. */
  datatype Grammar = PythonGrammar | RustGrammar

  /** The single error value of `from_str` ("invalid language"). */
  datatype LanguageError = InvalidLanguage

  /** The grammar a language is parsed with: Bazel files are parsed as Python. */
  function GrammarOf(l: Language): (g: Grammar)
    ensures g == PythonGrammar <==> l != Rust
  {
    match l
    case Bazel | Python => PythonGrammar
    case Rust => RustGrammar
  }

  /** The name of a language, as used on the command line and by file-type filters. */
  function AsStr(l: Language): (r: string)
    ensures r != [] && forall i :: 0 <= i < |r| ==> 'a' <= r[i] <= 'z'
  {
    match l
    case Bazel => "bazel"
    case Python => "python"
    case Rust => "rust"
  }

  /** `Display`: appends the language's name to what the formatter has written so far. */
  function Fmt(l: Language, written: string): (r: string)
    ensures |r| == |written| + |AsStr(l)|
    ensures r[..|written|] == written && r[|written|..] == AsStr(l)
  {
    written + AsStr(l)
  }

  /** Unicode `White_Space`, the set of characters Rust's `char::is_whitespace` accepts. */
  const WhiteSpaceChars: set<char> := {
    '\t', '\n', 11 as char, 12 as char, '\r', ' ', 0x85 as char, 0xA0 as char, 0x1680 as char,
    0x2000 as char, 0x2001 as char, 0x2002 as char, 0x2003 as char, 0x2004 as char, 0x2005 as char,
    0x2006 as char, 0x2007 as char, 0x2008 as char, 0x2009 as char, 0x200A as char,
    0x2028 as char, 0x2029 as char, 0x202F as char, 0x205F as char, 0x3000 as char
  }

  predicate IsWhiteSpace(c: char) {
    c in WhiteSpaceChars
  }

  predicate AllWhiteSpace(s: string) {
    forall i :: 0 <= i < |s| ==> IsWhiteSpace(s[i])
  }

  /** The first position at or after `i` that does not hold white space (`|s|` if there is none). */
  function SkipWhiteSpace(s: string, i: nat): (r: nat)
    requires i <= |s|
    ensures i <= r <= |s|
    ensures forall k :: i <= k < r ==> IsWhiteSpace(s[k])
    ensures r < |s| ==> !IsWhiteSpace(s[r])
    decreases |s| - i
  {
    if i < |s| && IsWhiteSpace(s[i]) then SkipWhiteSpace(s, i + 1) else i
  }

  /** The end of `s[lo..j]` once its trailing white space is dropped. */
  function SkipWhiteSpaceBack(s: string, lo: nat, j: nat): (r: nat)
    requires lo <= j <= |s|
    ensures lo <= r <= j
    ensures forall k :: r <= k < j ==> IsWhiteSpace(s[k])
    ensures r > lo ==> !IsWhiteSpace(s[r - 1])
    decreases j
  {
    if lo < j && IsWhiteSpace(s[j - 1]) then SkipWhiteSpaceBack(s, lo, j - 1) else j
  }

  /** Rust's `str::trim`: the input with its leading and trailing white space removed. */
  function Trim(s: string): (r: string)
    ensures r == [] || (!IsWhiteSpace(r[0]) && !IsWhiteSpace(r[|r| - 1]))
    ensures exists i, j ::
              0 <= i <= j <= |s| && r == s[i..j] &&
              (forall k :: 0 <= k < i ==> IsWhiteSpace(s[k])) && (forall k :: j <= k < |s| ==> IsWhiteSpace(s[k]))
  {
    var i := SkipWhiteSpace(s, 0);
    var j := SkipWhiteSpaceBack(s, i, |s|);
    assert s[i..j] == [] || (s[i..j][0] == s[i] && s[i..j][j - i - 1] == s[j - 1]);
    s[i..j]
  }

  predicate IsAsciiUpper(c: char) {
    'A' <= c <= 'Z'
  }

  function ToAsciiLowerChar(c: char): char {
    if IsAsciiUpper(c) then (c as int + 32) as char else c
  }

  /** Rust's `str::to_ascii_lowercase`: maps 'A'..'Z' to 'a'..'z' and leaves every other character alone. */
  function ToAsciiLowercase(s: string): (r: string)
    ensures |r| == |s|
    ensures forall i :: 0 <= i < |s| ==> r[i] == ToAsciiLowerChar(s[i])
  {
    if s == [] then [] else [ToAsciiLowerChar(s[0])] + ToAsciiLowercase(s[1..])
  }

  /** What `from_str` compares against the three names. */
  function Normalize(s: string): (r: string)
    ensures |r| <= |s|
    ensures forall i :: 0 <= i < |r| ==> !IsAsciiUpper(r[i])
    ensures r == [] || (!IsWhiteSpace(r[0]) && !IsWhiteSpace(r[|r| - 1]))
  {
    var t := Trim(s);
    LowercaseKeepsEnds(t);
    ToAsciiLowercase(t)
  }

  /** Lower-casing leaves a string's first and last characters white space or not, as they were. */
  lemma LowercaseKeepsEnds(t: string)
    ensures var r := ToAsciiLowercase(t);
      t != [] ==> (IsWhiteSpace(r[0]) <==> IsWhiteSpace(t[0])) && (IsWhiteSpace(r[|r| - 1]) <==> IsWhiteSpace(t[|t| - 1]))
  {
    if t != [] {
      var r := ToAsciiLowercase(t);
      WhiteSpaceIgnoresAsciiCase(t[0], r[0]);
      WhiteSpaceIgnoresAsciiCase(t[|t| - 1], r[|r| - 1]);
    }
  }

  /** `FromStr::from_str`: the language whose name is the trimmed, lower-cased input. */
  function FromStr(s: string): (r: Result<Language, LanguageError>)
    ensures r.Ok? ==> AsStr(r.value) == Normalize(s)
    ensures r.Err? <==> forall l: Language :: AsStr(l) != Normalize(s)
  {
    var n := Normalize(s);
    if n == "bazel" then Ok(Bazel)
    else if n == "python" then Ok(Python)
    else if n == "rust" then Ok(Rust)
    else Err(InvalidLanguage)
  }

  /** Two strings that differ at most in the case of ASCII letters (Rust's `eq_ignore_ascii_case`). */
  predicate EqIgnoringAsciiCase(s: string, t: string) {
    |s| == |t| && forall i :: 0 <= i < |s| ==> ToAsciiLowerChar(s[i]) == ToAsciiLowerChar(t[i])
  }

  // ---------------------------------------------------------------------------
  // Properties

  /** Bazel and Python share the Python grammar; Rust has its own. */
  lemma GrammarSelection()
    ensures GrammarOf(Bazel) == GrammarOf(Python)
    ensures GrammarOf(Python) != GrammarOf(Rust)
  {
  }

  /** The three names are distinct. */
  lemma AsStrInjective(a: Language, b: Language)
    ensures AsStr(a) == AsStr(b) <==> a == b
  {
  }

  /** A string with no surrounding white space and no upper-case ASCII letter is its own normal form. */
  lemma {:induction false} NormalizeCanonical(s: string)
    requires s == [] || (!IsWhiteSpace(s[0]) && !IsWhiteSpace(s[|s| - 1]))
    requires forall i :: 0 <= i < |s| ==> !IsAsciiUpper(s[i])
    ensures Normalize(s) == s
  {
    TrimOfSplit(s, 0, |s|);
    assert Trim(s) == s;
    assert ToAsciiLowercase(s) == s;
  }

  /** Parsing a printed name gives back the language. */
  lemma FromStrAsStr(l: Language)
    ensures FromStr(AsStr(l)) == Ok(l)
  {
    NormalizeCanonical(AsStr(l));
  }

  /** `Display` followed by `from_str` also gives back the language. */
  lemma FromStrFmt(l: Language)
    ensures FromStr(Fmt(l, "")) == Ok(l)
  {
    FromStrAsStr(l);
  }

  /** Where a string splits into white space, a core that neither starts nor ends with white
      space, and white space again, Trim returns the core. */
  lemma TrimOfSplit(s: string, i: nat, j: nat)
    requires i <= j <= |s|
    requires forall k :: 0 <= k < i ==> IsWhiteSpace(s[k])
    requires forall k :: j <= k < |s| ==> IsWhiteSpace(s[k])
    requires i < j ==> !IsWhiteSpace(s[i]) && !IsWhiteSpace(s[j - 1])
    ensures Trim(s) == s[i..j]
  {
    var a := SkipWhiteSpace(s, 0);
    if i < j {
      SameSkip(s, a, i);
      var b := SkipWhiteSpaceBack(s, a, |s|);
      SameSkipBack(s, i, b, j);
    } else {
      SameSkip(s, a, |s|);
    }
  }

  /** Two stopping points of a forward white-space scan that both satisfy its contract agree. */
  lemma SameSkip(s: string, a: nat, c: nat)
    requires a <= |s| && c <= |s|
    requires forall k :: 0 <= k < a ==> IsWhiteSpace(s[k])
    requires forall k :: 0 <= k < c ==> IsWhiteSpace(s[k])
    requires a < |s| ==> !IsWhiteSpace(s[a])
    requires c < |s| ==> !IsWhiteSpace(s[c])
    ensures a == c
  {
  }

  /** Two stopping points of a backward white-space scan that both satisfy its contract agree. */
  lemma SameSkipBack(s: string, lo: nat, a: nat, c: nat)
    requires lo <= a <= |s| && lo <= c <= |s|
    requires forall k :: a <= k < |s| ==> IsWhiteSpace(s[k])
    requires forall k :: c <= k < |s| ==> IsWhiteSpace(s[k])
    requires a > lo ==> !IsWhiteSpace(s[a - 1])
    requires c > lo ==> !IsWhiteSpace(s[c - 1])
    ensures a == c
  {
  }

  /** `from_str` only looks at the normal form of its input. */
  lemma FromStrOfNormalize(s: string, t: string)
    requires Normalize(s) == Normalize(t)
    ensures FromStr(s) == FromStr(t)
  {
  }

  /** Around a core `s[i..j]` of `s`, padding `s` with white space leaves only white space. */
  lemma PaddedSplit(pre: string, s: string, post: string, i: nat, j: nat)
    requires AllWhiteSpace(pre) && AllWhiteSpace(post)
    requires i <= j <= |s|
    requires forall k :: 0 <= k < i ==> IsWhiteSpace(s[k])
    requires forall k :: j <= k < |s| ==> IsWhiteSpace(s[k])
    ensures (pre + s + post)[|pre| + i..|pre| + j] == s[i..j]
    ensures forall k :: 0 <= k < |pre| + i ==> IsWhiteSpace((pre + s + post)[k])
    ensures forall k :: |pre| + j <= k < |pre + s + post| ==> IsWhiteSpace((pre + s + post)[k])
  {
    var x := pre + s + post;
    var n := |pre|;
    assert x == pre + (s + post);
    forall k | 0 <= k < |x| ensures x[k] == if k < n then pre[k] else if k < n + |s| then s[k - n] else post[k - n - |s|] {
    }
  }

  /** White space added around a string is trimmed away with the string's own. */
  lemma TrimIgnoresSurroundingWhiteSpace(pre: string, s: string, post: string)
    requires AllWhiteSpace(pre) && AllWhiteSpace(post)
    ensures Trim(pre + s + post) == Trim(s)
  {
    var x := pre + s + post;
    var i := SkipWhiteSpace(s, 0);
    var j := SkipWhiteSpaceBack(s, i, |s|);
    assert Trim(s) == s[i..j];
    PaddedSplit(pre, s, post, i, j);
    if i < j {
      TrimOfSplit(x, |pre| + i, |pre| + j);
      assert Trim(x) == s[i..j];
    } else {
      forall k | 0 <= k < |x| ensures IsWhiteSpace(x[k]) {
        assert k < |pre| + i || |pre| + j <= k;
      }
      TrimOfSplit(x, |x|, |x|);
      assert Trim(x) == [] == s[i..j];
    }
  }

  /** `from_str` ignores white space around the name. */
  lemma FromStrIgnoresSurroundingWhiteSpace(pre: string, s: string, post: string)
    requires AllWhiteSpace(pre) && AllWhiteSpace(post)
    ensures FromStr(pre + s + post) == FromStr(s)
  {
    TrimIgnoresSurroundingWhiteSpace(pre, s, post);
    FromStrOfNormalize(pre + s + post, s);
  }

  /** Characters equal up to ASCII case are white space alike. */
  lemma WhiteSpaceIgnoresAsciiCase(c: char, d: char)
    requires ToAsciiLowerChar(c) == ToAsciiLowerChar(d)
    ensures IsWhiteSpace(c) <==> IsWhiteSpace(d)
  {
  }

  /** Strings with white space at the same positions are trimmed at the same positions. */
  lemma TrimSameWhiteSpace(s: string, t: string) returns (i: nat, j: nat)
    requires |s| == |t|
    requires forall k :: 0 <= k < |s| ==> (IsWhiteSpace(s[k]) <==> IsWhiteSpace(t[k]))
    ensures i <= j <= |s| && Trim(s) == s[i..j] && Trim(t) == t[i..j]
  {
    i := SkipWhiteSpace(s, 0);
    j := SkipWhiteSpaceBack(s, i, |s|);
    TrimOfSplit(s, i, j);
    TrimOfSplit(t, i, j);
  }

  lemma EqIgnoringAsciiCaseSlice(s: string, t: string, i: nat, j: nat)
    requires EqIgnoringAsciiCase(s, t) && i <= j <= |s|
    ensures EqIgnoringAsciiCase(s[i..j], t[i..j])
  {
    forall k | 0 <= k < j - i ensures ToAsciiLowerChar(s[i..j][k]) == ToAsciiLowerChar(t[i..j][k]) {
      assert s[i..j][k] == s[i + k] && t[i..j][k] == t[i + k];
    }
  }

  /** Trimming keeps two strings equal up to ASCII case. */
  lemma TrimIgnoresAsciiCase(s: string, t: string)
    requires EqIgnoringAsciiCase(s, t)
    ensures EqIgnoringAsciiCase(Trim(s), Trim(t))
  {
    forall k | 0 <= k < |s| ensures IsWhiteSpace(s[k]) <==> IsWhiteSpace(t[k]) {
      WhiteSpaceIgnoresAsciiCase(s[k], t[k]);
    }
    var i, j := TrimSameWhiteSpace(s, t);
    EqIgnoringAsciiCaseSlice(s, t, i, j);
  }

  /** `from_str` ignores the case of ASCII letters. */
  lemma FromStrIgnoresAsciiCase(s: string, t: string)
    requires EqIgnoringAsciiCase(s, t)
    ensures FromStr(s) == FromStr(t)
  {
    TrimIgnoresAsciiCase(s, t);
    var a, b := Trim(s), Trim(t);
    assert ToAsciiLowercase(a) == ToAsciiLowercase(b);
    FromStrOfNormalize(s, t);
  }

  /** The example of mixed case and padding: `"  RuSt "` names Rust. */
  lemma FromStrPaddedMixedCase()
    ensures FromStr("  RuSt ") == Ok(Rust)
  {
    var pre, name, post := "  ", "RuSt", " ";
    assert pre + name + post == "  RuSt ";
    assert AllWhiteSpace(pre) && AllWhiteSpace(post);
    FromStrIgnoresSurroundingWhiteSpace(pre, name, post);
    MixedCaseRust();
    FromStrIgnoresAsciiCase(name, AsStr(Rust));
    FromStrAsStr(Rust);
  }

  lemma MixedCaseRust()
    ensures EqIgnoringAsciiCase("RuSt", AsStr(Rust))
  {
    assert ToAsciiLowerChar('R') == 'r' && ToAsciiLowerChar('S') == 's';
  }
}
