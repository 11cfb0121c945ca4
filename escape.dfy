/**
 * str2regexp (content.go): turns a manifest line into a regular expression by running one
 * strings.ReplaceAll pass per listed character, the backslash first, each pass putting a
 * backslash in front of its character. The list holds 13 of the 14 characters that Go's
 * regular-expression syntax reserves: `|` is left unescaped.
 */
module Escape {
  import opened Strings

  /** The characters str2regexp escapes, in the order in which the passes run. */
  const Search: seq<char> := ['\\', '^', '$', '.', '+', '*', '?', '[', ']', '(', ')', '{', '}']

  /** The replacement used by each pass, index for index with Search. */
  const Replace: seq<string> :=
    ["\\\\", "\\^", "\\$", "\\.", "\\+", "\\*", "\\?", "\\[", "\\]", "\\(", "\\)", "\\{", "\\}"]

  /** Every character Go's regular-expression syntax reserves (those regexp.QuoteMeta
      escapes): the list of str2regexp and the alternation bar. */
  const RegexpMeta: seq<char> := Search + ['|']

  predicate IsMeta(c: char) {
    c in Search
  }

  /** Position of a reserved character in RegexpMeta, -1 for any other character. */
  function MetaIndex(c: char): int {
    match c
    case '\\' => 0 case '^' => 1 case '$' => 2 case '.' => 3 case '+' => 4
    case '*' => 5 case '?' => 6 case '[' => 7 case ']' => 8 case '(' => 9
    case ')' => 10 case '{' => 11 case '}' => 12 case '|' => 13
    case _ => -1
  }

  /** A list of characters to escape that starts with the backslash and names no character
      twice. */
  predicate ValidTable(meta: seq<char>) {
    && |meta| >= 1 && meta[0] == '\\'
    && forall i, j :: 0 <= i < j < |meta| ==> meta[i] != meta[j]
  }

  /** Every pass replaces its character by a backslash followed by that character, each
      reserved character sits at its own position, and both lists are valid tables. */
  lemma SearchTable()
    ensures |Replace| == |Search| && |RegexpMeta| == |Search| + 1
    ensures forall k :: 0 <= k < |Search| ==> Replace[k] == ['\\', Search[k]]
    ensures forall k :: 0 <= k < |RegexpMeta| ==> MetaIndex(RegexpMeta[k]) == k
    ensures ValidTable(Search) && ValidTable(RegexpMeta)
  {
    forall k | 0 <= k < |RegexpMeta|
      ensures (k < |Search| ==> Replace[k] == ['\\', Search[k]]) && MetaIndex(RegexpMeta[k]) == k
    {
      assert k == 0 || k == 1 || k == 2 || k == 3 || k == 4 || k == 5 || k == 6
        || k == 7 || k == 8 || k == 9 || k == 10 || k == 11 || k == 12 || k == 13;
    }
    assert forall k :: 0 <= k < |Search| ==> Search[k] == RegexpMeta[k];
  }

  /** What a single input character has become after the first `done` passes of `meta`. */
  function EscapedCharAfter(c: char, meta: seq<char>, done: nat): string
    requires done <= |meta|
  {
    if c in meta[..done] then ['\\', c] else [c]
  }

  /** What the whole text has become after the first `done` passes, if no pass ever touched
      what an earlier pass inserted. */
  function EscapedAfter(s: string, meta: seq<char>, done: nat): string
    requires done <= |meta|
  {
    if s == [] then [] else EscapedCharAfter(s[0], meta, done) + EscapedAfter(s[1..], meta, done)
  }

  /** Each character of `meta` preceded by a backslash, every other character kept,
      character by character. */
  function EscapedWith(s: string, meta: seq<char>): string {
    EscapedAfter(s, meta, |meta|)
  }

  /** The per-character meaning of str2regexp. */
  function Escaped(s: string): string {
    EscapedWith(s, Search)
  }

  /** The text after running one ReplaceAll pass per character of `order`, in order, each
      pass putting a backslash in front of its character. */
  function RunPasses(s: string, order: seq<char>): string {
    if order == [] then s
    else
      var c := order[|order| - 1];
      ReplaceAll(RunPasses(s, order[..|order| - 1]), c, ['\\', c])
  }

  lemma PassStepChar(c: char, meta: seq<char>, k: nat)
    requires ValidTable(meta) && k < |meta|
    ensures ReplaceAll(EscapedCharAfter(c, meta, k), meta[k], ['\\', meta[k]]) == EscapedCharAfter(c, meta, k + 1)
  {
    var m := meta[k];
    assert meta[..k + 1] == meta[..k] + [m];
    if c in meta[..k] {
      var i :| 0 <= i < k && meta[i] == c;
      assert meta[0] == '\\' && c != m && '\\' != m;
      assert ReplaceAll(['\\', c], m, ['\\', m]) == ['\\'] + ReplaceAll([c], m, ['\\', m]);
    }
  }

  /** Pass number `k` turns the text escaped by the earlier passes into the text escaped by
      one more: the backslash pass runs first, so no later pass meets an inserted backslash. */
  lemma {:induction false} PassStep(s: string, meta: seq<char>, k: nat)
    requires ValidTable(meta) && k < |meta|
    ensures ReplaceAll(EscapedAfter(s, meta, k), meta[k], ['\\', meta[k]]) == EscapedAfter(s, meta, k + 1)
  {
    if s != [] {
      ReplaceAllAppend(EscapedCharAfter(s[0], meta, k), EscapedAfter(s[1..], meta, k), meta[k], ['\\', meta[k]]);
      PassStepChar(s[0], meta, k);
      PassStep(s[1..], meta, k);
    }
  }

  lemma {:induction false} NoPassesNoChange(s: string, meta: seq<char>)
    ensures EscapedAfter(s, meta, 0) == s
  {
    if s != [] {
      NoPassesNoChange(s[1..], meta);
    }
  }

  /** Running the passes in the order of the table is the same as escaping character by
      character. */
  lemma {:induction false} PassesInOrder(s: string, meta: seq<char>, k: nat)
    requires ValidTable(meta) && k <= |meta|
    ensures RunPasses(s, meta[..k]) == EscapedAfter(s, meta, k)
  {
    if k == 0 {
      NoPassesNoChange(s, meta);
    } else {
      assert meta[..k][..k - 1] == meta[..k - 1];
      PassesInOrder(s, meta, k - 1);
      PassStep(s, meta, k - 1);
    }
  }

  /** str2regexp: thirteen ReplaceAll passes, one per listed character, backslash first. */
  method Str2Regexp(str: string) returns (r: string)
    ensures r == Escaped(str)
    ensures r == RunPasses(str, Search)
  {
    SearchTable();
    r := str;
    var key := 0;
    NoPassesNoChange(str, Search);
    while key < |Search|
      invariant 0 <= key <= |Search|
      invariant r == RunPasses(str, Search[..key]) == EscapedAfter(str, Search, key)
    {
      PassStep(str, Search, key);
      assert Search[..key + 1][..key] == Search[..key];
      r := ReplaceAll(r, Search[key], Replace[key]);
      key := key + 1;
    }
    assert Search[..|Search|] == Search;
  }

  /** Why the backslash pass comes first: run after the dot pass it doubles the backslash
      that pass inserted, and "." turns into `\\.`, which matches a backslash followed by
      any character, instead of `\.`. */
  lemma BackslashFirstMatters()
    ensures RunPasses(".", ['.', '\\']) == "\\\\."
    ensures RunPasses(".", ['\\', '.']) == "\\." == Escaped(".")
  {
    assert ['.', '\\'][..1] == ['.'];
    assert RunPasses(".", ['.']) == "\\.";
    assert ['\\', '.'][..1] == ['\\'];
    assert RunPasses(".", ['\\']) == ".";
    assert ReplaceAll("\\.", '\\', "\\\\") == "\\\\" + ReplaceAll(".", '\\', "\\\\");
    assert Search[..|Search|] == Search;
    assert EscapedCharAfter('.', Search, |Search|) == "\\.";
    assert Escaped(".") == EscapedCharAfter('.', Search, |Search|) + EscapedAfter([], Search, |Search|);
  }

  /** Number of listed characters in `s`. */
  function MetaCount(s: string): (n: nat)
    ensures n <= |s|
  {
    if s == [] then 0 else (if IsMeta(s[0]) then 1 else 0) + MetaCount(s[1..])
  }

  /** Each listed character adds exactly one character. */
  lemma {:induction false} EscapedLength(s: string)
    ensures |Escaped(s)| == |s| + MetaCount(s)
  {
    if s != [] {
      assert Search[..|Search|] == Search;
      EscapedLength(s[1..]);
    }
  }

  /** A text without listed characters comes back unchanged. */
  lemma {:induction false} EscapedPlain(s: string)
    requires forall k :: 0 <= k < |s| ==> !IsMeta(s[k])
    ensures Escaped(s) == s
  {
    if s != [] {
      assert Search[..|Search|] == Search;
      EscapedPlain(s[1..]);
    }
  }

  /** Reading an escaped text back: a backslash stands for the character after it. */
  function Unescape(s: string): string {
    if s == [] then []
    else if s[0] == '\\' && |s| >= 2 then [s[1]] + Unescape(s[2..])
    else [s[0]] + Unescape(s[1..])
  }

  /** Escaping loses nothing: reading the escaped text back gives the original. */
  lemma {:induction false} UnescapeEscaped(s: string, meta: seq<char>)
    requires ValidTable(meta)
    ensures Unescape(EscapedWith(s, meta)) == s
  {
    if s != [] {
      assert meta[..|meta|] == meta;
      var rest := EscapedWith(s[1..], meta);
      UnescapeEscaped(s[1..], meta);
      if s[0] in meta {
        assert EscapedWith(s, meta) == ['\\', s[0]] + rest;
        assert (['\\', s[0]] + rest)[2..] == rest;
      } else {
        assert s[0] != '\\';
        assert EscapedWith(s, meta) == [s[0]] + rest;
        assert ([s[0]] + rest)[1..] == rest;
      }
    }
  }

  /** Distinct lines give distinct patterns. */
  lemma EscapedInjective(a: string, b: string)
    requires Escaped(a) == Escaped(b)
    ensures a == b
  {
    SearchTable();
    UnescapeEscaped(a, Search);
    UnescapeEscaped(b, Search);
  }

  // ---------------------------------------------------------------------------
  // The alternation bar

  /** Every reserved character of `p`, given the reserved characters `meta`, is quoted: it is
      a backslash followed by a reserved character. */
  predicate LiteralPattern(p: string, meta: seq<char>)
    decreases |p|
  {
    if p == [] then true
    else if p[0] in meta then p[0] == '\\' && |p| >= 2 && p[1] in meta && LiteralPattern(p[2..], meta)
    else LiteralPattern(p[1..], meta)
  }

  /** Escaping with a valid table quotes every character of that table. */
  lemma {:induction false} EscapedLiteral(s: string, meta: seq<char>)
    requires ValidTable(meta)
    ensures LiteralPattern(EscapedWith(s, meta), meta)
  {
    if s != [] {
      assert meta[..|meta|] == meta;
      var rest := EscapedWith(s[1..], meta);
      EscapedLiteral(s[1..], meta);
      if s[0] in meta {
        assert EscapedWith(s, meta) == ['\\', s[0]] + rest;
        assert (['\\', s[0]] + rest)[2..] == rest;
      } else {
        assert EscapedWith(s, meta) == [s[0]] + rest;
        assert ([s[0]] + rest)[1..] == rest;
      }
    }
  }

  /** str2regexp as written leaves `|` bare: the line `a|b` comes back unchanged, with its
      `|` unquoted, which Go's syntax reads as the alternation of `a` and `b`. */
  lemma PipeLeftBare()
    ensures Escaped("a|b") == "a|b"
    ensures !LiteralPattern(Escaped("a|b"), RegexpMeta)
  {
    SearchTable();
    EscapedPlain("a|b");
    assert LiteralPattern("a|b", RegexpMeta) == LiteralPattern("|b", RegexpMeta);
  }

  /** The evidently intended escape, as regexp.QuoteMeta does it: every character Go's syntax
      reserves, `|` included, is quoted, and the line can be read back. */
  function QuoteMeta(s: string): (p: string)
    ensures LiteralPattern(p, RegexpMeta)
    ensures Unescape(p) == s
  {
    SearchTable();
    EscapedLiteral(s, RegexpMeta);
    UnescapeEscaped(s, RegexpMeta);
    EscapedWith(s, RegexpMeta)
  }

  /** On a line without `|` the intended escape and str2regexp agree. */
  lemma {:induction false} QuoteMetaAgrees(s: string)
    requires '|' !in s
    ensures QuoteMeta(s) == Escaped(s)
  {
    if s != [] {
      assert RegexpMeta[..|RegexpMeta|] == RegexpMeta && Search[..|Search|] == Search;
      assert s[0] in RegexpMeta <==> s[0] in Search;
      QuoteMetaAgrees(s[1..]);
    }
  }
}
