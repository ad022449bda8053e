/**
 * Extracting the licence-like comment blocks of one file: line breaks are
 * normalised, the parser's comments are grouped, and a group is kept when one
 * of its comments matches one of the detection patterns.
 */
module Licences {
  import opened Wrappers
  import opened Comments
  import opened Grouping

  predicate IsBreak(ch: char) {
    ch == '\r' || ch == '\n'
  }

  /** The text after the run of line-break characters at the start of `s`. */
  function SkipBreaks(s: string): (r: string)
    ensures |r| <= |s| && r == s[|s| - |r|..]
    ensures r == [] || !IsBreak(r[0])
    ensures forall i :: 0 <= i < |s| - |r| ==> IsBreak(s[i])
  {
    if s != [] && IsBreak(s[0]) then SkipBreaks(s[1..]) else s
  }

  /** Each maximal run of '\r' and '\n' characters becomes a single '\n'. */
  function NormalizeNewlines(s: string): string
    decreases |s|
  {
    if s == [] then []
    else if IsBreak(s[0]) then "\n" + NormalizeNewlines(SkipBreaks(s[1..]))
    else [s[0]] + NormalizeNewlines(s[1..])
  }

  /** No line break of `s` is a carriage return or next to another line break. */
  predicate NoCarriageReturn(s: string) {
    forall i :: 0 <= i < |s| ==> s[i] != '\r'
  }

  predicate NoBlankLine(s: string) {
    forall i :: 0 <= i < |s| - 1 ==> !(s[i] == '\n' && s[i + 1] == '\n')
  }

  /** The characters of `s` other than line breaks. */
  function WithoutBreaks(s: string): string {
    if s == [] then [] else (if IsBreak(s[0]) then [] else [s[0]]) + WithoutBreaks(s[1..])
  }

  lemma {:induction false} WithoutBreaksOfBreaks(s: string)
    requires forall i :: 0 <= i < |s| ==> IsBreak(s[i])
    ensures WithoutBreaks(s) == []
  {
    if s != [] { WithoutBreaksOfBreaks(s[1..]); }
  }

  lemma {:induction false} WithoutBreaksAppend(a: string, b: string)
    ensures WithoutBreaks(a + b) == WithoutBreaks(a) + WithoutBreaks(b)
  {
    if a == [] {
      assert a + b == b;
    } else {
      assert (a + b)[1..] == a[1..] + b;
      WithoutBreaksAppend(a[1..], b);
    }
  }

  /** The normalised text is empty iff `s` is, and starts with '\n' exactly where `s` starts with a line break. */
  lemma NormalizeNewlinesHead(s: string)
    ensures (NormalizeNewlines(s) == []) == (s == [])
    ensures s != [] ==> NormalizeNewlines(s)[0] == if IsBreak(s[0]) then '\n' else s[0]
  {
  }

  /** The normalised text has no carriage return and no two line feeds in a row. */
  lemma {:induction false} NormalizeNewlinesNormal(s: string)
    ensures NoCarriageReturn(NormalizeNewlines(s)) && NoBlankLine(NormalizeNewlines(s))
    decreases |s|
  {
    var r := NormalizeNewlines(s);
    if s != [] {
      var t := if IsBreak(s[0]) then SkipBreaks(s[1..]) else s[1..];
      var rt := NormalizeNewlines(t);
      NormalizeNewlinesNormal(t);
      assert r == [r[0]] + rt;
      if IsBreak(s[0]) {
        NormalizeNewlinesHead(t);
      }
      forall i | 0 <= i < |r| - 1 ensures !(r[i] == '\n' && r[i + 1] == '\n') {
        if i > 0 {
          assert r[i] == rt[i - 1] && r[i + 1] == rt[i];
        }
      }
    }
  }

  /** Normalising keeps every character of `s` that is not a line break, in order. */
  lemma {:induction false} NormalizeNewlinesKeepsText(s: string)
    ensures WithoutBreaks(NormalizeNewlines(s)) == WithoutBreaks(s)
    decreases |s|
  {
    if s != [] {
      var r := NormalizeNewlines(s);
      assert s == [s[0]] + s[1..];
      WithoutBreaksAppend([s[0]], s[1..]);
      if IsBreak(s[0]) {
        var t := SkipBreaks(s[1..]);
        var skipped := s[1..][..|s| - 1 - |t|];
        NormalizeNewlinesKeepsText(t);
        assert s[1..] == skipped + t;
        WithoutBreaksAppend(skipped, t);
        WithoutBreaksOfBreaks(skipped);
        WithoutBreaksAppend("\n", NormalizeNewlines(t));
      } else {
        NormalizeNewlinesKeepsText(s[1..]);
        WithoutBreaksAppend([s[0]], NormalizeNewlines(s[1..]));
      }
    }
  }

  /** Dropping the first character keeps text in normal form. */
  lemma NormalFormTail(s: string)
    requires s != [] && NoCarriageReturn(s) && NoBlankLine(s)
    ensures NoCarriageReturn(s[1..]) && NoBlankLine(s[1..])
  {
    forall i | 0 <= i < |s[1..]| - 1 ensures !(s[1..][i] == '\n' && s[1..][i + 1] == '\n') {
      assert s[1..][i] == s[i + 1] && s[1..][i + 1] == s[i + 2];
    }
  }

  /** Text already in normal form, in particular text without line breaks, is left unchanged. */
  lemma {:induction false} NormalizeNewlinesFixed(s: string)
    requires NoCarriageReturn(s) && NoBlankLine(s)
    ensures NormalizeNewlines(s) == s
    decreases |s|
  {
    if s != [] {
      NormalFormTail(s);
      NormalizeNewlinesFixed(s[1..]);
      assert NormalizeNewlines(s) == [s[0]] + NormalizeNewlines(s[1..]) by {
        if IsBreak(s[0]) {
          assert s[0] == '\n';
          if |s| > 1 { assert s[1] != '\n' && s[1] != '\r'; }
          assert SkipBreaks(s[1..]) == s[1..];
        }
      }
      assert s == [s[0]] + s[1..];
    }
  }

  /** Normalising twice is normalising once. */
  lemma NormalizeNewlinesIdempotent(s: string)
    ensures NormalizeNewlines(NormalizeNewlines(s)) == NormalizeNewlines(s)
  {
    NormalizeNewlinesNormal(s);
    NormalizeNewlinesFixed(NormalizeNewlines(s));
  }

  /** Text without any line break is left unchanged. */
  lemma NormalizeNewlinesNoBreaks(s: string)
    requires forall i :: 0 <= i < |s| ==> !IsBreak(s[i])
    ensures NormalizeNewlines(s) == s
  {
    NormalizeNewlinesFixed(s);
  }

  /** A blank line between two comments is removed: "a\n\nb" and "a\r\n\r\nb" both become "a\nb". */
  lemma BlankLineCollapsed(a: string, b: string)
    requires forall i :: 0 <= i < |a| ==> !IsBreak(a[i])
    requires forall i :: 0 <= i < |b| ==> !IsBreak(b[i])
    ensures NormalizeNewlines(a + ("\n\n" + b)) == a + ("\n" + b)
    ensures NormalizeNewlines(a + ("\r\n\r\n" + b)) == a + ("\n" + b)
  {
    NormalizeNewlinesNoBreaks(b);
    BreakRunBetween(a, "\n\n", b);
    BreakRunBetween(a, "\r\n\r\n", b);
  }

  /** A run of line breaks between two texts without line breaks becomes one '\n'. */
  lemma BreakRunBetween(a: string, run: string, b: string)
    requires forall i :: 0 <= i < |a| ==> !IsBreak(a[i])
    requires run != [] && forall i :: 0 <= i < |run| ==> IsBreak(run[i])
    requires b == [] || !IsBreak(b[0])
    ensures NormalizeNewlines(a + (run + b)) == a + ("\n" + NormalizeNewlines(b))
  {
    NormalizeNewlinesPrefix(a, run + b);
    BreakRunCollapsed(run, b);
  }

  /** A whole run of line breaks before text that does not start with one becomes one '\n'. */
  lemma BreakRunCollapsed(run: string, b: string)
    requires run != [] && forall i :: 0 <= i < |run| ==> IsBreak(run[i])
    requires b == [] || !IsBreak(b[0])
    ensures NormalizeNewlines(run + b) == "\n" + NormalizeNewlines(b)
  {
    assert (run + b)[0] == run[0] && (run + b)[1..] == run[1..] + b;
    SkipBreaksRun(run[1..], b);
  }

  lemma {:induction false} SkipBreaksRun(run: string, b: string)
    requires forall i :: 0 <= i < |run| ==> IsBreak(run[i])
    requires b == [] || !IsBreak(b[0])
    ensures SkipBreaks(run + b) == b
    decreases |run|
  {
    if run == [] {
      assert run + b == b;
    } else {
      assert (run + b)[0] == run[0] && (run + b)[1..] == run[1..] + b;
      SkipBreaksRun(run[1..], b);
    }
  }

  /** Text without line breaks passes through normalisation unchanged, whatever follows it. */
  lemma {:induction false} NormalizeNewlinesPrefix(a: string, t: string)
    requires forall i :: 0 <= i < |a| ==> !IsBreak(a[i])
    ensures NormalizeNewlines(a + t) == a + NormalizeNewlines(t)
    decreases |a|
  {
    if a == [] {
      assert a + t == t;
    } else {
      assert (a + t)[0] == a[0] && (a + t)[1..] == a[1..] + t;
      NormalizeNewlinesPrefix(a[1..], t);
      assert a == [a[0]] + a[1..];
    }
  }

  /** A detection pattern, seen only as the predicate "the regular expression matches this text". */
  type Pattern = string -> bool

  /** Some pattern matches the comment's own text. */
  predicate Matches(c: Comment, patterns: seq<Pattern>) {
    exists j :: 0 <= j < |patterns| && patterns[j](c.value)
  }

  /** Some comment of the group is matched by some pattern. */
  predicate IsLicense(g: seq<Comment>, patterns: seq<Pattern>) {
    exists i :: 0 <= i < |g| && Matches(g[i], patterns)
  }

  /** `a` is `b` with some elements left out. */
  predicate IsSubsequence<T(==)>(a: seq<T>, b: seq<T>)
    decreases |b|
  {
    if a == [] then true
    else if b == [] then false
    else if a[0] == b[0] then IsSubsequence(a[1..], b[1..])
    else IsSubsequence(a, b[1..])
  }

  /** The groups in which some comment is matched by some pattern, in their order. */
  function FilterLicenses(gs: seq<seq<Comment>>, patterns: seq<Pattern>): (r: seq<seq<Comment>>)
    ensures IsSubsequence(r, gs)
    ensures forall k :: 0 <= k < |r| ==> IsLicense(r[k], patterns)
    ensures forall k :: 0 <= k < |gs| ==> (IsLicense(gs[k], patterns) <==> gs[k] in r)
  {
    if gs == [] then []
    else if IsLicense(gs[0], patterns) then [gs[0]] + FilterLicenses(gs[1..], patterns)
    else FilterLicenses(gs[1..], patterns)
  }

  /** Filtering a concatenation filters each part; with `FilterLicensesSingle` this fixes the result. */
  lemma {:induction false} FilterLicensesAppend(a: seq<seq<Comment>>, b: seq<seq<Comment>>, patterns: seq<Pattern>)
    ensures FilterLicenses(a + b, patterns) == FilterLicenses(a, patterns) + FilterLicenses(b, patterns)
    decreases |a|
  {
    if a == [] {
      assert a + b == b;
    } else {
      assert (a + b)[0] == a[0] && (a + b)[1..] == a[1..] + b;
      FilterLicensesAppend(a[1..], b, patterns);
    }
  }

  /** No group, no licence; one group is kept exactly when it is licence-like. */
  lemma FilterLicensesSingle(g: seq<Comment>, patterns: seq<Pattern>)
    ensures FilterLicenses([], patterns) == []
    ensures FilterLicenses([g], patterns) == if IsLicense(g, patterns) then [g] else []
  {
    assert [g][1..] == [];
  }
}

/** The licence-like blocks of one file's text, as the parser reports its comments. */
module FileLicences {
  import opened Wrappers
  import opened Comments
  import opened Grouping
  import opened Reducer
  import opened Licences

  /**
   * What the parser makes of a text: a syntax error, or a program whose comment
   * list may be missing.
   */
  datatype ParseResult = ParseError | Program(comments: Option<seq<Comment>>)

  type Parser = string -> ParseResult

  /**
   * The licence blocks of `code`: the text is parsed after line-break
   * normalisation; no block when the parser reports no comment list; no result
   * at all (`None`) when the text does not parse.
   */
  function LicenceBlocks(code: string, parse: Parser, patterns: seq<Pattern>): (r: Option<seq<seq<Comment>>>)
    ensures r.None? <==> parse(NormalizeNewlines(code)).ParseError?
    ensures parse(NormalizeNewlines(code)) == Program(None) ==> r == Some([])
    ensures parse(NormalizeNewlines(code)).Program? && parse(NormalizeNewlines(code)).comments.Some? ==>
              var gs := Group(parse(NormalizeNewlines(code)).comments.value);
              && r.Some?
              && IsSubsequence(r.value, gs)
              && (forall k :: 0 <= k < |r.value| ==> IsLicense(r.value[k], patterns))
              && (forall k :: 0 <= k < |gs| ==> (IsLicense(gs[k], patterns) <==> gs[k] in r.value))
  {
    match parse(NormalizeNewlines(code))
    case ParseError => None
    case Program(None) => Some([])
    case Program(Some(cs)) => Some(FilterLicenses(Group(cs), patterns))
  }

  /** Every block kept from a file is a well-formed, non-empty group of its comments. */
  lemma LicenceBlocksWellFormed(code: string, parse: Parser, patterns: seq<Pattern>, k: int)
    requires LicenceBlocks(code, parse, patterns).Some?
    requires 0 <= k < |LicenceBlocks(code, parse, patterns).value|
    ensures WellFormedGroup(LicenceBlocks(code, parse, patterns).value[k])
  {
    var p := parse(NormalizeNewlines(code));
    if p.comments.Some? {
      var gs := Group(p.comments.value);
      var r := FilterLicenses(gs, patterns);
      GroupIsGrouping(p.comments.value);
      SubsequenceMembers(r, gs);
      assert r[k] in r;
      assert r[k] in gs;
      var j :| 0 <= j < |gs| && gs[j] == r[k];
      assert WellFormedGroup(gs[j]);
    }
  }

  lemma {:induction false} SubsequenceMembers<T>(a: seq<T>, b: seq<T>)
    requires IsSubsequence(a, b)
    ensures forall x :: x in a ==> x in b
    decreases |b|
  {
    if a != [] && b != [] {
      if a[0] == b[0] {
        SubsequenceMembers(a[1..], b[1..]);
        assert a == [a[0]] + a[1..];
      } else {
        SubsequenceMembers(a, b[1..]);
      }
    }
  }

  /** Normalises, parses, groups with the fold and keeps the licence-like blocks. */
  method GetLicences(code: string, parse: Parser, patterns: seq<Pattern>) returns (r: Option<seq<seq<Comment>>>)
    ensures r == LicenceBlocks(code, parse, patterns)
  {
    var normalized := NormalizeNewlines(code);
    var program := parse(normalized);
    if program.ParseError? {
      return None;
    }
    if program.comments.None? {
      return Some([]);
    }
    var blocks := GetCommentBlocks(program.comments.value);
    r := Some(FilterLicenses(blocks, patterns));
  }
}
