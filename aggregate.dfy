/**
 * Collecting the licence texts of many files into one insertion-ordered set
 * of distinct texts, reporting each block as added or merged, and the text
 * written to the output file.
 */
module Aggregate {
  import opened Wrappers
  import opened Comments
  import opened Grouping
  import opened Licences
  import opened FileLicences
  import opened Preview

  /** The parts with `sep` between each two of them. */
  function Join(parts: seq<string>, sep: string): string
    decreases |parts|
  {
    if parts == [] then ""
    else if |parts| == 1 then parts[0]
    else parts[0] + sep + Join(parts[1..], sep)
  }

  function TotalLength(parts: seq<string>): nat {
    if parts == [] then 0 else |parts[0]| + TotalLength(parts[1..])
  }

  /** Joining adds one separator between each two parts and nothing else. */
  lemma {:induction false} JoinLength(parts: seq<string>, sep: string)
    requires parts != []
    ensures |Join(parts, sep)| == TotalLength(parts) + (|parts| - 1) * |sep|
    decreases |parts|
  {
    if |parts| > 1 {
      JoinLength(parts[1..], sep);
    }
  }

  /** Appending a part to a non-empty list appends the separator and that part. */
  lemma {:induction false} JoinSnoc(parts: seq<string>, x: string, sep: string)
    requires parts != []
    ensures Join(parts + [x], sep) == Join(parts, sep) + sep + x
    decreases |parts|
  {
    var ps := parts + [x];
    if |parts| == 1 {
      assert ps[1..] == [x];
    } else {
      assert ps[1..] == parts[1..] + [x];
      JoinSnoc(parts[1..], x, sep);
    }
  }

  /** The comments' texts, in order. */
  function Values(g: seq<Comment>): seq<string> {
    seq(|g|, i requires 0 <= i < |g| => g[i].value)
  }

  /** The licence text of a block: its comments' texts, one per line. */
  function BlockText(g: seq<Comment>): string {
    Join(Values(g), "\n")
  }

  /**
   * The repository's own example of a run with an empty line comment in the
   * middle (" (C) _", "", " This software is _"): its text has two line feeds in
   * a row, although the normalised file text it came from has no blank line.
   */
  lemma EmptyLineCommentText(a: Comment, b: Comment, c: Comment)
    requires b.value == ""
    ensures BlockText([a, b, c]) == a.value + "\n\n" + c.value
  {
    var vs := Values([a, b, c]);
    assert vs == [a.value, "", c.value];
    assert vs[1..] == ["", c.value] && vs[1..][1..] == [c.value];
    assert Join(vs[1..][1..], "\n") == c.value;
    var tail := Join(vs[1..], "\n");
    assert tail == "" + "\n" + c.value;
    assert BlockText([a, b, c]) == a.value + "\n" + tail;
  }

  predicate NoDuplicates(s: seq<string>) {
    forall i, j :: 0 <= i < j < |s| ==> s[i] != s[j]
  }

  /** The distinct texts, each where it first occurs. */
  function Dedup(texts: seq<string>): (r: seq<string>)
    ensures |r| <= |texts|
    decreases |texts|
  {
    if texts == [] then []
    else
      var d := Dedup(texts[..|texts| - 1]);
      var t := texts[|texts| - 1];
      if t in d then d else d + [t]
  }

  /** The position of the first occurrence of `x`. */
  function FirstIndex(s: seq<string>, x: string): (i: nat)
    requires x in s
    ensures i < |s| && s[i] == x && x !in s[..i]
  {
    if s[0] == x then 0
    else
      assert x in s[1..];
      var i := 1 + FirstIndex(s[1..], x);
      assert s[..i] == [s[0]] + s[1..][..i - 1];
      i
  }

  lemma {:induction false} FirstIndexPrefix(s: seq<string>, t: string, x: string)
    requires x in s
    ensures x in s + [t] && FirstIndex(s + [t], x) == FirstIndex(s, x)
  {
    assert (s + [t])[0] == s[0];
    if s[0] != x {
      assert (s + [t])[1..] == s[1..] + [t];
      FirstIndexPrefix(s[1..], t, x);
    }
  }

  lemma {:induction false} FirstIndexLast(s: seq<string>, t: string)
    requires t !in s
    ensures FirstIndex(s + [t], t) == |s|
  {
    if s == [] {
      assert s + [t] == [t];
    } else {
      assert (s + [t])[0] == s[0];
      assert (s + [t])[1..] == s[1..] + [t];
      FirstIndexLast(s[1..], t);
    }
  }

  /**
   * The set holds each text once, holds exactly the texts seen, and keeps them
   * in the order of their first occurrence.
   */
  lemma {:induction false} DedupSpec(texts: seq<string>)
    ensures NoDuplicates(Dedup(texts))
    ensures forall x :: x in Dedup(texts) <==> x in texts
    ensures forall i, j :: 0 <= i < j < |Dedup(texts)| ==>
              FirstIndex(texts, Dedup(texts)[i]) < FirstIndex(texts, Dedup(texts)[j])
    decreases |texts|
  {
    if texts != [] {
      var n := |texts|;
      var p, t := texts[..n - 1], texts[n - 1];
      var d := Dedup(p);
      DedupSpec(p);
      assert texts == p + [t];
      forall x | x in d ensures FirstIndex(texts, x) == FirstIndex(p, x) {
        FirstIndexPrefix(p, t, x);
      }
      if t !in d {
        var r := d + [t];
        FirstIndexLast(p, t);
        forall i, j | 0 <= i < j < |r| ensures FirstIndex(texts, r[i]) < FirstIndex(texts, r[j]) {
          if j < |d| {
            assert r[i] == d[i] && r[j] == d[j];
          } else {
            assert r[i] == d[i];
          }
        }
      }
    }
  }

  /**
   * A text processed after `texts` grows the set by one exactly when it was not
   * seen before (it is added), and leaves it as it is otherwise (it is merged).
   */
  lemma DedupStep(texts: seq<string>, t: string)
    ensures Dedup(texts + [t]) == if t in texts then Dedup(texts) else Dedup(texts) + [t]
    ensures |Dedup(texts + [t])| == |Dedup(texts)| + (if t in texts then 0 else 1)
  {
    assert (texts + [t])[..|texts|] == texts;
    DedupSpec(texts);
  }

  /** The same licence text seen twice: the first sighting adds it, the second leaves the set as it was. */
  lemma SameTextTwice(t: string)
    ensures Dedup([t]) == [t]
    ensures Dedup([t, t]) == [t]
  {
    DedupStep([], t);
    DedupStep([t], t);
    assert [] + [t] == [t];
    assert [t] + [t] == [t, t];
  }

  /** The running set of distinct licence texts, in the order they were first added. */
  class LicenseSet {
    var elements: seq<string>

    ghost predicate Valid()
      reads this
    {
      NoDuplicates(elements)
    }

    constructor ()
      ensures Valid() && elements == []
    {
      elements := [];
    }

    method Has(text: string) returns (b: bool)
      ensures b <==> text in elements
    {
      b := text in elements;
    }

    /** Adds a text not yet present at the end; adding a present text changes nothing. */
    method Add(text: string)
      requires Valid()
      modifies this
      ensures Valid()
      ensures elements == if text in old(elements) then old(elements) else old(elements) + [text]
    {
      if text !in elements {
        elements := elements + [text];
      }
    }

    function Size(): (n: nat)
      reads this
      requires Valid()
      ensures n == |elements|
    {
      |elements|
    }
  }
}
