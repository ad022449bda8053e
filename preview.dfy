/**
 * The short, escaped preview of a licence text shown in each progress line:
 * its first ten characters, with the first special character among them
 * written as a two-character escape, and "..." when the text was cut.
 */
module Preview {

  /** How many characters of a licence text the preview shows. */
  const PreviewLength: nat := 10

  /** The first `PreviewLength` characters of `text`, all of it when shorter. */
  function Head(text: string): (r: string)
    ensures |r| == if |text| < PreviewLength then |text| else PreviewLength
    ensures r <= text
    ensures r == text <==> |text| <= PreviewLength
  {
    text[..if |text| < PreviewLength then |text| else PreviewLength]
  }

  /** The characters rewritten by the preview's escaping. */
  predicate IsSpecial(ch: char) {
    ch == '\U{0008}' || ch == '\t' || ch == '\n' || ch == '\U{000B}' || ch == '\U{000C}' || ch == '\r'
    || ch == '"' || ch == '\'' || ch == '`' || ch == '\\'
  }

  /** The letter written after the backslash for a special character. */
  function EscapeLetter(ch: char): (r: char)
    requires IsSpecial(ch)
    ensures IsEscapeLetter(r)
  {
    match ch
    case '\U{0008}' => 'b'
    case '\t' => 't'
    case '\n' => 'n'
    case '\U{000B}' => 'v'
    case '\U{000C}' => 'f'
    case '\r' => 'r'
    case _ => ch
  }

  predicate IsEscapeLetter(ch: char) {
    ch in "btnvfr\"'`\\"
  }

  /** The special character an escape letter stands for. */
  function UnescapeLetter(ch: char): (r: char)
    requires IsEscapeLetter(ch)
    ensures IsSpecial(r)
  {
    match ch
    case 'b' => '\U{0008}'
    case 't' => '\t'
    case 'n' => '\n'
    case 'v' => '\U{000B}'
    case 'f' => '\U{000C}'
    case 'r' => '\r'
    case _ => ch
  }

  lemma LetterRoundTrip(ch: char)
    requires IsSpecial(ch)
    ensures UnescapeLetter(EscapeLetter(ch)) == ch
  {
  }

  predicate NoSpecial(s: string) {
    forall i :: 0 <= i < |s| ==> !IsSpecial(s[i])
  }

  /**
   * The preview's escaping as written: a replacement with a non-global
   * pattern, so only the first special character becomes a backslash and its
   * letter; the rest of the text is left as it is.
   */
  function Escape(s: string): (r: string)
    ensures |r| == if NoSpecial(s) then |s| else |s| + 1
  {
    if s == [] then []
    else if IsSpecial(s[0]) then ['\\', EscapeLetter(s[0])] + s[1..]
    else [s[0]] + Escape(s[1..])
  }

  /** A text without special characters is not changed. */
  lemma {:induction false} EscapeNoSpecial(s: string)
    requires NoSpecial(s)
    ensures Escape(s) == s
  {
    if s != [] {
      EscapeNoSpecial(s[1..]);
      assert s == [s[0]] + s[1..];
    }
  }

  /**
   * Otherwise exactly the first special character is replaced by its escape:
   * everything before it and everything after it is unchanged.
   */
  lemma {:induction false} EscapeFirstOnly(s: string, i: int)
    requires 0 <= i < |s| && IsSpecial(s[i]) && NoSpecial(s[..i])
    ensures Escape(s) == s[..i] + ['\\', EscapeLetter(s[i])] + s[i + 1..]
  {
    if i > 0 {
      assert !IsSpecial(s[..i][0]);
      var t := s[1..][..i - 1];
      assert NoSpecial(t) by {
        forall j | 0 <= j < |t| ensures !IsSpecial(t[j]) {
          assert t[j] == s[..i][j + 1];
        }
      }
      EscapeFirstOnly(s[1..], i - 1);
      assert s[..i] == [s[0]] + s[1..][..i - 1];
      assert s[1..][i - 1 + 1..] == s[i + 1..];
    }
  }

  /** Reads back the first escape: a backslash followed by an escape letter. */
  function UnescapeFirst(s: string): string {
    if s == [] then []
    else if |s| > 1 && s[0] == '\\' && IsEscapeLetter(s[1]) then [UnescapeLetter(s[1])] + s[2..]
    else [s[0]] + UnescapeFirst(s[1..])
  }

  /** Escaping loses nothing: the original text can be read back from the escaped one. */
  lemma {:induction false} EscapeRoundTrip(s: string)
    ensures UnescapeFirst(Escape(s)) == s
  {
    if s != [] {
      if IsSpecial(s[0]) {
        var e := Escape(s);
        assert e[0] == '\\' && e[1] == EscapeLetter(s[0]) && e[2..] == s[1..];
        LetterRoundTrip(s[0]);
        assert s == [s[0]] + s[1..];
      } else {
        EscapeRoundTrip(s[1..]);
        assert Escape(s)[1..] == Escape(s[1..]);
        assert s == [s[0]] + s[1..];
      }
    }
  }

  /**
   * The displayed preview: the escaped head, then "..." unless the head is the
   * whole text, that is, exactly when the text is longer than `PreviewLength`.
   */
  function PreviewText(text: string): (r: string)
    ensures |text| > PreviewLength ==> r == Escape(text[..PreviewLength]) + "..."
    ensures |text| <= PreviewLength ==> r == Escape(text)
  {
    var head := Head(text);
    Escape(head) + (if |head| == |text| then "" else "...")
  }
}
