/** The .NET string operations the request parser relies on, written out:
    `char.IsWhiteSpace`, `string.Trim`, `string.Split(char, TrimEntries)`,
    and ordinal `string.Contains(string)`. */
module Text {
  import opened Base

  /** `char.IsWhiteSpace`: the control characters U+0009..U+000D and U+0085,
      and every character of the Unicode categories Zs, Zl and Zp. */
  predicate IsWhiteSpace(c: char) {
    || ('\t' <= c <= '\r')
    || c == ' ' || c == '\U{85}' || c == '\U{A0}' || c == '\U{1680}'
    || ('\U{2000}' <= c <= '\U{200A}')
    || c == '\U{2028}' || c == '\U{2029}' || c == '\U{202F}' || c == '\U{205F}'
    || c == '\U{3000}'
  }

  predicate AllWhite(s: string) {
    forall i :: 0 <= i < |s| ==> IsWhiteSpace(s[i])
  }

  /** Number of white-space characters at the start of `s`. */
  function LeadingWhite(s: string): (n: nat)
    ensures n <= |s|
    ensures AllWhite(s[..n])
    ensures n < |s| ==> !IsWhiteSpace(s[n])
  {
    if s == [] || !IsWhiteSpace(s[0]) then 0 else 1 + LeadingWhite(s[1..])
  }

  /** Number of white-space characters at the end of `s`. */
  function TrailingWhite(s: string): (n: nat)
    ensures n <= |s|
    ensures AllWhite(s[|s| - n..])
    ensures n < |s| ==> !IsWhiteSpace(s[|s| - 1 - n])
  {
    if s == [] || !IsWhiteSpace(s[|s| - 1]) then 0 else 1 + TrailingWhite(s[..|s| - 1])
  }

  /** `string.Trim()`: `s` without its leading and trailing white space. */
  function Trim(s: string): (r: string)
    ensures r == [] || (!IsWhiteSpace(r[0]) && !IsWhiteSpace(r[|r| - 1]))
    ensures exists a, b :: s == a + r + b && AllWhite(a) && AllWhite(b)
  {
    var i := LeadingWhite(s);
    var t := s[i..];
    var n := TrailingWhite(t);
    var r := t[..|t| - n];
    var a, b := s[..i], t[|t| - n..];
    TrimPieces(s, i, n);
    assert s == a + r + b && AllWhite(a) && AllWhite(b);
    assert r != [] ==> r[0] == t[0] && r[|r| - 1] == t[|t| - 1 - n];
    r
  }

  /** `s` cut at `i` from the front and `n` from the back of what follows. */
  lemma TrimPieces(s: string, i: nat, n: nat)
    requires i <= |s| && n <= |s| - i
    ensures var t := s[i..]; s == s[..i] + t[..|t| - n] + t[|t| - n..]
  {
    var t := s[i..];
    assert t == t[..|t| - n] + t[|t| - n..];
    assert s == s[..i] + t;
  }

  /** Trimming changes nothing when `s` neither starts nor ends with white
      space. */
  lemma TrimKeepsTrimmed(s: string)
    requires s == [] || (!IsWhiteSpace(s[0]) && !IsWhiteSpace(s[|s| - 1]))
    ensures Trim(s) == s
  {
    assert LeadingWhite(s) == 0;
    assert s[0..] == s;
  }

  /** Trimming twice is trimming once. */
  lemma TrimTwice(s: string)
    ensures Trim(Trim(s)) == Trim(s)
  {
    TrimKeepsTrimmed(Trim(s));
  }

  /** One space in front of a trimmed string is trimmed away. */
  lemma TrimLeadingSpace(s: string)
    requires s == [] || (!IsWhiteSpace(s[0]) && !IsWhiteSpace(s[|s| - 1]))
    ensures Trim(" " + s) == s
  {
    var t := " " + s;
    assert t[1..] == s;
    assert LeadingWhite(t) == 1;
    assert TrailingWhite(s) == 0;
    assert s[..|s| - 0] == s;
  }

  /** `pat` occurs in `s` starting at index `i`. */
  predicate OccursAt(s: string, pat: string, i: nat) {
    i + |pat| <= |s| && s[i..i + |pat|] == pat
  }

  /** Ordinal `s.Contains(pat)`. */
  function Contains(s: string, pat: string): (b: bool)
    ensures b <==> exists i: nat :: OccursAt(s, pat, i)
    decreases |s|
  {
    if |s| < |pat| then false
    else if s[..|pat|] == pat then assert OccursAt(s, pat, 0); true
    else
      var b := Contains(s[1..], pat);
      assert forall i: nat :: OccursAt(s[1..], pat, i) <==> OccursAt(s, pat, i + 1) by {
        forall i: nat ensures OccursAt(s[1..], pat, i) <==> OccursAt(s, pat, i + 1) {
          if i + 1 + |pat| <= |s| {
            assert s[1..][i..i + |pat|] == s[i + 1..i + 1 + |pat|];
          }
        }
      }
      assert !OccursAt(s, pat, 0);
      assert (exists i: nat :: OccursAt(s, pat, i)) ==> exists i: nat :: OccursAt(s[1..], pat, i) by {
        if exists i: nat :: OccursAt(s, pat, i) {
          var i: nat :| OccursAt(s, pat, i);
          assert i != 0;
          assert OccursAt(s[1..], pat, i - 1);
        }
      }
      b
  }

  /** `s.Split(sep)` with empty entries kept: the pieces between separators,
      in order. */
  function Split(s: string, sep: char): (fields: seq<string>)
    ensures |fields| == multiset(s)[sep] + 1
    ensures forall k :: 0 <= k < |fields| ==> sep !in fields[k]
    decreases |s|
  {
    match IndexOf(s, sep)
    case None => [s]
    case Some(i) =>
      assert s == s[..i] + [sep] + s[i + 1..];
      assert multiset(s) == multiset(s[..i]) + multiset([sep]) + multiset(s[i + 1..]);
      [s[..i]] + Split(s[i + 1..], sep)
  }

  /** Splitting at the first separator. */
  lemma SplitAt(a: string, sep: char, b: string)
    requires sep !in a
    ensures Split(a + [sep] + b, sep) == [a] + Split(b, sep)
  {
    var s := a + [sep] + b;
    assert s[..|a|] == a && s[|a| + 1..] == b;
    IndexOfFirst(s, sep, |a|);
  }

  /** The fields joined back with the separator between them. */
  function Join(fields: seq<string>, sep: char): string
    requires fields != []
  {
    if |fields| == 1 then fields[0] else fields[0] + [sep] + Join(fields[1..], sep)
  }

  /** Splitting loses nothing: joining the fields gives back the line. */
  lemma {:induction false} JoinSplit(s: string, sep: char)
    ensures Join(Split(s, sep), sep) == s
    decreases |s|
  {
    match IndexOf(s, sep)
    case None =>
    case Some(i) =>
      JoinSplit(s[i + 1..], sep);
      assert s == s[..i] + [sep] + s[i + 1..];
  }

  /** `s.Split(sep, StringSplitOptions.TrimEntries)`: every field trimmed,
      none dropped. */
  function SplitTrimmed(s: string, sep: char): (fields: seq<string>)
    ensures |fields| == multiset(s)[sep] + 1
    ensures forall k :: 0 <= k < |fields| ==> fields[k] == Trim(Split(s, sep)[k])
  {
    var raw := Split(s, sep);
    seq(|raw|, k requires 0 <= k < |raw| => Trim(raw[k]))
  }
}
