/** The string operations the routes use: `trim`, `split(',')` and case-insensitive
    substring matching (`$regex` with `$options: 'i'`, read as a literal pattern). */
module Strings {

  /** ECMAScript WhiteSpace and LineTerminator code points, the characters `trim` removes. */
  predicate IsWhitespace(c: char): (b: bool)
    ensures c == ',' ==> !b
  {
    || c == '\t' || c == '\n' || c == '\U{000B}' || c == '\U{000C}' || c == '\r'
    || c == ' ' || c == '\U{00A0}' || c == '\U{1680}'
    || ('\U{2000}' <= c <= '\U{200A}')
    || c == '\U{2028}' || c == '\U{2029}' || c == '\U{202F}' || c == '\U{205F}'
    || c == '\U{3000}' || c == '\U{FEFF}'
  }

  /** The length of the leading whitespace of `s`. */
  function LeadingWhitespace(s: string): (n: nat)
    ensures n <= |s|
    ensures forall k :: 0 <= k < n ==> IsWhitespace(s[k])
    ensures n < |s| ==> !IsWhitespace(s[n])
  {
    if s != [] && IsWhitespace(s[0]) then 1 + LeadingWhitespace(s[1..]) else 0
  }

  /** Where the trailing whitespace of `s` begins. */
  function TrailingWhitespace(s: string): (n: nat)
    ensures n <= |s|
    ensures forall k :: n <= k < |s| ==> IsWhitespace(s[k])
    ensures 0 < n ==> !IsWhitespace(s[n - 1])
  {
    if s != [] && IsWhitespace(s[|s| - 1]) then TrailingWhitespace(s[..|s| - 1]) else |s|
  }

  /** `String.prototype.trim`: `s` without its leading and trailing whitespace. */
  function Trim(s: string): (r: string)
    ensures |r| <= |s|
    ensures r == [] || (!IsWhitespace(r[0]) && !IsWhitespace(r[|r| - 1]))
  {
    var t := s[LeadingWhitespace(s)..];
    t[..TrailingWhitespace(t)]
  }

  /** Trim returns the slice of `s` between its leading and its trailing whitespace, and
      everything outside that slice is whitespace. */
  lemma TrimRemovesOnlyWhitespace(s: string)
    ensures var i := LeadingWhitespace(s); var r := Trim(s);
      && i + |r| <= |s| && r == s[i..i + |r|]
      && (forall k :: 0 <= k < i ==> IsWhitespace(s[k]))
      && (forall k :: i + |r| <= k < |s| ==> IsWhitespace(s[k]))
  {
    var i := LeadingWhitespace(s);
    var t := s[i..];
    var r := Trim(s);
    forall k | i + |r| <= k < |s| ensures IsWhitespace(s[k]) {
      assert s[k] == t[k - i];
    }
  }

  /** A character absent from `s` is absent from its trimmed form. */
  lemma TrimOmits(s: string, c: char)
    requires c !in s
    ensures c !in Trim(s)
  {
    TrimRemovesOnlyWhitespace(s);
    var i := LeadingWhitespace(s);
    var r := Trim(s);
    forall k | 0 <= k < |r| ensures r[k] != c {
      assert r[k] == s[i + k];
    }
  }

  /** Trimming twice changes nothing more than trimming once. */
  lemma TrimIdempotent(s: string)
    ensures Trim(Trim(s)) == Trim(s)
  {
    var r := Trim(s);
    assert LeadingWhitespace(r) == 0;
    assert r[0..] == r;
    assert TrailingWhitespace(r) == |r|;
  }

  function Count(s: string, c: char): nat {
    if s == [] then 0 else (if s[0] == c then 1 else 0) + Count(s[1..], c)
  }

  /** `s.split(sep)` for a one-character separator: the pieces between separators, so there
      is one piece more than there are separators, and none contains the separator. */
  function Split(s: string, sep: char): (r: seq<string>)
    ensures |r| == Count(s, sep) + 1
    ensures forall i :: 0 <= i < |r| ==> sep !in r[i]
  {
    if s == [] then [""]
    else
      var rest := Split(s[1..], sep);
      if s[0] == sep then [""] + rest
      else [[s[0]] + rest[0]] + rest[1..]
  }

  /** `pieces.join(sep)`. */
  function Join(pieces: seq<string>, sep: char): string
    requires |pieces| > 0
  {
    if |pieces| == 1 then pieces[0] else pieces[0] + [sep] + Join(pieces[1..], sep)
  }

  /** Splitting loses nothing: joining the pieces gives the string back. */
  lemma {:induction false} JoinSplit(s: string, sep: char)
    ensures Join(Split(s, sep), sep) == s
  {
    if s != [] {
      var rest := Split(s[1..], sep);
      JoinSplit(s[1..], sep);
      if s[0] == sep {
        assert ([""] + rest)[1..] == rest;
      } else {
        var r := [[s[0]] + rest[0]] + rest[1..];
        if |rest| == 1 {
          assert r == [[s[0]] + rest[0]];
        } else {
          assert r[1..] == rest[1..];
          assert Join(rest, sep) == rest[0] + [sep] + Join(rest[1..], sep);
        }
        assert s == [s[0]] + s[1..];
      }
    }
  }

  /** Pieces free of the separator are recovered by splitting their join. */
  lemma {:induction false} SplitJoin(pieces: seq<string>, sep: char)
    requires |pieces| > 0
    requires forall i :: 0 <= i < |pieces| ==> sep !in pieces[i]
    ensures Split(Join(pieces, sep), sep) == pieces
  {
    if |pieces| == 1 {
      SplitNoSeparator(pieces[0], sep);
    } else {
      var joined := Join(pieces[1..], sep);
      var tail := [sep] + joined;
      SplitJoin(pieces[1..], sep);
      SplitPrefix(pieces[0], tail, sep);
      assert pieces[0] + [sep] + joined == pieces[0] + tail;
      assert tail[1..] == joined;
      var r := Split(tail, sep);
      assert r == [""] + pieces[1..];
      assert pieces[0] + r[0] == pieces[0];
      assert r[1..] == pieces[1..];
      assert pieces == [pieces[0]] + pieces[1..];
    }
  }

  lemma {:induction false} SplitNoSeparator(s: string, sep: char)
    requires sep !in s
    ensures Split(s, sep) == [s]
  {
    if s != [] {
      SplitNoSeparator(s[1..], sep);
      assert s == [s[0]] + s[1..];
    }
  }

  /** A separator-free prefix is glued onto the first piece of what follows it. */
  lemma {:induction false} SplitPrefix(p: string, rest: string, sep: char)
    requires sep !in p
    ensures var r := Split(rest, sep); Split(p + rest, sep) == [p + r[0]] + r[1..]
  {
    if p == [] {
      assert p + rest == rest;
      var r := Split(rest, sep);
      assert p + r[0] == r[0];
      assert r == [r[0]] + r[1..];
    } else {
      SplitPrefix(p[1..], rest, sep);
      assert (p + rest)[1..] == p[1..] + rest;
      assert [p[0]] + (p[1..] + Split(rest, sep)[0]) == p + Split(rest, sep)[0];
    }
  }

  /** ASCII case folding; other characters are left as they are. */
  function Lower(c: char): char {
    if 'A' <= c <= 'Z' then (c as int + 32) as char else c
  }

  function LowerAll(s: string): (r: string)
    ensures |r| == |s|
    ensures forall i :: 0 <= i < |s| ==> r[i] == Lower(s[i])
  {
    if s == [] then [] else [Lower(s[0])] + LowerAll(s[1..])
  }

  predicate OccursAt(needle: string, hay: string, i: nat) {
    i + |needle| <= |hay| && hay[i..i + |needle|] == needle
  }

  predicate IsSubstring(needle: string, hay: string) {
    exists i: nat :: i <= |hay| && OccursAt(needle, hay, i)
  }

  /** A case-insensitive `$regex` match of a literal pattern. */
  predicate ContainsIgnoreCase(hay: string, pattern: string): (b: bool)
    ensures b ==> |pattern| <= |hay|
  {
    IsSubstring(LowerAll(pattern), LowerAll(hay))
  }

  /** A match, spelled out one character at a time: from some position of `hay` on, every
      character of `pattern` occurs, each compared after case folding. */
  lemma ContainsIgnoreCaseMeaning(hay: string, pattern: string)
    ensures ContainsIgnoreCase(hay, pattern) <==>
      exists i :: 0 <= i && i + |pattern| <= |hay| &&
        forall k :: 0 <= k < |pattern| ==> Lower(hay[i..][k]) == Lower(pattern[k])
  {
    var lh, lp := LowerAll(hay), LowerAll(pattern);
    if ContainsIgnoreCase(hay, pattern) {
      var i: nat :| i <= |lh| && OccursAt(lp, lh, i);
      FoldedOccurrence(hay, pattern, i);
      assert i + |pattern| <= |hay|;
    }
    if exists i :: 0 <= i && i + |pattern| <= |hay| &&
        forall k :: 0 <= k < |pattern| ==> Lower(hay[i..][k]) == Lower(pattern[k])
    {
      var i :| 0 <= i && i + |pattern| <= |hay| &&
        forall k :: 0 <= k < |pattern| ==> Lower(hay[i..][k]) == Lower(pattern[k]);
      FoldedOccurrence(hay, pattern, i);
      var j: nat := i;
      assert j <= |lh| && OccursAt(lp, lh, j);
      assert IsSubstring(lp, lh);
    }
  }

  /** The folded pattern occurs at `i` exactly when it agrees with `hay` from `i` on,
      character by character after folding. */
  lemma FoldedOccurrence(hay: string, pattern: string, i: nat)
    requires i + |pattern| <= |hay|
    ensures OccursAt(LowerAll(pattern), LowerAll(hay), i) <==>
      forall k :: 0 <= k < |pattern| ==> Lower(hay[i..][k]) == Lower(pattern[k])
  {
    var lh, lp := LowerAll(hay), LowerAll(pattern);
    assert forall k :: 0 <= k < |pattern| ==> lh[i..i + |lp|][k] == Lower(hay[i..][k]);
  }

  /** The empty pattern matches every string. */
  lemma EmptyPatternMatches(hay: string)
    ensures ContainsIgnoreCase(hay, "")
  {
    assert OccursAt(LowerAll(""), LowerAll(hay), 0);
  }

  /** A pattern that occurs verbatim in `hay` matches. */
  lemma VerbatimOccurrenceMatches(hay: string, pattern: string, i: nat)
    requires OccursAt(pattern, hay, i)
    ensures ContainsIgnoreCase(hay, pattern)
  {
    var lh, lp := LowerAll(hay), LowerAll(pattern);
    forall k | 0 <= k < |lp| ensures lh[i..i + |lp|][k] == lp[k] {
      assert hay[i + k] == hay[i..i + |pattern|][k] == pattern[k];
    }
    assert OccursAt(lp, lh, i);
  }

  /** Case does not matter on either side: folding the pattern or the name first changes
      nothing. */
  lemma CaseIgnored(hay: string, pattern: string)
    ensures ContainsIgnoreCase(LowerAll(hay), pattern) == ContainsIgnoreCase(hay, pattern)
    ensures ContainsIgnoreCase(hay, LowerAll(pattern)) == ContainsIgnoreCase(hay, pattern)
  {
    LowerAllIdempotent(hay);
    LowerAllIdempotent(pattern);
  }

  lemma LowerAllIdempotent(s: string)
    ensures LowerAll(LowerAll(s)) == LowerAll(s)
  {
    var l := LowerAll(s);
    assert forall k :: 0 <= k < |s| ==> Lower(l[k]) == l[k];
  }
}
