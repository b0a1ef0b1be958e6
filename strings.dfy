/** `String.prototype.trim` and `Array.prototype.join` over strings, the two
    string operations the response extraction is built from. */
module Strings {

  /** The code points ECMAScript's `trim` strips: WhiteSpace (tab, vertical
      tab, form feed, space, no-break space, byte order mark and the other
      space separators) and LineTerminator (line feed, carriage return, line
      and paragraph separators). Apart from `TrimExample`, the lemmas below
      do not depend on which characters are in this set. */
  predicate IsWhitespace(c: char) {
    || c == '\t' || c == '\n' || c == '\U{000B}' || c == '\U{000C}' || c == '\r'
    || c == ' ' || c == '\U{00A0}' || c == '\U{1680}'
    || ('\U{2000}' <= c <= '\U{200A}')
    || c == '\U{2028}' || c == '\U{2029}' || c == '\U{202F}' || c == '\U{205F}'
    || c == '\U{3000}' || c == '\U{FEFF}'
  }

  /** Every character is whitespace (so `s.trim()` is the falsy `""`). */
  predicate IsBlank(s: string) {
    forall i :: 0 <= i < |s| ==> IsWhitespace(s[i])
  }

  /** Neither end is whitespace: the shape of every result of `trim`. */
  predicate IsTrimmed(s: string) {
    s == [] || (!IsWhitespace(s[0]) && !IsWhitespace(s[|s| - 1]))
  }

  /** The length of the longest whitespace prefix. */
  function LeadingSpace(s: string): (n: nat)
    ensures n <= |s|
    ensures forall i :: 0 <= i < n ==> IsWhitespace(s[i])
    ensures n < |s| ==> !IsWhitespace(s[n])
  {
    if s != [] && IsWhitespace(s[0]) then 1 + LeadingSpace(s[1..]) else 0
  }

  /** The length of the longest whitespace suffix. */
  function TrailingSpace(s: string): (n: nat)
    ensures n <= |s|
    ensures forall i :: |s| - n <= i < |s| ==> IsWhitespace(s[i])
    ensures n < |s| ==> !IsWhitespace(s[|s| - 1 - n])
  {
    if s != [] && IsWhitespace(s[|s| - 1]) then 1 + TrailingSpace(s[..|s| - 1]) else 0
  }

  /** `s.trim()`: the slice of `s` left after removing the leading and the
      trailing whitespace. */
  function Trim(s: string): (r: string)
    ensures IsTrimmed(r)
    ensures r == [] <==> IsBlank(s)
    ensures LeadingSpace(s) + |r| <= |s| && r == s[LeadingSpace(s)..LeadingSpace(s) + |r|]
    ensures forall i :: LeadingSpace(s) + |r| <= i < |s| ==> IsWhitespace(s[i])
  {
    var t := s[LeadingSpace(s)..];
    t[..|t| - TrailingSpace(t)]
  }

  /** `trim` leaves a string unchanged exactly when it has no whitespace at either end. */
  lemma TrimFixesExactlyTrimmed(s: string)
    ensures Trim(s) == s <==> IsTrimmed(s)
  {
  }

  /** `trim` strips exactly the whitespace ends: a string made of `a`
      whitespace characters, a core that neither starts nor ends with
      whitespace, and `b` whitespace characters trims to that core. */
  lemma TrimStripsPadding(s: string, a: nat, b: nat)
    requires a + b < |s|
    requires forall i :: 0 <= i < a ==> IsWhitespace(s[i])
    requires forall i :: |s| - b <= i < |s| ==> IsWhitespace(s[i])
    requires !IsWhitespace(s[a]) && !IsWhitespace(s[|s| - 1 - b])
    ensures Trim(s) == s[a..|s| - b]
  {
    assert LeadingSpace(s) == a;
    var t := s[a..];
    assert TrailingSpace(t) == b by {
      assert t[|t| - 1 - b] == s[|s| - 1 - b];
      assert forall i :: |t| - b <= i < |t| ==> t[i] == s[a + i];
    }
  }

  lemma TrimIdempotent(s: string)
    ensures Trim(Trim(s)) == Trim(s)
  {
    TrimFixesExactlyTrimmed(Trim(s));
  }

  /** `parts.join(sep)`: the parts in order with `sep` between neighbours. */
  function Join(parts: seq<string>, sep: string): string {
    if |parts| == 0 then []
    else if |parts| == 1 then parts[0]
    else Join(parts[..|parts| - 1], sep) + sep + parts[|parts| - 1]
  }

  /** Joining non-empty parts starts with the first part's first character
      and ends with the last part's last character, whatever the separator. */
  lemma {:induction false} JoinEnds(parts: seq<string>, sep: string)
    requires |parts| > 0
    requires forall i :: 0 <= i < |parts| ==> parts[i] != []
    ensures |Join(parts, sep)| > 0
    ensures Join(parts, sep)[0] == parts[0][0]
    ensures Join(parts, sep)[|Join(parts, sep)| - 1] == parts[|parts| - 1][|parts[|parts| - 1]| - 1]
  {
    if |parts| > 1 {
      var init := parts[..|parts| - 1];
      JoinEnds(init, sep);
      assert init[0] == parts[0];
    }
  }

  /** Non-blank trimmed parts join into a trimmed string, empty exactly when
      there are no parts, so a `trim` of the joined string changes nothing. */
  lemma JoinOfTrimmedIsTrimmed(parts: seq<string>, sep: string)
    requires forall i :: 0 <= i < |parts| ==> parts[i] != [] && IsTrimmed(parts[i])
    ensures Trim(Join(parts, sep)) == Join(parts, sep)
    ensures Join(parts, sep) == [] <==> parts == []
  {
    if parts != [] {
      JoinEnds(parts, sep);
    }
    TrimFixesExactlyTrimmed(Join(parts, sep));
  }

  /** Padding on both ends is removed, the word inside is kept. */
  lemma TrimExample()
    ensures Trim("  hello  ") == "hello"
  {
    TrimStripsPadding("  hello  ", 2, 2);
    assert "  hello  "[2..7] == "hello";
  }
}
