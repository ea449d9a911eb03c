/** The pieces of Rust's string library that the crate relies on: case mapping
    (restricted to ASCII letters), `char::is_whitespace` and `str::trim`,
    `str::replace` of one character, and `str::split` on one character. */
module Strings {

  /** Every character is ASCII, where Rust's case mapping and this one agree. */
  predicate IsAscii(s: string) {
    forall i :: 0 <= i < |s| ==> s[i] < 128 as char
  }

  /// Case mapping of one character; letters outside ASCII are left unchanged.
  function LowerChar(c: char): (l: char) {
    if 'A' <= c <= 'Z' then (c as int + 32) as char else c
  }

  function UpperChar(c: char): (u: char) {
    if 'a' <= c <= 'z' then (c as int - 32) as char else c
  }

  /** `str::to_lowercase`, character by character. */
  function Lower(s: string): (r: string)
    ensures |r| == |s|
    ensures forall i :: 0 <= i < |s| ==> r[i] == LowerChar(s[i])
  {
    seq(|s|, i requires 0 <= i < |s| => LowerChar(s[i]))
  }

  /** `str::to_uppercase`, character by character. */
  function Upper(s: string): (r: string)
    ensures |r| == |s|
    ensures forall i :: 0 <= i < |s| ==> r[i] == UpperChar(s[i])
  {
    seq(|s|, i requires 0 <= i < |s| => UpperChar(s[i]))
  }

  /** Lower-casing forgets any earlier upper-casing. */
  lemma LowerOfUpper(s: string)
    ensures Lower(Upper(s)) == Lower(s)
  {
    assert forall i :: 0 <= i < |s| ==> LowerChar(UpperChar(s[i])) == LowerChar(s[i]);
  }

  /** `str::replace(from, to)` with a one-character pattern and replacement. */
  function Replace(s: string, from: char, to: char): (r: string)
    ensures |r| == |s|
    ensures forall i :: 0 <= i < |s| ==> r[i] == if s[i] == from then to else s[i]
  {
    seq(|s|, i requires 0 <= i < |s| => if s[i] == from then to else s[i])
  }

  /** `char::is_whitespace`: the characters with Unicode's White_Space property. */
  predicate IsWhitespace(c: char)
    ensures c < 128 as char ==> (IsWhitespace(c) <==> c == ' ' || '\t' <= c <= '\r')
  {
    var n := c as int;
    (0x09 <= n <= 0x0D) || n == 0x20 || n == 0x85 || n == 0xA0 || n == 0x1680
    || (0x2000 <= n <= 0x200A) || n == 0x2028 || n == 0x2029 || n == 0x202F
    || n == 0x205F || n == 0x3000
  }

  /** A string made of whitespace only (the empty string included). */
  predicate Blank(s: string) {
    forall i :: 0 <= i < |s| ==> IsWhitespace(s[i])
  }

  /** The end of the run of whitespace that starts at `i`. */
  function BlankRunEnd(s: string, i: nat): (k: nat)
    requires i <= |s|
    ensures i <= k <= |s|
    ensures forall j :: i <= j < k ==> IsWhitespace(s[j])
    ensures k < |s| ==> !IsWhitespace(s[k])
    decreases |s| - i
  {
    if i < |s| && IsWhitespace(s[i]) then BlankRunEnd(s, i + 1) else i
  }

  /** The start of the run of whitespace that ends at `j`. */
  function BlankRunStart(s: string, j: nat): (k: nat)
    requires j <= |s|
    ensures k <= j
    ensures forall i :: k <= i < j ==> IsWhitespace(s[i])
    ensures k > 0 ==> !IsWhitespace(s[k - 1])
  {
    if j > 0 && IsWhitespace(s[j - 1]) then BlankRunStart(s, j - 1) else j
  }

  /** `str::trim_start`: drops the leading whitespace and keeps the rest. */
  function TrimStart(s: string): (r: string)
    ensures |r| <= |s| && r == s[|s| - |r|..]
    ensures Blank(s[..|s| - |r|])
    ensures r != [] ==> !IsWhitespace(r[0])
  {
    s[BlankRunEnd(s, 0)..]
  }

  /** `str::trim_end`: drops the trailing whitespace and keeps the rest. */
  function TrimEnd(s: string): (r: string)
    ensures |r| <= |s| && r == s[..|r|]
    ensures Blank(s[|r|..])
    ensures r != [] ==> !IsWhitespace(r[|r| - 1])
  {
    s[..BlankRunStart(s, |s|)]
  }

  /** `str::trim`: both ends. */
  function Trim(s: string): (r: string)
    ensures var i := BlankRunEnd(s, 0);
      && i + |r| <= |s| && r == s[i..i + |r|]
      && Blank(s[..i]) && Blank(s[i + |r|..])
    ensures r != [] ==> !IsWhitespace(r[0]) && !IsWhitespace(r[|r| - 1])
  {
    TrimEnd(TrimStart(s))
  }

  /** Trimming leaves nothing exactly when the string is all whitespace. */
  lemma TrimEmptyIffBlank(s: string)
    ensures Trim(s) == [] <==> Blank(s)
  {
    var t := TrimStart(s);
    if Trim(s) == [] {
      // a non-empty `t` would start with a non-blank character that `TrimEnd` keeps
      assert t == [];
      assert s[..|s|] == s;
    }
  }

  /** `str::split(c)` collected: every segment between occurrences of `c`. */
  function Split(s: string, c: char): (parts: seq<string>)
    ensures |parts| >= 1
    ensures forall i :: 0 <= i < |parts| ==> c !in parts[i]
  {
    if s == [] then [[]]
    else
      var rest := Split(s[1..], c);
      if s[0] == c then [[]] + rest
      else [[s[0]] + rest[0]] + rest[1..]
  }

  /** The segments glued back together with `c` between them. */
  function Join(parts: seq<string>, c: char): (s: string)
    requires |parts| >= 1
  {
    if |parts| == 1 then parts[0] else parts[0] + [c] + Join(parts[1..], c)
  }

  /** Splitting loses nothing: joining the segments gives the input back. */
  lemma {:induction false} JoinSplit(s: string, c: char)
    ensures Join(Split(s, c), c) == s
  {
    if s != [] {
      var rest := Split(s[1..], c);
      JoinSplit(s[1..], c);
      if s[0] == c {
        assert Split(s, c)[1..] == rest;
      } else {
        var parts := Split(s, c);
        assert parts[1..] == rest[1..];
        if |rest| == 1 {
          assert parts == [[s[0]] + rest[0]];
        } else {
          assert rest[1..] == Split(s[1..], c)[1..];
        }
      }
    }
  }

  /** There is a second segment exactly when the separator occurs. */
  lemma {:induction false} SplitHasTwoSegments(s: string, c: char)
    ensures |Split(s, c)| >= 2 <==> c in s
  {
    if s != [] {
      SplitHasTwoSegments(s[1..], c);
      assert s == [s[0]] + s[1..];
    }
  }

  /** The first two segments and the separator between them form a prefix of `s`,
      followed either by the end of `s` or by another separator. */
  lemma SplitLeadingSegments(s: string, c: char)
    requires c in s
    ensures |Split(s, c)| >= 2
    ensures var parts := Split(s, c);
      var n := |parts[0]| + 1 + |parts[1]|;
      && n <= |s|
      && s[..n] == parts[0] + [c] + parts[1]
      && (n < |s| ==> s[n] == c)
  {
    var parts := Split(s, c);
    SplitHasTwoSegments(s, c);
    JoinSplit(s, c);
    var tail := Join(parts[1..], c);
    assert s == parts[0] + [c] + tail;
    if |parts| == 2 {
      assert tail == parts[1];
    } else {
      assert tail == parts[1] + [c] + Join(parts[2..], c) by {
        assert parts[1..][1..] == parts[2..];
      }
    }
  }
}
