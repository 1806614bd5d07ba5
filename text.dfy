/** The string operations the column handling relies on: ASCII lower-casing,
    whitespace stripping and substring containment. */
module Text {

  /** A character counted as whitespace when headers are stripped: the ASCII
      characters tab, line feed, vertical tab, form feed, carriage return, the
      four information separators (28..31) and space. */
  predicate IsSpace(c: char) {
    9 <= c as int <= 13 || 28 <= c as int <= 32
  }

  predicate AllSpace(s: string) {
    forall k :: 0 <= k < |s| ==> IsSpace(s[k])
  }

  predicate IsUpper(c: char) {
    'A' <= c <= 'Z'
  }

  function LowerChar(c: char): (l: char)
    ensures !IsUpper(l)
    ensures IsUpper(c) ==> l as int == c as int + 32
    ensures !IsUpper(c) ==> l == c
  {
    if IsUpper(c) then (c as int + 32) as char else c
  }

  /** ASCII lower-casing: every upper-case letter becomes its lower-case
      letter, every other character is kept. */
  function Lower(s: string): (r: string)
    ensures |r| == |s|
    ensures forall i :: 0 <= i < |s| ==> r[i] == LowerChar(s[i])
  {
    seq(|s|, i requires 0 <= i < |s| => LowerChar(s[i]))
  }

  /** A header lower-cases to the one-letter string `[c]` (c a lower-case
      letter) exactly when it is `[c]` or its upper-case form. */
  lemma LowerIsLetter(h: string, c: char)
    requires 'a' <= c <= 'z'
    ensures Lower(h) == [c] <==> h == [c] || h == [(c as int - 32) as char]
  {
    if Lower(h) == [c] {
      assert |h| == 1 && LowerChar(h[0]) == c;
    }
  }

  /** Number of whitespace characters at the start of `s`. */
  function LeadingSpaces(s: string): (n: nat)
    ensures n <= |s|
    ensures forall k :: 0 <= k < n ==> IsSpace(s[k])
    ensures n < |s| ==> !IsSpace(s[n])
  {
    if |s| == 0 || !IsSpace(s[0]) then 0 else 1 + LeadingSpaces(s[1..])
  }

  /** Number of whitespace characters at the end of `s`. */
  function TrailingSpaces(s: string): (n: nat)
    ensures n <= |s|
    ensures forall k :: |s| - n <= k < |s| ==> IsSpace(s[k])
    ensures n < |s| ==> !IsSpace(s[|s| - 1 - n])
  {
    if |s| == 0 || !IsSpace(s[|s| - 1]) then 0 else 1 + TrailingSpaces(s[..|s| - 1])
  }

  /** Removes leading and trailing whitespace: the result is the part of `s`
      between a whitespace-only prefix and a whitespace-only suffix, and it
      neither starts nor ends with whitespace. */
  function Strip(s: string): (r: string)
    ensures |r| <= |s|
    ensures r == [] || (!IsSpace(r[0]) && !IsSpace(r[|r| - 1]))
    ensures exists i :: 0 <= i <= |s| - |r| && r == s[i..i + |r|] && AllSpace(s[..i]) && AllSpace(s[i + |r|..])
  {
    var i := LeadingSpaces(s);
    if i == |s| then
      assert s[..i] == s && s[i + 0..] == [];
      []
    else
      var j := |s| - TrailingSpaces(s);
      assert s[i..j] == s[i..i + (j - i)];
      s[i..j]
  }

  /** Stripping twice is stripping once. */
  lemma StripIdempotent(s: string)
    ensures Strip(Strip(s)) == Strip(s)
  {
    var r := Strip(s);
    if r != [] {
      assert LeadingSpaces(r) == 0;
      assert TrailingSpaces(r) == 0;
      assert r[0..|r| - 0] == r;
    }
  }

  /** A header padded with whitespace on both sides strips to its core,
      provided the core neither starts nor ends with whitespace. */
  lemma StripPadded(pre: string, core: string, post: string)
    requires AllSpace(pre) && AllSpace(post)
    requires core != [] && !IsSpace(core[0]) && !IsSpace(core[|core| - 1])
    ensures Strip(pre + core + post) == core
  {
    var s := pre + core + post;
    assert s[|pre|] == core[0];
    assert s[|s| - 1 - |post|] == core[|core| - 1];
    assert LeadingSpaces(s) == |pre|;
    assert TrailingSpaces(s) == |post|;
    assert s[|pre|..|s| - |post|] == core;
  }

  /** `sub` occurs in `s` starting at position `i`. */
  predicate OccursAt(s: string, sub: string, i: int) {
    0 <= i <= |s| - |sub| && s[i..i + |sub|] == sub
  }

  /** An occurrence of `sub` in `s` is either at the front or an occurrence
      in `s[1..]` moved one place right. */
  lemma OccursShift(s: string, sub: string)
    ensures (exists i :: OccursAt(s, sub, i)) <==>
      |sub| <= |s| && (s[..|sub|] == sub || (|s| > 0 && exists i :: OccursAt(s[1..], sub, i)))
  {
    if |s| > 0 && exists i :: OccursAt(s[1..], sub, i) {
      var i :| OccursAt(s[1..], sub, i);
      assert s[i + 1..i + 1 + |sub|] == sub;
      assert OccursAt(s, sub, i + 1);
    }
    if |sub| <= |s| && s[..|sub|] == sub {
      assert OccursAt(s, sub, 0);
    }
    if exists i :: OccursAt(s, sub, i) {
      var i :| OccursAt(s, sub, i);
      if i > 0 {
        assert s[1..][i - 1..i - 1 + |sub|] == sub;
        assert OccursAt(s[1..], sub, i - 1);
      }
    }
  }

  /** Whether `sub` occurs in `s` as a contiguous substring (Python's `in`
      on strings): it holds exactly when some window of `s` equals `sub`. */
  function Contains(s: string, sub: string): (r: bool)
    ensures r <==> exists i :: OccursAt(s, sub, i)
    decreases |s|
  {
    OccursShift(s, sub);
    |sub| <= |s| && (s[..|sub|] == sub || Contains(s[1..], sub))
  }

  /** Splits `s` at every occurrence of the non-empty separator `sep`,
      scanning left to right; `cur` is the piece collected so far. */
  function SplitFrom(s: string, sep: string, cur: string): seq<string>
    requires |sep| > 0
    decreases |s|
  {
    if |s| == 0 then [cur]
    else if |sep| <= |s| && s[..|sep|] == sep then [cur] + SplitFrom(s[|sep|..], sep, [])
    else SplitFrom(s[1..], sep, cur + [s[0]])
  }

  function Split(s: string, sep: string): seq<string>
    requires |sep| > 0
  {
    SplitFrom(s, sep, [])
  }

  /** A piece that does not contain the separator's first character is
      collected whole by the scan. */
  lemma {:induction false} SplitFromPiece(p: string, rest: string, sep: string, cur: string)
    requires |sep| > 0
    ensures sep[0] !in p ==> SplitFrom(p + rest, sep, cur) == SplitFrom(rest, sep, cur + p)
    decreases |p|
  {
    if sep[0] !in p && |p| > 0 {
      assert (p + rest)[0] == p[0] != sep[0];
      assert (p + rest)[1..] == p[1..] + rest;
      SplitFromPiece(p[1..], rest, sep, cur + [p[0]]);
      assert cur + [p[0]] + p[1..] == cur + p;
    } else if |p| == 0 {
      assert p + rest == rest && cur + p == cur;
    }
  }

  /** Joins the strings of `parts` with `sep` between consecutive parts
      (Python's `sep.join(parts)`). Splitting the result at `sep` gives the
      parts back when none of them contains the separator's first
      character. */
  function Join(parts: seq<string>, sep: string): (r: string)
    ensures |parts| > 0 && |sep| > 0 && (forall i :: 0 <= i < |parts| ==> sep[0] !in parts[i]) ==>
      Split(r, sep) == parts
  {
    if |parts| == 0 then []
    else if |parts| == 1 then
      if |sep| > 0 then
        SplitFromPiece(parts[0], [], sep, []);
        assert parts[0] + [] == parts[0] && [] + parts[0] == parts[0];
        assert parts == [parts[0]];
        parts[0]
      else parts[0]
    else
      var rest := Join(parts[1..], sep);
      if |sep| > 0 then
        SplitFromPiece(parts[0], sep + rest, sep, []);
        assert (sep + rest)[..|sep|] == sep && (sep + rest)[|sep|..] == rest;
        assert parts[0] + sep + rest == parts[0] + (sep + rest);
        assert parts == [parts[0]] + parts[1..];
        assert [] + parts[0] == parts[0];
        assert SplitFrom(sep + rest, sep, parts[0]) == [parts[0]] + Split(rest, sep);
        assert (forall i :: 0 <= i < |parts| ==> sep[0] !in parts[i]) ==>
          (forall i :: 0 <= i < |parts[1..]| ==> sep[0] !in parts[1..][i]);
        parts[0] + sep + rest
      else parts[0] + sep + rest
  }

}
