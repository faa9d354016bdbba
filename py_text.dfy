/** The operations on Python `str` values that the watchdogs use: `isspace`,
    `strip`, `upper`, `lower`, the `in` substring test and `split` on one
    separator character. Case mapping is restricted to ASCII letters. */
module PyText {

  /** Python's `str.isspace()` on one character; `str.strip()` removes these
      characters and the regular-expression class `\s` matches them. */
  predicate IsSpace(c: char) {
    || c == ' '
    || '\t' <= c <= '\r'
    || '\U{1c}' <= c <= '\U{1f}'
    || c == '\U{85}' || c == '\U{a0}' || c == '\U{1680}'
    || '\U{2000}' <= c <= '\U{200a}'
    || c == '\U{2028}' || c == '\U{2029}'
    || c == '\U{202f}' || c == '\U{205f}' || c == '\U{3000}'
  }

  predicate AllSpace(s: string) {
    forall i :: 0 <= i < |s| ==> IsSpace(s[i])
  }

  /** `s.strip()`: the text between the leading and the trailing whitespace. */
  function Strip(s: string): (r: string)
    ensures |r| <= |s|
    ensures r == [] || (!IsSpace(r[0]) && !IsSpace(r[|r| - 1]))
    ensures r == [] <==> AllSpace(s)
    decreases |s|
  {
    if s == [] then s
    else if IsSpace(s[0]) then
      var r := Strip(s[1..]);
      assert AllSpace(s[1..]) ==> AllSpace(s) by {
        if AllSpace(s[1..]) {
          forall i | 0 < i < |s| ensures IsSpace(s[i]) { assert s[i] == s[1..][i - 1]; }
        }
      }
      r
    else if IsSpace(s[|s| - 1]) then Strip(s[..|s| - 1])
    else s
  }

  /** The ends of `s` are not whitespace (or `s` is empty). */
  predicate Trimmed(s: string) {
    s == [] || (!IsSpace(s[0]) && !IsSpace(s[|s| - 1]))
  }

  /** Stripping removes exactly the whitespace padding around a trimmed text. */
  lemma {:induction false} StripPadded(lead: string, core: string, trail: string)
    requires AllSpace(lead) && AllSpace(trail) && Trimmed(core)
    ensures Strip(lead + core + trail) == core
    decreases |lead| + |trail|
  {
    var s := lead + core + trail;
    if lead != [] {
      assert s[0] == lead[0];
      assert s[1..] == lead[1..] + core + trail;
      StripPadded(lead[1..], core, trail);
    } else if trail != [] {
      if core == [] {
        assert s == trail && s[1..] == [] + core + trail[1..];
        StripPadded([], core, trail[1..]);
      } else {
        assert s[0] == core[0] && s[|s| - 1] == trail[|trail| - 1];
        assert s[..|s| - 1] == [] + core + trail[..|trail| - 1];
        StripPadded([], core, trail[..|trail| - 1]);
      }
    } else {
      assert s == core;
    }
  }

  /** Every text is its stripped form padded with whitespace on both sides. */
  lemma {:induction false} StripParts(s: string) returns (lead: string, trail: string)
    ensures AllSpace(lead) && AllSpace(trail)
    ensures s == lead + Strip(s) + trail
    decreases |s|, 1
  {
    if s == [] {
      lead, trail := [], [];
    } else if IsSpace(s[0]) {
      lead, trail := StripPartsLeading(s);
    } else if IsSpace(s[|s| - 1]) {
      lead, trail := StripPartsTrailing(s);
    } else {
      lead, trail := [], [];
    }
  }

  lemma {:induction false} StripPartsLeading(s: string) returns (lead: string, trail: string)
    requires s != [] && IsSpace(s[0])
    ensures AllSpace(lead) && AllSpace(trail)
    ensures s == lead + Strip(s) + trail
    decreases |s|, 0
  {
    var rest;
    rest, trail := StripParts(s[1..]);
    lead := [s[0]] + rest;
    assert Strip(s) == Strip(s[1..]);
    calc {
      s;
      [s[0]] + s[1..];
      [s[0]] + (rest + Strip(s[1..]) + trail);
      lead + Strip(s) + trail;
    }
  }

  lemma {:induction false} StripPartsTrailing(s: string) returns (lead: string, trail: string)
    requires s != [] && !IsSpace(s[0]) && IsSpace(s[|s| - 1])
    ensures AllSpace(lead) && AllSpace(trail)
    ensures s == lead + Strip(s) + trail
    decreases |s|, 0
  {
    var front;
    lead, front := StripParts(s[..|s| - 1]);
    trail := front + [s[|s| - 1]];
    assert Strip(s) == Strip(s[..|s| - 1]);
    calc {
      s;
      s[..|s| - 1] + [s[|s| - 1]];
      (lead + Strip(s) + front) + [s[|s| - 1]];
      lead + Strip(s) + trail;
    }
  }

  function UpperChar(c: char): char {
    if 'a' <= c <= 'z' then (c as int - 32) as char else c
  }

  function LowerChar(c: char): char {
    if 'A' <= c <= 'Z' then (c as int + 32) as char else c
  }

  /** `s.upper()` for ASCII letters. */
  function Upper(s: string): (r: string)
    ensures |r| == |s| && forall i :: 0 <= i < |s| ==> r[i] == UpperChar(s[i])
  {
    seq(|s|, i requires 0 <= i < |s| => UpperChar(s[i]))
  }

  /** No ASCII lower-case letter occurs in `s`. */
  predicate NoLowerCase(s: string) {
    forall i :: 0 <= i < |s| ==> !('a' <= s[i] <= 'z')
  }

  lemma UpperHasNoLowerCase(s: string)
    ensures NoLowerCase(Upper(s))
  {
  }

  /** `s.lower()` for ASCII letters. */
  function Lower(s: string): (r: string)
    ensures |r| == |s| && forall i :: 0 <= i < |s| ==> r[i] == LowerChar(s[i])
  {
    seq(|s|, i requires 0 <= i < |s| => LowerChar(s[i]))
  }

  /** Python's `t in s` on strings: `t` occurs in `s` as a contiguous substring. */
  predicate IsSubstring(t: string, s: string) {
    exists i | 0 <= i <= |s| - |t| :: OccursAt(t, s, i)
  }

  /** `t` occurs in `s` starting at index `i`. */
  predicate OccursAt(t: string, s: string, i: int) {
    0 <= i <= |s| - |t| && s[i..i + |t|] == t
  }

  /** The character `c` does not occur in `s`. */
  predicate Lacks(s: string, c: char) {
    forall i :: 0 <= i < |s| ==> s[i] != c
  }

  /** `s.split(sep)` for a one-character separator: the pieces between
      separators, empty pieces included, so there is always at least one. */
  function Split(s: string, sep: char): (pieces: seq<string>)
    ensures |pieces| >= 1
    ensures forall k :: 0 <= k < |pieces| ==> Lacks(pieces[k], sep)
    decreases |s|
  {
    if s == [] then [[]]
    else
      var rest := Split(s[1..], sep);
      if s[0] == sep then [[]] + rest else [[s[0]] + rest[0]] + rest[1..]
  }

  /** `sep.join(pieces)` */
  function Join(pieces: seq<string>, sep: char): string {
    if pieces == [] then []
    else if |pieces| == 1 then pieces[0]
    else pieces[0] + [sep] + Join(pieces[1..], sep)
  }

  /** Splitting loses nothing: joining the pieces gives the text back. */
  lemma {:induction false} JoinSplit(s: string, sep: char)
    ensures Join(Split(s, sep), sep) == s
    decreases |s|
  {
    if s != [] {
      var rest := Split(s[1..], sep);
      JoinSplit(s[1..], sep);
      if s[0] != sep {
        if |rest| > 1 {
          assert [s[0]] + rest[0] + [sep] + Join(rest[1..], sep)
              == [s[0]] + (rest[0] + [sep] + Join(rest[1..], sep));
        }
      }
    }
  }

  /** And conversely: pieces free of the separator come back from splitting their join. */
  lemma {:induction false} SplitJoin(pieces: seq<string>, sep: char)
    requires |pieces| >= 1
    requires forall k :: 0 <= k < |pieces| ==> Lacks(pieces[k], sep)
    ensures Split(Join(pieces, sep), sep) == pieces
    decreases |pieces|, |pieces[0]|
  {
    var p := pieces[0];
    if p == [] {
      if |pieces| > 1 {
        SplitJoin(pieces[1..], sep);
        assert Join(pieces, sep) == [sep] + Join(pieces[1..], sep);
        assert Join(pieces, sep)[1..] == Join(pieces[1..], sep);
      }
    } else {
      var shorter := [p[1..]] + pieces[1..];
      SplitJoin(shorter, sep);
      assert shorter[1..] == pieces[1..];
      if |pieces| == 1 {
        assert Join(pieces, sep)[1..] == Join(shorter, sep);
      } else {
        assert Join(pieces, sep) == [p[0]] + (p[1..] + [sep] + Join(pieces[1..], sep));
        assert Join(pieces, sep)[1..] == Join(shorter, sep);
      }
      assert [p[0]] + p[1..] == p;
    }
  }
}
