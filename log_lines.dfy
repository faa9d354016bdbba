/** A log file read in text mode, seen as the lines that `for line in f` yields:
    every line keeps its '\n', only the last one may lack it. A file position
    is the number of characters before it. */
module LogLines {

  /** Length of the first line of `s`, its '\n' included when it has one. */
  function FirstLineLength(s: string): (n: nat)
    requires s != []
    ensures 0 < n <= |s|
    ensures forall j :: 0 <= j < n - 1 ==> s[j] != '\n'
    ensures n < |s| ==> s[n - 1] == '\n'
    decreases |s|
  {
    if s[0] == '\n' || |s| == 1 then 1 else 1 + FirstLineLength(s[1..])
  }

  /** The lines of `s`, in order, each with its terminator. */
  function Lines(s: string): seq<string>
    decreases |s|
  {
    if s == [] then []
    else
      var n := FirstLineLength(s);
      [s[..n]] + Lines(s[n..])
  }

  /** The text made of `ls` one after the other. */
  function Concat(ls: seq<string>): string {
    if ls == [] then [] else ls[0] + Concat(ls[1..])
  }

  /** A line: not empty, and a '\n' can only be its last character. */
  predicate IsLine(l: string) {
    l != [] && forall j :: 0 <= j < |l| - 1 ==> l[j] != '\n'
  }

  predicate Terminated(l: string) {
    l != [] && l[|l| - 1] == '\n'
  }

  /** What a line iteration can yield: lines, all terminated but perhaps the last. */
  predicate WellFormed(ls: seq<string>) {
    && (forall k :: 0 <= k < |ls| ==> IsLine(ls[k]))
    && (forall k :: 0 <= k < |ls| - 1 ==> Terminated(ls[k]))
  }

  lemma {:induction false} ConcatAppend(a: seq<string>, b: seq<string>)
    ensures Concat(a + b) == Concat(a) + Concat(b)
    decreases |a|
  {
    if a != [] {
      assert (a + b)[0] == a[0] && (a + b)[1..] == a[1..] + b;
      ConcatAppend(a[1..], b);
      calc {
        Concat(a + b);
        a[0] + Concat(a[1..] + b);
        a[0] + (Concat(a[1..]) + Concat(b));
        (a[0] + Concat(a[1..])) + Concat(b);
      }
    } else {
      assert a + b == b;
    }
  }

  /** Reading the lines back to back gives the whole text. */
  lemma {:induction false} ConcatLines(s: string)
    ensures Concat(Lines(s)) == s
    decreases |s|
  {
    if s != [] {
      var n := FirstLineLength(s);
      ConcatLines(s[n..]);
      assert s[..n] + s[n..] == s;
    }
  }

  /** The line iteration only ever yields well-formed line sequences. */
  lemma {:induction false} LinesWellFormed(s: string)
    ensures WellFormed(Lines(s))
    decreases |s|
  {
    if s != [] {
      var n := FirstLineLength(s);
      LinesWellFormed(s[n..]);
      var ls := Lines(s);
      assert ls == [s[..n]] + Lines(s[n..]);
      if |ls| > 1 {
        assert s[n..] != [];
        assert Terminated(ls[0]);
      }
    }
  }

  /** Conversely, a well-formed line sequence is exactly what iterating its text yields. */
  lemma {:induction false} LinesConcat(ls: seq<string>)
    requires WellFormed(ls)
    ensures Lines(Concat(ls)) == ls
    decreases |ls|
  {
    if ls != [] {
      var l := ls[0];
      var s := Concat(ls);
      assert s == l + Concat(ls[1..]);
      assert WellFormed(ls[1..]) by {
        forall k | 0 <= k < |ls[1..]| ensures IsLine(ls[1..][k]) { assert ls[1..][k] == ls[k + 1]; }
        forall k | 0 <= k < |ls[1..]| - 1 ensures Terminated(ls[1..][k]) { assert ls[1..][k] == ls[k + 1]; }
      }
      LinesConcat(ls[1..]);
      FirstLineOfConcat(ls);
      assert s[..|l|] == l;
      assert s[|l|..] == Concat(ls[1..]);
    }
  }

  lemma FirstLineOfConcat(ls: seq<string>)
    requires WellFormed(ls) && ls != []
    ensures Concat(ls) != [] && FirstLineLength(Concat(ls)) == |ls[0]|
  {
    var l := ls[0];
    var s := Concat(ls);
    assert IsLine(l);
    assert s == l + Concat(ls[1..]);
    assert |ls| > 1 ==> Terminated(l);
    assert s[..|l|] == l;
  }

  /** The lines after the first `k` start exactly where those `k` lines end. */
  lemma LinesAfterPrefix(ls: seq<string>, k: nat)
    requires WellFormed(ls) && k <= |ls|
    ensures |Concat(ls[..k])| <= |Concat(ls)|
    ensures Lines(Concat(ls)[|Concat(ls[..k])|..]) == ls[k..]
  {
    assert ls == ls[..k] + ls[k..];
    ConcatAppend(ls[..k], ls[k..]);
    assert Concat(ls)[|Concat(ls[..k])|..] == Concat(ls[k..]);
    assert WellFormed(ls[k..]) by {
      forall j | 0 <= j < |ls[k..]| ensures IsLine(ls[k..][j]) { assert ls[k..][j] == ls[k + j]; }
      forall j | 0 <= j < |ls[k..]| - 1 ensures Terminated(ls[k..][j]) { assert ls[k..][j] == ls[k + j]; }
    }
    LinesConcat(ls[k..]);
  }

  /** Appending to a text that ends at a line boundary only adds lines at the end. */
  lemma LinesAppend(a: string, b: string)
    requires a == [] || a[|a| - 1] == '\n'
    ensures Lines(a + b) == Lines(a) + Lines(b)
  {
    var la, lb := Lines(a), Lines(b);
    LinesWellFormed(a);
    LinesWellFormed(b);
    ConcatLines(a);
    ConcatLines(b);
    ConcatAppend(la, lb);
    if la != [] {
      LastLineOfText(a);
    }
    WellFormedAppend(la, lb);
    LinesConcat(la + lb);
  }

  lemma WellFormedAppend(la: seq<string>, lb: seq<string>)
    requires WellFormed(la) && WellFormed(lb)
    requires la != [] ==> Terminated(la[|la| - 1])
    ensures WellFormed(la + lb)
  {
    forall k | 0 <= k < |la + lb| ensures IsLine((la + lb)[k]) {
      if k < |la| { assert (la + lb)[k] == la[k]; } else { assert (la + lb)[k] == lb[k - |la|]; }
    }
    forall k | 0 <= k < |la + lb| - 1 ensures Terminated((la + lb)[k]) {
      if k < |la| { assert (la + lb)[k] == la[k]; } else { assert (la + lb)[k] == lb[k - |la|]; }
    }
  }

  /** The last line of a text ends with the text's last character. */
  lemma {:induction false} LastLineOfText(s: string)
    requires s != []
    ensures var ls := Lines(s); ls != [] && ls[|ls| - 1] != [] && ls[|ls| - 1][|ls[|ls| - 1]| - 1] == s[|s| - 1]
    decreases |s|
  {
    var n := FirstLineLength(s);
    if n < |s| {
      LastLineOfText(s[n..]);
    }
  }
}
