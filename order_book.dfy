/** The order-book text processing of the spread watchdog: the rows of the
    `list` command's output are recognised line by line, the kept orders are
    split into bid and ask prices and sorted, and the spread is taken between
    the best bid and the best ask. Prices and amounts are exact reals. */
module OrderBook {
  import opened Wrappers
  import opened PyText

  // ---------------------------------------------------------------------
  // Runs of characters

  /** Every character of `s` satisfies `p`. */
  predicate AllOf(s: string, p: char -> bool) {
    forall i :: 0 <= i < |s| ==> p(s[i])
  }

  /** Length of the longest prefix of `s` whose characters satisfy `p`. */
  function RunLength(s: string, p: char -> bool): (n: nat)
    ensures n <= |s|
    ensures forall i :: 0 <= i < n ==> p(s[i])
    ensures n < |s| ==> !p(s[n])
  {
    if s == [] || !p(s[0]) then 0 else 1 + RunLength(s[1..], p)
  }

  /** Length of the longest suffix of `s` whose characters satisfy `p`. */
  function BackRunLength(s: string, p: char -> bool): (n: nat)
    ensures n <= |s|
    ensures forall i :: |s| - n <= i < |s| ==> p(s[i])
    ensures n < |s| ==> !p(s[|s| - n - 1])
  {
    if s == [] || !p(s[|s| - 1]) then 0 else 1 + BackRunLength(s[..|s| - 1], p)
  }

  /** A run stops exactly where the characters satisfying `p` stop. */
  lemma {:induction false} RunOfConcat(a: string, b: string, p: char -> bool)
    requires AllOf(a, p)
    requires b == [] || !p(b[0])
    ensures RunLength(a + b, p) == |a|
    decreases |a|
  {
    if a != [] {
      assert (a + b)[1..] == a[1..] + b;
      RunOfConcat(a[1..], b, p);
    }
  }

  /** A backward run stops exactly where the characters satisfying `p` stop. */
  lemma {:induction false} BackRunOfConcat(a: string, b: string, p: char -> bool)
    requires AllOf(b, p)
    requires a == [] || !p(a[|a| - 1])
    ensures BackRunLength(a + b, p) == |b|
    decreases |b|
  {
    if b != [] {
      assert (a + b)[..|a + b| - 1] == a + b[..|b| - 1];
      BackRunOfConcat(a, b[..|b| - 1], p);
    }
  }

  // ---------------------------------------------------------------------
  // str.splitlines()

  /** The characters `str.splitlines()` breaks at. */
  const LineBreaks: string := "\n\r\U{0b}\U{0c}\U{1c}\U{1d}\U{1e}\U{85}\U{2028}\U{2029}"

  /** `c` is one of the characters of `s`. */
  predicate Occurs(c: char, s: string) {
    s != [] && (s[0] == c || Occurs(c, s[1..]))
  }

  predicate IsLineBreak(c: char) {
    Occurs(c, LineBreaks)
  }

  predicate NotLineBreak(c: char) {
    !IsLineBreak(c)
  }

  /** Length of the line break that starts `s`: "\r\n" is a single break. */
  function BreakLength(s: string): (n: nat)
    requires s != [] && IsLineBreak(s[0])
    ensures 1 <= n <= |s|
  {
    if s[0] == '\r' && |s| > 1 && s[1] == '\n' then 2 else 1
  }

  /** `s.splitlines()`: the lines of `s` without their line breaks; a final
      line break does not start an empty line. */
  function SplitLines(s: string): seq<string>
    decreases |s|
  {
    if s == [] then []
    else
      var n := RunLength(s, NotLineBreak);
      if n == |s| then [s]
      else [s[..n]] + SplitLines(s[n + BreakLength(s[n..])..])
  }

  /** No line holds a line break. */
  lemma {:induction false} SplitLinesHaveNoBreaks(s: string)
    ensures forall k :: 0 <= k < |SplitLines(s)| ==> AllOf(SplitLines(s)[k], NotLineBreak)
    decreases |s|
  {
    if s != [] {
      var n := RunLength(s, NotLineBreak);
      if n < |s| {
        SplitLinesHaveNoBreaks(s[n + BreakLength(s[n..])..]);
      }
    }
  }

  /** A line ending `str.splitlines()` recognises: "\r\n", or any single
      line-break character ("\n", "\r", "\u2028", ...). */
  predicate IsLineEnding(t: string) {
    t == "\r\n" || (|t| == 1 && IsLineBreak(t[0]))
  }

  /** The text holding `lines`, each followed by `t`. */
  function JoinTerminated(lines: seq<string>, t: string): string {
    if lines == [] then [] else lines[0] + t + JoinTerminated(lines[1..], t)
  }

  /** Lines free of breaks, each ended by the same line ending, are split
      back into exactly those lines. */
  lemma {:induction false} SplitLinesTerminated(lines: seq<string>, t: string)
    requires IsLineEnding(t)
    requires forall k :: 0 <= k < |lines| ==> AllOf(lines[k], NotLineBreak)
    ensures SplitLines(JoinTerminated(lines, t)) == lines
    decreases |lines|
  {
    if lines != [] {
      var rest := JoinTerminated(lines[1..], t);
      assert JoinTerminated(lines, t) == lines[0] + (t + rest);
      TerminatedStart(lines[1..], t);
      BreakLengthOfEnding(t, rest);
      SplitLinesStep(lines[0], t, rest);
      SplitLinesTerminated(lines[1..], t);
      assert [lines[0]] + lines[1..] == lines;
    }
  }

  /** A text of "\r"-ended lines never starts with '\n'. */
  lemma TerminatedStart(lines: seq<string>, t: string)
    requires forall k :: 0 <= k < |lines| ==> AllOf(lines[k], NotLineBreak)
    ensures t == "\r" && JoinTerminated(lines, t) != [] ==> JoinTerminated(lines, t)[0] != '\n'
  {
    if t == "\r" && lines != [] {
      assert JoinTerminated(lines, t) == lines[0] + (t + JoinTerminated(lines[1..], t));
      assert lines[0] == [] || NotLineBreak(lines[0][0]);
      NoNewlineAfterReturn(lines[0], JoinTerminated(lines[1..], t));
    }
  }

  lemma EndingsAreBreaks()
    ensures IsLineBreak('\n') && IsLineBreak('\r')
  {
    assert LineBreaks[0] == '\n' && LineBreaks[1..][0] == '\r';
  }

  /** A line ended by "\r" never starts with '\n', so no "\r\n" forms. */
  lemma NoNewlineAfterReturn(line: string, more: string)
    requires line == [] || NotLineBreak(line[0])
    ensures (line + ("\r" + more))[0] != '\n'
  {
    EndingsAreBreaks();
    if line != [] {
      assert (line + ("\r" + more))[0] == line[0];
    }
  }

  /** A line and its ending are split off the front of the text. */
  lemma SplitLinesStep(line: string, t: string, rest: string)
    requires AllOf(line, NotLineBreak)
    requires t != [] && IsLineBreak(t[0]) && BreakLength(t + rest) == |t|
    ensures SplitLines(line + (t + rest)) == [line] + SplitLines(rest)
  {
    var s := line + (t + rest);
    var n := |line|;
    assert (t + rest)[0] == t[0];
    RunOfConcat(line, t + rest, NotLineBreak);
    assert s[n..] == t + rest;
    var after := s[n + BreakLength(s[n..])..];
    assert after == rest;
    assert s[..n] == line;
    assert SplitLines(s) == [s[..n]] + SplitLines(after);
  }

  lemma BreakLengthOfEnding(t: string, rest: string)
    requires IsLineEnding(t)
    requires t == "\r" && rest != [] ==> rest[0] != '\n'
    ensures t != [] && IsLineBreak(t[0]) && BreakLength(t + rest) == |t|
  {
    EndingsAreBreaks();
    if |t| == 1 && t[0] == '\r' {
      assert t == "\r";
      if rest != [] {
        assert (t + rest)[1] == rest[0];
      }
    }
  }

  // ---------------------------------------------------------------------
  // The row pattern
  //
  //   ^\s*(\d+)\s+([A-Z ]+?)\s+(BUY|SELL)\s+([0-9]+(?:\.[0-9]+)?)\s+([0-9]+(?:\.[0-9]+)?)\s+\d{4}-\d{2}-\d{2}\s
  //
  // matched case-insensitively at the start of a line. A match is described
  // by the pieces it cuts the line into (RowParts); the recogniser SplitRow
  // finds such a cut whenever one exists, and every cut agrees on the side,
  // the amount and the price.

  predicate IsDigit(c: char) {
    '0' <= c <= '9'
  }

  predicate IsLetter(c: char) {
    'A' <= c <= 'Z' || 'a' <= c <= 'z'
  }

  /** `[A-Z ]` under case-insensitive matching. */
  predicate IsKindChar(c: char) {
    IsLetter(c) || c == ' '
  }

  /** A character of the part between the id and the amount. */
  predicate IsWordChar(c: char) {
    IsLetter(c) || IsSpace(c)
  }

  predicate NotSpace(c: char) {
    !IsSpace(c)
  }

  /** `\s+` */
  predicate IsGap(s: string) {
    s != [] && AllOf(s, IsSpace)
  }

  /** `\d+` and `[0-9]+` */
  predicate IsNumber(s: string) {
    s != [] && AllOf(s, IsDigit)
  }

  /** `[A-Z ]+` under case-insensitive matching. */
  predicate IsKind(s: string) {
    s != [] && AllOf(s, IsKindChar)
  }

  /** `BUY|SELL` under case-insensitive matching. */
  predicate IsSide(s: string) {
    Upper(s) == "BUY" || Upper(s) == "SELL"
  }

  /** `[0-9]+(?:\.[0-9]+)?` matching all of `s`: digits, then optionally a
      point and more digits. */
  predicate IsDecimal(s: string) {
    var n := RunLength(s, IsDigit);
    0 < n && (n == |s| || (s[n] == '.' && IsNumber(s[n + 1..])))
  }

  /** `\d{4}-\d{2}-\d{2}` */
  predicate IsDate(s: string) {
    && |s| == 10 && s[4] == '-' && s[7] == '-'
    && forall i :: 0 <= i < 10 && i != 4 && i != 7 ==> IsDigit(s[i])
  }

  /** `\s+([A-Z ]+?)\s+(BUY|SELL)\s+`: the words between the id and the amount. */
  datatype WordsParts = WordsParts(gap1: string, kind: string, gap2: string, side: string, gap3: string)

  /** `([0-9.]+)\s+([0-9.]+)\s+\d{4}-\d{2}-\d{2}\s` and whatever follows. */
  datatype TailParts = TailParts(amount: string, gap4: string, price: string, gap5: string,
                                 date: string, sep: char, rest: string)

  /** `\s*(\d+)`, the words and the tail. */
  datatype RowParts = RowParts(lead: string, id: string, words: WordsParts, tail: TailParts)

  predicate WordsShape(w: WordsParts) {
    IsGap(w.gap1) && IsKind(w.kind) && IsGap(w.gap2) && IsSide(w.side) && IsGap(w.gap3)
  }

  predicate TailShape(t: TailParts) {
    && IsDecimal(t.amount) && IsGap(t.gap4) && IsDecimal(t.price) && IsGap(t.gap5)
    && IsDate(t.date) && IsSpace(t.sep)
  }

  predicate RowShape(p: RowParts) {
    AllOf(p.lead, IsSpace) && IsNumber(p.id) && WordsShape(p.words) && TailShape(p.tail)
  }

  function HeadText(w: WordsParts): string {
    w.gap1 + (w.kind + w.gap2)
  }

  function WordsText(w: WordsParts): string {
    HeadText(w) + w.side + w.gap3
  }

  function TailText(t: TailParts): string {
    t.amount + (t.gap4 + (t.price + (t.gap5 + (t.date + ([t.sep] + t.rest)))))
  }

  function RowText(p: RowParts): string {
    p.lead + (p.id + (WordsText(p.words) + TailText(p.tail)))
  }

  /** The line matches the row pattern: some cut of it has the row's shape. */
  ghost predicate RowMatches(line: string) {
    exists p :: RowShape(p) && RowText(p) == line
  }

  /** The first blank at index `i` or later that is neither the first nor the
      last character of `h`. */
  function InnerBlank(h: string, i: nat): (k: Option<nat>)
    requires 1 <= i
    ensures k.Some? ==> i <= k.value < |h| - 1 && h[k.value] == ' '
    ensures k.None? ==> forall j :: i <= j < |h| - 1 ==> h[j] != ' '
    decreases |h| - i
  {
    if i >= |h| - 1 then None else if h[i] == ' ' then Some(i) else InnerBlank(h, i + 1)
  }

  /** A cut of `h` as `\s+[A-Z ]+?\s+` when there is one: the type words
      run from the first to the last character that is not whitespace, or,
      when `h` is all whitespace, are one inner blank. */
  function SplitHead(h: string): (r: Option<(string, string, string)>)
    ensures r.Some? ==> IsGap(r.value.0) && IsKind(r.value.1) && IsGap(r.value.2)
    ensures r.Some? ==> r.value.0 + (r.value.1 + r.value.2) == h
  {
    var lead := RunLength(h, IsSpace);
    if lead == 0 then None
    else if lead == |h| then SplitBlankHead(h)
    else SplitTrimmedHead(h, lead)
  }

  /** The cut of an all-whitespace `h`: the type words are its first inner
      blank. */
  function SplitBlankHead(h: string): (r: Option<(string, string, string)>)
    requires AllOf(h, IsSpace)
    ensures r.Some? ==> IsGap(r.value.0) && IsKind(r.value.1) && IsGap(r.value.2)
    ensures r.Some? ==> r.value.0 + (r.value.1 + r.value.2) == h
  {
    match InnerBlank(h, 1)
    case None => None
    case Some(k) =>
      assert h == h[..k] + (h[k..k + 1] + h[k + 1..]);
      Some((h[..k], h[k..k + 1], h[k + 1..]))
  }

  /** The cut of `h` whose first `lead` characters, and no more, are
      whitespace: the type words are what lies between the leading and the
      trailing whitespace. */
  function SplitTrimmedHead(h: string, lead: nat): (r: Option<(string, string, string)>)
    requires 0 < lead < |h| && AllOf(h[..lead], IsSpace) && !IsSpace(h[lead])
    ensures r.Some? ==> IsGap(r.value.0) && IsKind(r.value.1) && IsGap(r.value.2)
    ensures r.Some? ==> r.value.0 + (r.value.1 + r.value.2) == h
  {
    var trail := BackRunLength(h, IsSpace);
    assert lead < |h| - trail;
    if trail == 0 || !AllOf(h[lead..|h| - trail], IsKindChar) then None
    else
      assert h == h[..lead] + (h[lead..|h| - trail] + h[|h| - trail..]);
      Some((h[..lead], h[lead..|h| - trail], h[|h| - trail..]))
  }

  /** Whenever `h` can be cut as `\s+[A-Z ]+?\s+`, SplitHead finds a cut. */
  lemma SplitHeadComplete(a: string, k: string, b: string)
    requires IsGap(a) && IsKind(k) && IsGap(b)
    ensures SplitHead(a + (k + b)).Some?
  {
    var h := a + (k + b);
    var lead := RunLength(h, IsSpace);
    if lead == |h| {
      assert h[|a|] == k[0];
      assert InnerBlank(h, 1).Some?;
    } else {
      var trail := BackRunLength(h, IsSpace);
      var kind := h[lead..|h| - trail];
      forall j | 0 <= j < |kind| ensures IsKindChar(kind[j]) {
        assert kind[j] == h[lead + j] == k[lead + j - |a|];
      }
    }
  }

  /** `r` cut before its trailing whitespace, when there is some. */
  function SplitTrailingGap(r: string): (cut: Option<(string, string)>)
    ensures cut.Some? ==> IsGap(cut.value.1) && cut.value.0 + cut.value.1 == r
  {
    var n := BackRunLength(r, IsSpace);
    if n == 0 then None
    else
      assert r == r[..|r| - n] + r[|r| - n..];
      Some((r[..|r| - n], r[|r| - n..]))
  }

  lemma SplitTrailingGapComplete(front: string, gap: string)
    requires IsGap(gap) && (front == [] || !IsSpace(front[|front| - 1]))
    ensures SplitTrailingGap(front + gap) == Some((front, gap))
  {
    BackRunOfConcat(front, gap, IsSpace);
    assert (front + gap)[..|front|] == front;
    assert (front + gap)[|front|..] == gap;
  }

  /** `body` cut before its final side word, when it ends in one. */
  function SplitSide(body: string): (cut: Option<(string, string)>)
    ensures cut.Some? ==> IsSide(cut.value.1) && cut.value.0 + cut.value.1 == body
  {
    var n := if |body| >= 4 && Upper(body[|body| - 4..]) == "SELL" then 4 else 3;
    if |body| < n || !IsSide(body[|body| - n..]) then None
    else
      assert body == body[..|body| - n] + body[|body| - n..];
      Some((body[..|body| - n], body[|body| - n..]))
  }

  /** A side word ends in a letter: `Y` for a buy, `L` for a sell. */
  lemma SideEndsInLetter(side: string)
    requires IsSide(side)
    ensures |side| == 3 || |side| == 4
    ensures IsLetter(side[|side| - 1]) && UpperChar(side[|side| - 1]) == (if |side| == 3 then 'Y' else 'L')
  {
    assert |Upper(side)| == |side|;
    assert Upper(side)[|side| - 1] == UpperChar(side[|side| - 1]);
  }

  lemma SplitSideComplete(head: string, side: string)
    requires IsSide(side)
    ensures SplitSide(head + side) == Some((head, side))
  {
    SideEndsInLetter(side);
    if |side| == 3 {
      SplitBuyComplete(head, side);
    } else {
      SplitSellComplete(head, side);
    }
  }

  lemma SplitBuyComplete(head: string, side: string)
    requires IsSide(side) && |side| == 3 && UpperChar(side[2]) == 'Y'
    ensures SplitSide(head + side) == Some((head, side))
  {
    var body := head + side;
    if |body| >= 4 {
      assert Upper(body[|body| - 4..])[3] == UpperChar(side[2]);
      assert Upper(body[|body| - 4..]) != "SELL";
    }
    assert body[|body| - 3..] == side;
    assert body[..|body| - 3] == head;
  }

  lemma SplitSellComplete(head: string, side: string)
    requires IsSide(side) && |side| == 4
    ensures SplitSide(head + side) == Some((head, side))
  {
    var body := head + side;
    assert body[|body| - 4..] == side;
    assert Upper(side) == "SELL";
    assert body[..|body| - 4] == head;
  }

  /** A cut of the part between the id and the amount as
      `\s+([A-Z ]+?)\s+(BUY|SELL)\s+`, when there is one: the side is the
      word before the trailing whitespace. */
  function SplitWords(r: string): (w: Option<WordsParts>)
    ensures w.Some? ==> WordsShape(w.value) && WordsText(w.value) == r
  {
    match SplitTrailingGap(r)
    case None => None
    case Some((body, gap3)) =>
      match SplitSide(body)
      case None => None
      case Some((head, side)) =>
        match SplitHead(head)
        case None => None
        case Some((gap1, kind, gap2)) => Some(WordsParts(gap1, kind, gap2, side, gap3))
  }

  /** Whenever the words can be cut as the pattern's words, SplitWords finds
      a cut with the same side. */
  lemma SplitWordsComplete(w: WordsParts)
    requires WordsShape(w)
    ensures SplitWords(WordsText(w)).Some?
    ensures SplitWords(WordsText(w)).value.side == w.side
  {
    var front := HeadText(w) + w.side;
    SideEndsInLetter(w.side);
    SplitTrailingGapComplete(front, w.gap3);
    SplitSideComplete(HeadText(w), w.side);
    SplitHeadComplete(w.gap1, w.kind, w.gap2);
  }

  /** A decimal holds no whitespace and starts with a digit. */
  lemma DecimalShape(s: string)
    requires IsDecimal(s)
    ensures s != [] && IsDigit(s[0]) && AllOf(s, NotSpace)
  {
    var n := RunLength(s, IsDigit);
    forall i | 0 <= i < |s| ensures NotSpace(s[i]) {
      if n < i {
        assert s[i] == s[n + 1..][i - n - 1];
      }
    }
  }

  /** `s` cut after its leading run of characters satisfying `p`. */
  function SplitRun(s: string, p: char -> bool): (cut: (string, string))
    ensures AllOf(cut.0, p) && cut.0 + cut.1 == s
    ensures cut.1 == [] || !p(cut.1[0])
  {
    var n := RunLength(s, p);
    assert s == s[..n] + s[n..];
    (s[..n], s[n..])
  }

  lemma SplitRunComplete(a: string, b: string, p: char -> bool)
    requires AllOf(a, p) && (b == [] || !p(b[0]))
    ensures SplitRun(a + b, p) == (a, b)
  {
    RunOfConcat(a, b, p);
    assert (a + b)[..|a|] == a;
    assert (a + b)[|a|..] == b;
  }

  /** `s` cut after its leading decimal, which must be followed by whitespace
      or the end. */
  function SplitDecimal(s: string): (cut: Option<(string, string)>)
    ensures cut.Some? ==> IsDecimal(cut.value.0) && cut.value.0 + cut.value.1 == s
  {
    var cut := SplitRun(s, NotSpace);
    if IsDecimal(cut.0) then Some(cut) else None
  }

  /** `s` cut after its leading whitespace, when there is some. */
  function SplitGap(s: string): (cut: Option<(string, string)>)
    ensures cut.Some? ==> IsGap(cut.value.0) && cut.value.0 + cut.value.1 == s
  {
    var cut := SplitRun(s, IsSpace);
    if cut.0 != [] then Some(cut) else None
  }

  /** `s` cut after a leading date and the whitespace character after it. */
  function SplitDate(s: string): (cut: Option<(string, char, string)>)
    ensures cut.Some? ==> IsDate(cut.value.0) && IsSpace(cut.value.1)
    ensures cut.Some? ==> cut.value.0 + ([cut.value.1] + cut.value.2) == s
  {
    if |s| < 11 || !IsDate(s[..10]) || !IsSpace(s[10]) then None
    else
      assert s == s[..10] + ([s[10]] + s[11..]);
      Some((s[..10], s[10], s[11..]))
  }

  /** The cut of the text after the words: the amount and the price are the
      next two whitespace-free tokens, each followed by whitespace, then the
      date and one whitespace character. */
  function SplitTail(s: string): (t: Option<TailParts>)
    ensures t.Some? ==> TailShape(t.value) && TailText(t.value) == s
  {
    match SplitDecimal(s)
    case None => None
    case Some((amount, s1)) =>
      match SplitGap(s1)
      case None => None
      case Some((gap4, s2)) =>
        match SplitDecimal(s2)
        case None => None
        case Some((price, s3)) =>
          match SplitGap(s3)
          case None => None
          case Some((gap5, s4)) =>
            match SplitDate(s4)
            case None => None
            case Some((date, sep, rest)) => Some(TailParts(amount, gap4, price, gap5, date, sep, rest))
  }

  lemma SplitDecimalComplete(token: string, rest: string)
    requires IsDecimal(token) && (rest == [] || IsSpace(rest[0]))
    ensures SplitDecimal(token + rest) == Some((token, rest))
  {
    DecimalShape(token);
    SplitRunComplete(token, rest, NotSpace);
  }

  lemma SplitGapComplete(gap: string, rest: string)
    requires IsGap(gap) && rest != [] && IsDigit(rest[0])
    ensures SplitGap(gap + rest) == Some((gap, rest))
  {
    SplitRunComplete(gap, rest, IsSpace);
  }

  lemma SplitDateComplete(date: string, sep: char, rest: string)
    requires IsDate(date) && IsSpace(sep)
    ensures SplitDate(date + ([sep] + rest)) == Some((date, sep, rest))
  {
    var s := date + ([sep] + rest);
    assert s[..10] == date && s[10] == sep && s[11..] == rest;
  }

  /** The tail has only one cut, and SplitTail finds it. */
  lemma SplitTailComplete(t: TailParts)
    requires TailShape(t)
    ensures SplitTail(TailText(t)) == Some(t)
  {
    var s4 := t.date + ([t.sep] + t.rest);
    var s3 := t.gap5 + s4;
    var s2 := t.price + s3;
    var s1 := t.gap4 + s2;
    DecimalShape(t.price);
    SplitDecimalComplete(t.amount, s1);
    SplitGapComplete(t.gap4, s2);
    SplitDecimalComplete(t.price, s3);
    assert IsDigit(t.date[0]);
    SplitGapComplete(t.gap5, s4);
    SplitDateComplete(t.date, t.sep, t.rest);
  }

  /** Both parts satisfy `p`, so their concatenation does. */
  lemma AllOfConcat(a: string, b: string, p: char -> bool)
    requires AllOf(a, p) && AllOf(b, p)
    ensures AllOf(a + b, p)
  {
    forall i | 0 <= i < |a + b| ensures p((a + b)[i]) {
      if i >= |a| {
        assert (a + b)[i] == b[i - |a|];
      }
    }
  }

  /** The words between the id and the amount are letters and whitespace. */
  lemma WordsAreWordChars(w: WordsParts)
    requires WordsShape(w)
    ensures AllOf(WordsText(w), IsWordChar)
  {
    assert AllOf(w.gap1, IsWordChar) && AllOf(w.kind, IsWordChar) && AllOf(w.gap2, IsWordChar);
    AllOfConcat(w.kind, w.gap2, IsWordChar);
    AllOfConcat(w.gap1, w.kind + w.gap2, IsWordChar);
    forall i | 0 <= i < |w.side| ensures IsWordChar(w.side[i]) {
      assert Upper(w.side)[i] == UpperChar(w.side[i]);
    }
    assert AllOf(w.gap3, IsWordChar);
    AllOfConcat(HeadText(w), w.side, IsWordChar);
    AllOfConcat(HeadText(w) + w.side, w.gap3, IsWordChar);
  }

  /** `_ROW_RE.match(line)`: the cut of a line that matches the row pattern. */
  function SplitRow(line: string): (r: Option<RowParts>)
    ensures r.Some? ==> RowShape(r.value) && RowText(r.value) == line
  {
    var lead := SplitRun(line, IsSpace);
    var id := SplitRun(lead.1, IsDigit);
    var words := SplitRun(id.1, IsWordChar);
    var w := SplitWords(words.0);
    var t := SplitTail(words.1);
    if id.0 != [] && w.Some? && t.Some? then Some(RowParts(lead.0, id.0, w.value, t.value))
    else None
  }

  /** Whenever a line matches the row pattern, SplitRow finds a cut with the
      same side and the same tail. */
  lemma SplitRowComplete(p: RowParts)
    requires RowShape(p)
    ensures SplitRow(RowText(p)).Some?
    ensures SplitRow(RowText(p)).value.words.side == p.words.side
    ensures SplitRow(RowText(p)).value.tail == p.tail
  {
    SplitRowCuts(p);
    SplitWordsComplete(p.words);
    SplitTailComplete(p.tail);
  }

  /** The three leading cuts of SplitRow fall on the boundaries of `p`. */
  lemma SplitRowCuts(p: RowParts)
    requires RowShape(p)
    ensures SplitRun(RowText(p), IsSpace) == (p.lead, p.id + (WordsText(p.words) + TailText(p.tail)))
    ensures SplitRun(p.id + (WordsText(p.words) + TailText(p.tail)), IsDigit)
         == (p.id, WordsText(p.words) + TailText(p.tail))
    ensures SplitRun(WordsText(p.words) + TailText(p.tail), IsWordChar) == (WordsText(p.words), TailText(p.tail))
  {
    var wt := WordsText(p.words);
    var tt := TailText(p.tail);
    SplitRunComplete(p.lead, p.id + (wt + tt), IsSpace);
    assert wt[0] == p.words.gap1[0];
    SplitRunComplete(p.id, wt + tt, IsDigit);
    WordsAreWordChars(p.words);
    DecimalShape(p.tail.amount);
    assert tt[0] == p.tail.amount[0];
    SplitRunComplete(wt, tt, IsWordChar);
  }

  function DigitValue(c: char): nat
    requires IsDigit(c)
    ensures DigitValue(c) <= 9
  {
    c as int - '0' as int
  }

  /** The number a string of decimal digits denotes. */
  function DigitsValue(s: string): nat
    requires AllOf(s, IsDigit)
  {
    if s == [] then 0 else 10 * DigitsValue(s[..|s| - 1]) + DigitValue(s[|s| - 1])
  }

  /** The value of the digits after a decimal point: a fraction in [0, 1). */
  function FractionValue(s: string): (f: real)
    requires AllOf(s, IsDigit)
    ensures 0.0 <= f < 1.0
  {
    if s == [] then 0.0 else (DigitValue(s[0]) as real + FractionValue(s[1..])) / 10.0
  }

  /** The digits before the decimal point. */
  function IntegerDigits(s: string): string {
    s[..RunLength(s, IsDigit)]
  }

  /** The exact value of a decimal, the value `float(s)` rounds. It lies
      between the integer its leading digits denote and the next one. */
  function DecimalValue(s: string): (v: real)
    requires IsDecimal(s)
    ensures DigitsValue(IntegerDigits(s)) as real <= v < DigitsValue(IntegerDigits(s)) as real + 1.0
  {
    var n := RunLength(s, IsDigit);
    if n == |s| then DigitsValue(s[..n]) as real
    else DigitsValue(s[..n]) as real + FractionValue(s[n + 1..])
  }

  /** An order row: the side upper-cased, the amount and the price. */
  datatype Order = Order(side: string, amount: real, price: real)

  /** What every parsed order satisfies. */
  predicate IsBookOrder(o: Order) {
    (o.side == "BUY" || o.side == "SELL") && o.amount >= 0.0 && o.price >= 0.0
  }

  function OrderOf(p: RowParts): Order
    requires RowShape(p)
  {
    Order(Upper(p.words.side), DecimalValue(p.tail.amount), DecimalValue(p.tail.price))
  }

  /** The order a line describes, if it matches the row pattern: the side is
      BUY or SELL whatever its case in the line, and the amount and the price
      are unsigned. */
  function MatchRow(line: string): (o: Option<Order>)
    ensures o.Some? ==> IsBookOrder(o.value)
  {
    match SplitRow(line)
    case None => None
    case Some(p) => Some(OrderOf(p))
  }

  /** A line yields an order exactly when it matches the row pattern, and
      every way of matching it gives that same order. */
  lemma MatchRowIffRowMatches(line: string)
    ensures MatchRow(line).Some? <==> RowMatches(line)
    ensures forall p :: RowShape(p) && RowText(p) == line ==> MatchRow(line) == Some(OrderOf(p))
  {
    forall p | RowShape(p) && RowText(p) == line
      ensures MatchRow(line) == Some(OrderOf(p))
    {
      SplitRowComplete(p);
    }
    if MatchRow(line).Some? {
      var p := SplitRow(line).value;
      assert RowShape(p) && RowText(p) == line;
    }
  }

  // ---------------------------------------------------------------------
  // parse_orders_from_text

  /** The orders among per-line match results, in line order. */
  function Collect(results: seq<Option<Order>>): (orders: seq<Order>)
    ensures |orders| <= |results|
  {
    if results == [] then []
    else
      var last := results[|results| - 1];
      Collect(results[..|results| - 1]) + (if last.Some? then [last.value] else [])
  }

  /** Collecting is piecewise: the orders of a concatenation of results are
      those of the first part followed by those of the second. */
  lemma {:induction false} CollectAppend(a: seq<Option<Order>>, b: seq<Option<Order>>)
    ensures Collect(a + b) == Collect(a) + Collect(b)
    decreases |b|
  {
    if b == [] {
      assert a + b == a;
    } else {
      assert (a + b)[..|a + b| - 1] == a + b[..|b| - 1];
      CollectAppend(a, b[..|b| - 1]);
    }
  }

  /** Collecting one more result appends its order, if it has one. */
  lemma CollectStep(results: seq<Option<Order>>, i: nat)
    requires i < |results|
    ensures Collect(results[..i + 1])
         == Collect(results[..i]) + (if results[i].Some? then [results[i].value] else [])
  {
    assert results[..i + 1][..i] == results[..i];
  }

  /** Every collected order is one of the results. */
  lemma {:induction false} CollectFrom(results: seq<Option<Order>>)
    ensures forall k :: 0 <= k < |Collect(results)| ==> Some(Collect(results)[k]) in results
    decreases |results|
  {
    if results != [] {
      var front := results[..|results| - 1];
      CollectFrom(front);
      var orders := Collect(results);
      forall k | 0 <= k < |orders| ensures Some(orders[k]) in results {
        if k < |Collect(front)| {
          assert Some(orders[k]) in front;
        } else {
          assert results[|results| - 1] == Some(orders[k]);
        }
      }
    }
  }

  /** `f` applied to every line. */
  function MapLines(lines: seq<string>, f: string -> Option<Order>): (results: seq<Option<Order>>)
    ensures |results| == |lines|
    ensures forall i :: 0 <= i < |lines| ==> results[i] == f(lines[i])
  {
    seq(|lines|, i requires 0 <= i < |lines| => f(lines[i]))
  }

  lemma MapLinesAppend(a: seq<string>, b: seq<string>, f: string -> Option<Order>)
    ensures MapLines(a + b, f) == MapLines(a, f) + MapLines(b, f)
  {
    var whole := MapLines(a + b, f);
    var parts := MapLines(a, f) + MapLines(b, f);
    forall i | 0 <= i < |whole| ensures whole[i] == parts[i] {
      if i < |a| {
        assert (a + b)[i] == a[i];
      } else {
        assert (a + b)[i] == b[i - |a|];
      }
    }
  }

  /** The orders the rows among `lines` describe, in line order. */
  function ParseLines(lines: seq<string>): seq<Order> {
    Collect(MapLines(lines, MatchRow))
  }

  /** Every parsed order is a buy or a sell with an unsigned amount and price,
      and no line gives more than one order. */
  lemma ParsedOrdersAreBookOrders(lines: seq<string>)
    ensures |ParseLines(lines)| <= |lines|
    ensures forall k :: 0 <= k < |ParseLines(lines)| ==> IsBookOrder(ParseLines(lines)[k])
  {
    var results := MapLines(lines, MatchRow);
    forall i | 0 <= i < |results| && results[i].Some? ensures IsBookOrder(results[i].value) {
      assert results[i] == MatchRow(lines[i]);
    }
    CollectedBookOrders(results);
  }

  /** Collecting keeps only the orders of the results. */
  lemma CollectedBookOrders(results: seq<Option<Order>>)
    requires forall i :: 0 <= i < |results| && results[i].Some? ==> IsBookOrder(results[i].value)
    ensures forall k :: 0 <= k < |Collect(results)| ==> IsBookOrder(Collect(results)[k])
  {
    CollectFrom(results);
    forall k | 0 <= k < |Collect(results)| ensures IsBookOrder(Collect(results)[k]) {
      var i :| 0 <= i < |results| && results[i] == Some(Collect(results)[k]);
    }
  }

  /** Parsing is line by line: the orders of a concatenation of lines are the
      orders of the first part followed by those of the second, and a single
      line gives its order when it matches and nothing otherwise. */
  lemma ParseLinesAppend(a: seq<string>, b: seq<string>)
    ensures ParseLines(a + b) == ParseLines(a) + ParseLines(b)
  {
    MapLinesAppend(a, b, MatchRow);
    CollectAppend(MapLines(a, MatchRow), MapLines(b, MatchRow));
  }

  lemma ParseOneLine(line: string)
    ensures ParseLines([line]) == (if MatchRow(line).Some? then [MatchRow(line).value] else [])
  {
    assert MapLines([line], MatchRow) == [] + [MatchRow(line)];
  }

  /** `parse_orders_from_text`: the order of every line of `text` that
      matches the row pattern, in line order. */
  method ParseOrdersFromText(text: string) returns (orders: seq<Order>)
    ensures orders == ParseLines(SplitLines(text))
    ensures forall k :: 0 <= k < |orders| ==> IsBookOrder(orders[k])
  {
    var lines := SplitLines(text);
    ghost var results := MapLines(lines, MatchRow);
    orders := [];
    for i := 0 to |lines|
      invariant orders == Collect(results[..i])
    {
      CollectStep(results, i);
      var m := MatchRow(lines[i]);
      assert m == results[i];
      if m.Some? {
        orders := orders + [m.value];
      }
    }
    assert results[..|lines|] == results;
    ParsedOrdersAreBookOrders(lines);
  }

  // ---------------------------------------------------------------------
  // split_filter_sort_orders

  /** An order kept for the given side: its amount is not below the minimum. */
  predicate Kept(o: Order, minAmount: real, side: string) {
    !(o.amount < minAmount) && o.side == side
  }

  /** The prices of the kept orders of one side, in order. */
  function KeptPrices(orders: seq<Order>, minAmount: real, side: string): (prices: seq<real>)
    ensures |prices| <= |orders|
  {
    if orders == [] then []
    else
      var last := orders[|orders| - 1];
      KeptPrices(orders[..|orders| - 1], minAmount, side) + (if Kept(last, minAmount, side) then [last.price] else [])
  }

  /** `x` is the price of some kept order of the side. */
  predicate PriceOfKept(orders: seq<Order>, minAmount: real, side: string, x: real) {
    exists k :: 0 <= k < |orders| && Kept(orders[k], minAmount, side) && orders[k].price == x
  }

  /** `x` occurs in `prices`. */
  predicate Holds(prices: seq<real>, x: real) {
    exists i :: 0 <= i < |prices| && prices[i] == x
  }

  /** Every kept price is the price of a kept order. */
  lemma {:induction false} KeptPricesSound(orders: seq<Order>, minAmount: real, side: string)
    ensures forall i :: 0 <= i < |KeptPrices(orders, minAmount, side)| ==>
      PriceOfKept(orders, minAmount, side, KeptPrices(orders, minAmount, side)[i])
    decreases |orders|
  {
    if orders != [] {
      var front := orders[..|orders| - 1];
      KeptPricesSound(front, minAmount, side);
      var prices := KeptPrices(orders, minAmount, side);
      var before := KeptPrices(front, minAmount, side);
      forall i | 0 <= i < |prices| ensures PriceOfKept(orders, minAmount, side, prices[i]) {
        if i < |before| {
          assert prices[i] == before[i];
          assert PriceOfKept(front, minAmount, side, before[i]);
          var k :| 0 <= k < |front| && Kept(front[k], minAmount, side) && front[k].price == prices[i];
          assert orders[k] == front[k];
        } else {
          assert prices[i] == orders[|orders| - 1].price;
        }
      }
    }
  }

  /** The price of every kept order is among the kept prices. */
  lemma {:induction false} KeptPricesComplete(orders: seq<Order>, minAmount: real, side: string)
    ensures forall k :: 0 <= k < |orders| && Kept(orders[k], minAmount, side) ==>
      Holds(KeptPrices(orders, minAmount, side), orders[k].price)
    decreases |orders|
  {
    if orders != [] {
      var front := orders[..|orders| - 1];
      KeptPricesComplete(front, minAmount, side);
      var prices := KeptPrices(orders, minAmount, side);
      var before := KeptPrices(front, minAmount, side);
      forall k | 0 <= k < |orders| && Kept(orders[k], minAmount, side) ensures Holds(prices, orders[k].price) {
        if k < |front| {
          assert orders[k] == front[k];
          var i :| 0 <= i < |before| && before[i] == front[k].price;
          assert prices[i] == before[i];
        } else {
          assert prices[|prices| - 1] == orders[k].price;
        }
      }
    }
  }

  /** No order is kept for both sides, so the two lists together are no
      longer than the orders. */
  lemma {:induction false} KeptPricesBothSides(orders: seq<Order>, minAmount: real)
    ensures |KeptPrices(orders, minAmount, "BUY")| + |KeptPrices(orders, minAmount, "SELL")| <= |orders|
    decreases |orders|
  {
    if orders != [] {
      KeptPricesBothSides(orders[..|orders| - 1], minAmount);
    }
  }

  /** `x` may stand before `y` in a list sorted ascending, or sorted with
      `reverse=True` when `descending`. */
  predicate InOrder(x: real, y: real, descending: bool) {
    if descending then x >= y else x <= y
  }

  predicate SortedBy(s: seq<real>, descending: bool) {
    forall i, j :: 0 <= i < j < |s| ==> InOrder(s[i], s[j], descending)
  }

  /** `x` inserted into a list before the first element it is in order
      with. */
  function Insert(x: real, s: seq<real>, descending: bool): (r: seq<real>)
    ensures |r| == |s| + 1 && (r[0] == x || (s != [] && r[0] == s[0]))
  {
    if s == [] || InOrder(x, s[0], descending) then [x] + s
    else [s[0]] + Insert(x, s[1..], descending)
  }

  /** Inserting into a sorted list keeps it sorted. */
  lemma {:induction false} InsertSorted(x: real, s: seq<real>, descending: bool)
    requires SortedBy(s, descending)
    ensures SortedBy(Insert(x, s, descending), descending)
    decreases |s|
  {
    if s != [] && !InOrder(x, s[0], descending) {
      assert SortedBy(s[1..], descending);
      InsertSorted(x, s[1..], descending);
      var rest := Insert(x, s[1..], descending);
      assert InOrder(s[0], rest[0], descending);
      assert forall k :: 0 <= k < |rest| ==> InOrder(s[0], rest[k], descending);
    }
  }

  /** Inserting adds `x` and nothing else. */
  lemma {:induction false} InsertPermutes(x: real, s: seq<real>, descending: bool)
    ensures multiset(Insert(x, s, descending)) == multiset(s) + multiset{x}
    decreases |s|
  {
    if s != [] && !InOrder(x, s[0], descending) {
      InsertPermutes(x, s[1..], descending);
      assert s == [s[0]] + s[1..];
    }
  }

  /** `list.sort()`, ascending or with `reverse=True`: a sorted permutation. */
  function Sort(s: seq<real>, descending: bool): (r: seq<real>)
    ensures SortedBy(r, descending) && multiset(r) == multiset(s)
  {
    if s == [] then []
    else
      var rest := Sort(s[1..], descending);
      InsertSorted(s[0], rest, descending);
      InsertPermutes(s[0], rest, descending);
      assert s == [s[0]] + s[1..];
      Insert(s[0], rest, descending)
  }

  /** A list has only one sorted permutation, so every correct sort, the
      stable one of the runtime included, returns what Sort returns. */
  lemma {:induction false} SortedPermutationUnique(a: seq<real>, b: seq<real>, descending: bool)
    requires SortedBy(a, descending) && SortedBy(b, descending) && multiset(a) == multiset(b)
    ensures a == b
    decreases |a|
  {
    assert |a| == |multiset(a)| == |multiset(b)| == |b|;
    if a != [] {
      SortedHeadsAgree(a, b, descending);
      TailsArePermutations(a, b);
      assert SortedBy(a[1..], descending) && SortedBy(b[1..], descending);
      SortedPermutationUnique(a[1..], b[1..], descending);
      assert a == [a[0]] + a[1..] && b == [b[0]] + b[1..];
    }
  }

  /** Two sorted permutations of each other start with the same element. */
  lemma SortedHeadsAgree(a: seq<real>, b: seq<real>, descending: bool)
    requires SortedBy(a, descending) && SortedBy(b, descending) && multiset(a) == multiset(b)
    requires a != [] && b != []
    ensures a[0] == b[0]
  {
    assert a[0] in multiset(b) && b[0] in multiset(a);
    var j :| 0 <= j < |b| && b[j] == a[0];
    var i :| 0 <= i < |a| && a[i] == b[0];
    if i > 0 {
      assert InOrder(a[0], a[i], descending);
    }
    if j > 0 {
      assert InOrder(b[0], b[j], descending);
    }
  }

  /** Taking the same first element off two permutations of each other
      leaves permutations of each other. */
  lemma TailsArePermutations(a: seq<real>, b: seq<real>)
    requires a != [] && b != [] && a[0] == b[0] && multiset(a) == multiset(b)
    ensures multiset(a[1..]) == multiset(b[1..])
  {
    assert a == [a[0]] + a[1..] && b == [b[0]] + b[1..];
    assert multiset(a) == multiset{a[0]} + multiset(a[1..]);
    assert multiset(b) == multiset{b[0]} + multiset(b[1..]);
    forall x ensures multiset(a[1..])[x] == multiset(b[1..])[x] {
      assert multiset(a)[x] == multiset{a[0]}[x] + multiset(a[1..])[x];
      assert multiset(b)[x] == multiset{b[0]}[x] + multiset(b[1..])[x];
    }
  }

  /** `split_filter_sort_orders`: the prices of the orders whose amount is
      not below `minAmount`, buys from the highest, sells from the lowest. */
  method SplitFilterSortOrders(orders: seq<Order>, minAmount: real) returns (buys: seq<real>, sells: seq<real>)
    ensures buys == Sort(KeptPrices(orders, minAmount, "BUY"), true)
    ensures sells == Sort(KeptPrices(orders, minAmount, "SELL"), false)
    ensures SortedBy(buys, true) && multiset(buys) == multiset(KeptPrices(orders, minAmount, "BUY"))
    ensures SortedBy(sells, false) && multiset(sells) == multiset(KeptPrices(orders, minAmount, "SELL"))
    ensures |buys| + |sells| <= |orders|
  {
    buys, sells := [], [];
    for i := 0 to |orders|
      invariant buys == KeptPrices(orders[..i], minAmount, "BUY")
      invariant sells == KeptPrices(orders[..i], minAmount, "SELL")
    {
      assert orders[..i + 1][..i] == orders[..i];
      var o := orders[i];
      if o.amount < minAmount {
        continue;
      }
      if o.side == "BUY" {
        buys := buys + [o.price];
      } else if o.side == "SELL" {
        sells := sells + [o.price];
      }
    }
    assert orders[..|orders|] == orders;
    KeptPricesBothSides(orders, minAmount);
    assert |buys| == |multiset(buys)| && |sells| == |multiset(sells)|;
    buys := Sort(buys, true);
    sells := Sort(sells, false);
    assert |buys| == |multiset(buys)| && |sells| == |multiset(sells)|;
  }

  /** The first price of a sorted list, when there is one. */
  function First(prices: seq<real>): Option<real> {
    if prices == [] then None else Some(prices[0])
  }

  /** The best price of a side: the first of its kept prices once sorted. */
  function BestPrice(orders: seq<Order>, minAmount: real, side: string, descending: bool): Option<real> {
    First(Sort(KeptPrices(orders, minAmount, side), descending))
  }

  /** The best price of a side is extreme: there is none exactly when no order
      of the side is kept, it is the price of a kept order, and it comes, in
      the sort's order, before every kept order's price (the highest bid, or
      with `descending` false the lowest ask). */
  lemma BestPriceIsExtreme(orders: seq<Order>, minAmount: real, side: string, descending: bool)
    ensures BestPrice(orders, minAmount, side, descending).None? <==>
      forall k :: 0 <= k < |orders| ==> !Kept(orders[k], minAmount, side)
    ensures BestPrice(orders, minAmount, side, descending).Some? ==>
      PriceOfKept(orders, minAmount, side, BestPrice(orders, minAmount, side, descending).value)
    ensures BestPrice(orders, minAmount, side, descending).Some? ==>
      forall k :: 0 <= k < |orders| && Kept(orders[k], minAmount, side) ==>
        InOrder(BestPrice(orders, minAmount, side, descending).value, orders[k].price, descending)
  {
    var kept := KeptPrices(orders, minAmount, side);
    var sorted := Sort(kept, descending);
    KeptPricesSound(orders, minAmount, side);
    KeptPricesComplete(orders, minAmount, side);
    forall k | 0 <= k < |orders| && Kept(orders[k], minAmount, side)
      ensures sorted != [] && InOrder(sorted[0], orders[k].price, descending)
    {
      var i :| 0 <= i < |kept| && kept[i] == orders[k].price;
      assert kept[i] in multiset(sorted);
      var j :| 0 <= j < |sorted| && sorted[j] == orders[k].price;
      if j > 0 {
        assert InOrder(sorted[0], sorted[j], descending);
      }
    }
    if sorted != [] {
      assert sorted[0] in multiset(kept);
      var i :| 0 <= i < |kept| && kept[i] == sorted[0];
      assert PriceOfKept(orders, minAmount, side, kept[i]);
    }
  }

  // ---------------------------------------------------------------------
  // compute_spread_percent_mid

  /** `compute_spread_percent_mid`: the gap from the best bid up to the best
      ask as a percentage of their midpoint. It exists exactly when both
      prices exist and are positive (the midpoint guard never decides
      anything); it is negative exactly when the book is crossed, zero
      exactly when the prices meet, and always within 200 percent either way. */
  function SpreadPercentMid(bestBid: Option<real>, bestAsk: Option<real>): (spread: Option<real>)
    ensures spread.Some? <==> bestBid.Some? && bestAsk.Some? && bestBid.value > 0.0 && bestAsk.value > 0.0
    ensures spread.Some? ==> (spread.value < 0.0 <==> bestAsk.value < bestBid.value)
    ensures spread.Some? ==> (spread.value == 0.0 <==> bestAsk.value == bestBid.value)
    ensures spread.Some? ==> -200.0 < spread.value < 200.0
  {
    if bestBid.None? || bestAsk.None? then None
    else if bestAsk.value <= 0.0 || bestBid.value <= 0.0 then None
    else
      var mid := (bestAsk.value + bestBid.value) / 2.0;
      if mid <= 0.0 then None
      else
        RatioBounds(bestAsk.value - bestBid.value, mid);
        Some((bestAsk.value - bestBid.value) / mid * 100.0)
  }

  /** Dividing by a positive number keeps the sign, and a difference of two
      positive prices is less than twice their midpoint. */
  lemma RatioBounds(x: real, y: real)
    requires y > 0.0
    ensures x / y < 0.0 <==> x < 0.0
    ensures x / y == 0.0 <==> x == 0.0
    ensures -2.0 * y < x < 2.0 * y ==> -2.0 < x / y < 2.0
  {
    var q := x / y;
    assert q * y == x;
    if q < 0.0 {
      assert q * y < 0.0;
    }
    if q >= 2.0 {
      assert q * y >= 2.0 * y;
    }
    if q <= -2.0 {
      assert q * y <= -2.0 * y;
    }
  }
}
