/** The log watchdog's resume-and-scan step: find where the previous run
    stopped by looking for the line it recorded, then read every line from
    there to the end of the file and report whether any contains a trigger
    token, where reading ended, and the last line read. */
module LogTail {
  import opened Wrappers
  import opened PyText
  import opened LogLines

  /** The log file as a run finds it. */
  datatype LogFile = Missing | Unreadable | Present(text: string)

  /** Why a scan could not read the file; the controller only logs it. */
  datatype ReadError = CannotOpen

  /** What a scan reports: the position reading ended at, whether a line
      matched, and the last line read. */
  datatype ScanResult = ScanResult(newOffset: nat, matched: bool, lastLineRead: string)

  /** An OS-level error raised by a file operation. */
  datatype OsError = TellingDisabled

  // ---------------------------------------------------------------------
  // Locating the resume position

  /** The position just past the first line of `ls` equal to `marker`, counted
      from the start of `ls`; none when no line equals it. */
  function OffsetAfterFirst(ls: seq<string>, marker: string): Option<nat> {
    if ls == [] then None
    else if ls[0] == marker then Some(|ls[0]|)
    else Shift(OffsetAfterFirst(ls[1..], marker), |ls[0]|)
  }

  /** A position counted from `d` characters further on. */
  function Shift(p: Option<nat>, d: nat): Option<nat> {
    match p
    case None => None
    case Some(q) => Some(d + q)
  }

  /** Where the intended `determine_start_offset_by_last_line` resumes: just
      after the first line equal to the marker; 0 without a (non-empty)
      marker, when no line equals it, or when the file cannot be read. */
  function ResumeOffset(log: LogFile, marker: Option<string>): nat {
    if marker.None? || marker.value == [] then 0
    else match log
      case Present(text) => OffsetAfterFirst(Lines(text), marker.value).GetOr(0)
      case _ => 0
  }

  /** `determine_start_offset_by_last_line` as its documentation describes it:
      reads the lines in order and stops at the first one equal to the marker. */
  method DetermineStartOffset(log: LogFile, marker: Option<string>) returns (offset: nat)
    ensures offset == ResumeOffset(log, marker)
  {
    if marker.None? || marker.value == [] {
      return 0;
    }
    if !log.Present? {
      return 0;
    }
    var lines, wanted := Lines(log.text), marker.value;
    var pos := 0;
    for i := 0 to |lines|
      invariant pos == |Concat(lines[..i])|
      invariant OffsetAfterFirst(lines, wanted) == Shift(OffsetAfterFirst(lines[i..], wanted), pos)
    {
      var line := lines[i];
      OffsetAfterFirstCons(line, lines[i + 1..], wanted);
      ShiftShift(OffsetAfterFirst(lines[i + 1..], wanted), |line|, pos);
      ConcatSnoc(lines, i);
      pos := pos + |line|;
      if line == wanted {
        return pos;
      }
    }
    return 0;
  }


  /** `f.tell()` on a text file while `for line in f` is iterating over it:
      CPython refuses with OSError ("telling position disabled by next() call"). */
  function TellWhileIterating(): Result<nat, OsError> {
    Failure(TellingDisabled)
  }

  /** The `try` block of `determine_start_offset_by_last_line` as the code runs
      under CPython: it reads the lines in order and, at the first one equal to
      the marker, calls `f.tell()`, which raises. */
  method FindMarkerAsWritten(text: string, wanted: string) returns (r: Result<nat, OsError>)
    ensures r.Failure? <==> OffsetAfterFirst(Lines(text), wanted).Some?
    ensures r.Success? ==> r.value == 0
  {
    var lines := Lines(text);
    for i := 0 to |lines|
      invariant OffsetAfterFirst(lines, wanted).Some? <==> OffsetAfterFirst(lines[i..], wanted).Some?
    {
      var line := lines[i];
      OffsetAfterFirstCons(line, lines[i + 1..], wanted);
      if line == wanted {
        return TellWhileIterating();
      }
    }
    return Success(0);
  }


  /** `determine_start_offset_by_last_line` as the code runs under CPython: the
      exception from `f.tell()` is caught by the handler for any exception,
      which returns 0, so every run starts from the beginning of the file. */
  method DetermineStartOffsetAsWritten(log: LogFile, marker: Option<string>) returns (offset: nat)
    ensures offset == 0
  {
    if marker.None? || marker.value == [] {
      return 0;
    }
    if !log.Present? {
      return 0;
    }
    var r := FindMarkerAsWritten(log.text, marker.value);
    match r
    case Success(p) =>
      return p;
    case Failure(_) =>
      return 0;
  }

  lemma ConcatSnoc(ls: seq<string>, i: nat)
    requires i < |ls|
    ensures |Concat(ls[..i + 1])| == |Concat(ls[..i])| + |ls[i]|
  {
    assert ls[..i + 1] == ls[..i] + [ls[i]];
    ConcatAppend(ls[..i], [ls[i]]);
    assert Concat([ls[i]]) == ls[i] + Concat([]);
  }

  lemma ShiftShift(p: Option<nat>, d: nat, e: nat)
    ensures Shift(Shift(p, d), e) == Shift(p, d + e)
  {
  }

  lemma OffsetAfterFirstCons(line: string, rest: seq<string>, marker: string)
    ensures OffsetAfterFirst([line] + rest, marker) ==
      if line == marker then Some(|line|) else Shift(OffsetAfterFirst(rest, marker), |line|)
  {
    assert ([line] + rest)[0] == line && ([line] + rest)[1..] == rest;
  }

  // ---------------------------------------------------------------------
  // What the resume position means

  /** Searching stops at the first line equal to the marker. */
  lemma {:induction false} OffsetAfterFirstAt(ls: seq<string>, m: string, i: nat)
    requires i < |ls| && ls[i] == m
    requires forall k :: 0 <= k < i ==> ls[k] != m
    ensures OffsetAfterFirst(ls, m) == Some(|Concat(ls[..i + 1])|)
    decreases i
  {
    assert ls[..i + 1][0] == ls[0] && ls[..i + 1][1..] == ls[1..][..i];
    if i > 0 {
      assert forall k :: 0 <= k < i - 1 ==> ls[1..][k] == ls[k + 1];
      OffsetAfterFirstAt(ls[1..], m, i - 1);
    } else {
      assert ls[1..][..0] == [];
    }
  }

  /** A found position belongs to a first matching line. */
  lemma {:induction false} FirstMatch(ls: seq<string>, m: string) returns (i: nat)
    requires OffsetAfterFirst(ls, m).Some?
    ensures i < |ls| && ls[i] == m
    ensures forall k :: 0 <= k < i ==> ls[k] != m
    decreases |ls|
  {
    if ls[0] == m {
      i := 0;
    } else {
      var j := FirstMatch(ls[1..], m);
      i := j + 1;
      assert forall k :: 0 < k < i ==> ls[k] == ls[1..][k - 1];
    }
  }

  /** Nothing is found exactly when no line equals the marker. */
  lemma {:induction false} OffsetAfterFirstMissing(ls: seq<string>, m: string)
    ensures OffsetAfterFirst(ls, m).None? <==> forall k :: 0 <= k < |ls| ==> ls[k] != m
    decreases |ls|
  {
    if OffsetAfterFirst(ls, m).Some? {
      var i := FirstMatch(ls, m);
    } else if ls != [] {
      OffsetAfterFirstMissing(ls[1..], m);
      forall k | 0 < k < |ls| ensures ls[k] != m {
        assert ls[k] == ls[1..][k - 1];
      }
    }
  }

  /** When some line equals the (non-empty) marker, a run resumes just past
      the first such line and reads exactly the lines after it. */
  lemma ResumeAfterFirstMatch(text: string, m: string, i: nat)
    requires m != []
    requires i < |Lines(text)| && Lines(text)[i] == m
    requires forall k :: 0 <= k < i ==> Lines(text)[k] != m
    ensures ResumeOffset(Present(text), Some(m)) == |Concat(Lines(text)[..i + 1])| <= |text|
    ensures LinesFrom(text, ResumeOffset(Present(text), Some(m))) == Lines(text)[i + 1..]
  {
    var ls := Lines(text);
    OffsetAfterFirstAt(ls, m, i);
    ConcatLines(text);
    LinesWellFormed(text);
    LinesAfterPrefix(ls, i + 1);
  }

  /** When no line equals the marker (a rotated or truncated file), a run
      starts from 0 and reads the whole file; when one does, it never starts
      from 0. */
  lemma ResumeFromStartIffMissing(text: string, m: string)
    requires m != []
    ensures ResumeOffset(Present(text), Some(m)) == 0 <==>
      forall k :: 0 <= k < |Lines(text)| ==> Lines(text)[k] != m
  {
    var ls := Lines(text);
    OffsetAfterFirstMissing(ls, m);
    assert ResumeOffset(Present(text), Some(m)) == OffsetAfterFirst(ls, m).GetOr(0);
    if OffsetAfterFirst(ls, m).Some? {
      OffsetAfterFirstPositive(ls, m);
      var i := FirstMatch(ls, m);
      assert Lines(text)[i] == m;
    }
  }

  /** A non-empty marker is found, if at all, past the start. */
  lemma {:induction false} OffsetAfterFirstPositive(ls: seq<string>, m: string)
    requires m != [] && OffsetAfterFirst(ls, m).Some?
    ensures OffsetAfterFirst(ls, m).value > 0
    decreases |ls|
  {
    if ls[0] != m {
      OffsetAfterFirstPositive(ls[1..], m);
    }
  }

  /** Whatever the marker, a run resumes inside the file and on a line
      boundary: it reads a tail of the file's lines. */
  lemma ResumeAtLineBoundary(text: string, marker: Option<string>)
    ensures ResumeOffset(Present(text), marker) <= |text|
    ensures exists k :: 0 <= k <= |Lines(text)| && LinesFrom(text, ResumeOffset(Present(text), marker)) == Lines(text)[k..]
  {
    var ls := Lines(text);
    if marker.Some? && marker.value != [] && OffsetAfterFirst(ls, marker.value).Some? {
      var i := FirstMatch(ls, marker.value);
      ResumeAfterFirstMatch(text, marker.value, i);
    } else {
      assert LinesFrom(text, ResumeOffset(Present(text), marker)) == ls[0..];
    }
  }

  /** The run after one that ended on the file's last line, whose text occurs
      nowhere earlier, reads exactly the lines appended since. */
  lemma ResumeReadsOnlyAppended(before: string, appended: string)
    requires before != [] && before[|before| - 1] == '\n'
    requires forall k :: 0 <= k < |Lines(before)| - 1 ==> Lines(before)[k] != Lines(before)[|Lines(before)| - 1]
    ensures var last := Lines(before)[|Lines(before)| - 1];
      LinesFrom(before + appended, ResumeOffset(Present(before + appended), Some(last))) == Lines(appended)
  {
    LastLineOfText(before);
    var lo := Lines(before);
    var last := lo[|lo| - 1];
    LinesAppend(before, appended);
    var ls := Lines(before + appended);
    assert ls == lo + Lines(appended);
    var i := |lo| - 1;
    assert forall k :: 0 <= k <= i ==> ls[k] == lo[k];
    ResumeAfterFirstMatch(before + appended, last, i);
    assert ls[i + 1..] == Lines(appended);
  }

  /** Appending to a '\n'-terminated log does not move a marker found in it:
      the run after the append reads what a run before it would have read,
      then the appended lines. */
  lemma ResumeAfterAppend(before: string, appended: string, m: string, i: nat)
    requires before != [] && before[|before| - 1] == '\n' && m != []
    requires i < |Lines(before)| && Lines(before)[i] == m
    requires forall k :: 0 <= k < i ==> Lines(before)[k] != m
    ensures LinesFrom(before + appended, ResumeOffset(Present(before + appended), Some(m)))
         == LinesFrom(before, ResumeOffset(Present(before), Some(m))) + Lines(appended)
  {
    var lo := Lines(before);
    var text := before + appended;
    LinesAppend(before, appended);
    var ls := Lines(text);
    assert ls == lo + Lines(appended);
    assert forall k :: 0 <= k <= i ==> ls[k] == lo[k];
    ResumeAfterFirstMatch(before, m, i);
    ResumeAfterFirstMatch(text, m, i);
    DropOfConcat(lo, Lines(appended), i + 1);
  }

  lemma DropOfConcat(a: seq<string>, b: seq<string>, j: nat)
    requires j <= |a|
    ensures (a + b)[j..] == a[j..] + b
  {
  }

  /** A marker line that also occurs earlier in the file sends the next run
      back to the earlier copy: it reads the marker line again. */
  lemma RepeatedMarkerRereads(line: string, appended: string)
    requires IsLine(line) && Terminated(line)
    ensures var text := line + (line + appended);
      LinesFrom(text, ResumeOffset(Present(text), Some(line))) == [line] + Lines(appended)
  {
    var text := line + (line + appended);
    LinesOfOneLine(line);
    LinesAppend(line, appended);
    LinesAppend(line, line + appended);
    assert Lines(text) == [line] + ([line] + Lines(appended));
    ResumeAfterFirstMatch(text, line, 0);
  }

  lemma LinesOfTwo(first: string, second: string)
    requires IsLine(first) && Terminated(first) && IsLine(second)
    ensures Lines(first + second) == [first, second]
  {
    LinesOfOneLine(first);
    LinesOfOneLine(second);
    LinesAppend(first, second);
  }

  lemma LinesOfOneLine(line: string)
    requires IsLine(line)
    ensures Lines(line) == [line]
  {
    assert [line][1..] == [];
    assert Concat([line]) == line;
    LinesConcat([line]);
  }

  /** The locate step as written always answers 0, so a line that already
      raised an alert raises it again on every later run. With a log holding
      just "ERROR a\n" and that line as the marker, the documented behaviour
      resumes at the end and reads nothing, while starting from 0 reads the
      ERROR line once more. */
  lemma StaleAlertWitness()
    ensures var text := "ERROR a\n";
      && ResumeOffset(Present(text), Some(text)) == |text|
      && LinesFrom(text, ResumeOffset(Present(text), Some(text))) == []
      && LinesFrom(text, 0) == [text]
      && AnyLineMatches(LinesFrom(text, 0), ["ERROR"])
  {
    var text: string := "ERROR a\n";
    var one: seq<string> := [text];
    assert IsLine(text);
    LinesOfOneLine(text);
    ResumeAfterFirstMatch(text, text, 0);
    assert one[..1] == one && one[1..] == [];
    assert Concat(one) == text;
    assert text[0..] == text;
    ErrorLineMatches();
  }

  /** A log that ends mid-line defeats the resume: the run records the
      partial line "b" of "a\nb", the writer then finishes it as "bc\n", no
      line equals the marker any more, and the next run reads the whole log
      again from the top. */
  lemma PartialLastLineRescans()
    ensures Lines("a\nb") == ["a\n", "b"]
    ensures var text := "a\nb" + "c\n";
      && ResumeOffset(Present(text), Some("b")) == 0
      && LinesFrom(text, ResumeOffset(Present(text), Some("b"))) == ["a\n", "bc\n"]
  {
    assert "a\nb" == "a\n" + "b";
    LinesOfTwo("a\n", "b");
    var text := "a\nb" + "c\n";
    assert text == "a\n" + "bc\n";
    LinesOfTwo("a\n", "bc\n");
    assert "a\n" != "b" && "bc\n" != "b";
    ResumeFromStartIffMissing(text, "b");
    assert text[0..] == text;
  }

  lemma ErrorLineMatches()
    ensures LineMatches("ERROR a\n", ["ERROR"])
  {
    var up := Upper("ERROR a\n");
    assert up[0] == 'E' && up[1] == 'R' && up[2] == 'R' && up[3] == 'O' && up[4] == 'R';
    assert up[0..5] == "ERROR";
    assert OccursAt(["ERROR"][0], up, 0);
  }

  // ---------------------------------------------------------------------
  // Scanning the new lines

  /** A line triggers when one of the tokens occurs in its upper-cased text. */
  predicate LineMatches(line: string, levels: seq<string>) {
    exists j :: 0 <= j < |levels| && IsSubstring(levels[j], Upper(line))
  }

  /** Some line of `ls` triggers. */
  predicate AnyLineMatches(ls: seq<string>, levels: seq<string>) {
    exists k :: 0 <= k < |ls| && LineMatches(ls[k], levels)
  }

  lemma AnyLineMatchesAppend(ls: seq<string>, line: string, levels: seq<string>)
    ensures AnyLineMatches(ls + [line], levels) <==> AnyLineMatches(ls, levels) || LineMatches(line, levels)
  {
    if LineMatches(line, levels) {
      assert (ls + [line])[|ls|] == line;
    }
    if AnyLineMatches(ls, levels) {
      var k :| 0 <= k < |ls| && LineMatches(ls[k], levels);
      assert (ls + [line])[k] == ls[k];
    }
    if AnyLineMatches(ls + [line], levels) {
      var k :| 0 <= k < |ls + [line]| && LineMatches((ls + [line])[k], levels);
      if k < |ls| {
        assert (ls + [line])[k] == ls[k];
      }
    }
  }

  /** The lines a scan from `start` reads: nothing when `start` lies past the end. */
  function LinesFrom(text: string, start: nat): seq<string> {
    if start <= |text| then Lines(text[start..]) else []
  }

  function LastOrEmpty(ls: seq<string>): string {
    if ls == [] then "" else ls[|ls| - 1]
  }

  /** The inner `for lvl in levels: if lvl in up` loop, stopping at the first hit. */
  method AnyLevelIn(up: string, levels: seq<string>) returns (found: bool)
    ensures found <==> exists j :: 0 <= j < |levels| && IsSubstring(levels[j], up)
  {
    found := false;
    var i := 0;
    while i < |levels|
      invariant i <= |levels|
      invariant forall j :: 0 <= j < i ==> !IsSubstring(levels[j], up)
    {
      if IsSubstring(levels[i], up) {
        found := true;
        return;
      }
      i := i + 1;
    }
  }

  /** `scan_new_lines`: reads every line from `startOffset` to the end, never
      stopping at the first match; fails only when the file cannot be opened. */
  method ScanNewLines(log: LogFile, startOffset: nat, levels: seq<string>) returns (r: Result<ScanResult, ReadError>)
    ensures r.Failure? <==> !log.Present?
    ensures r.Success? ==>
      var read := LinesFrom(log.text, startOffset);
      && (r.value.matched <==> AnyLineMatches(read, levels))
      && r.value.lastLineRead == LastOrEmpty(read)
      && r.value.newOffset == if startOffset <= |log.text| then |log.text| else startOffset
  {
    if !log.Present? {
      return Failure(CannotOpen);
    }
    var text := log.text;
    var matched := false;
    var lastLineRead := "";
    if startOffset > |text| {
      // seeking past the end: the iteration yields nothing and the position stays
      return Success(ScanResult(startOffset, matched, lastLineRead));
    }
    var lines := Lines(text[startOffset..]);
    var pos := startOffset;
    for i := 0 to |lines|
      invariant pos == startOffset + |Concat(lines[..i])|
      invariant matched <==> AnyLineMatches(lines[..i], levels)
      invariant lastLineRead == LastOrEmpty(lines[..i])
    {
      var line := lines[i];
      assert lines[..i + 1] == lines[..i] + [line];
      AnyLineMatchesAppend(lines[..i], line, levels);
      ConcatSnoc(lines, i);
      pos := pos + |line|;
      lastLineRead := line;
      if !matched {
        var up := Upper(line);
        matched := AnyLevelIn(up, levels);
      }
    }
    assert lines[..|lines|] == lines;
    ConcatLines(text[startOffset..]);
    return Success(ScanResult(pos, matched, lastLineRead));
  }

}
