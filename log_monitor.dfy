/** The log watchdog (`Main.py`): one cron run reads the configured trigger
    tokens, resumes the log where the previous run stopped, scans the new
    lines, records the last line read, and when a new line holds a token
    kills the bot's screen session and cancels its orders. */
module LogMonitor {
  import opened Wrappers
  import opened PyText
  import opened LogLines
  import opened Commands
  import opened StateStore
  import opened Remediation
  import opened LogTail

  /** The tokens used when the setting names none. */
  const DefaultLevels: seq<string> := ["ERROR", "WARNING"]

  // ---------------------------------------------------------------------
  // The trigger tokens

  /** A usable token: not empty (the empty token occurs in every line) and
      without lower-case letters (lines are upper-cased before the test). */
  predicate IsToken(t: string) {
    t != [] && NoLowerCase(t)
  }

  lemma DefaultLevelsAreTokens()
    ensures forall k :: 0 <= k < |DefaultLevels| ==> IsToken(DefaultLevels[k])
  {
    assert IsToken("ERROR");
    assert IsToken("WARNING");
  }

  /** An entry that is not blank gives the token `TokenOf`. */
  predicate GivesToken(piece: string) {
    Strip(piece) != []
  }

  function TokenOf(piece: string): string {
    Upper(Strip(piece))
  }

  lemma TokenOfIsToken(piece: string)
    requires GivesToken(piece)
    ensures IsToken(TokenOf(piece))
  {
    UpperHasNoLowerCase(Strip(piece));
  }

  /** The comma-separated entries that are not blank, stripped and
      upper-cased, in their order. */
  function CleanPieces(pieces: seq<string>): (levels: seq<string>)
    ensures |levels| <= |pieces|
  {
    if pieces == [] then []
    else
      var rest := CleanPieces(pieces[1..]);
      if GivesToken(pieces[0]) then [TokenOf(pieces[0])] + rest else rest
  }

  /** Cleaning one entry keeps its token, or drops it when it is blank. */
  lemma CleanOnePiece(piece: string)
    ensures CleanPieces([piece]) == if GivesToken(piece) then [TokenOf(piece)] else []
  {
    assert [piece][1..] == [];
  }

  /** Cleaning distributes over appending entries, so the tokens come out in
      the entries' order, one for each entry that is not blank (repeats
      included). */
  lemma {:induction false} CleanPiecesAppend(a: seq<string>, b: seq<string>)
    ensures CleanPieces(a + b) == CleanPieces(a) + CleanPieces(b)
    decreases |a|
  {
    if a != [] {
      assert (a + b)[1..] == a[1..] + b;
      CleanPiecesAppend(a[1..], b);
    } else {
      assert a + b == b;
    }
  }

  /** The token list of `get_env_config`: the cleaned entries of the setting,
      or the default pair when every entry is blank. It is never empty. */
  function CleanLevels(setting: string): (levels: seq<string>)
    ensures levels != []
  {
    var cleaned := CleanPieces(Split(setting, ','));
    if cleaned == [] then DefaultLevels else cleaned
  }

  lemma {:induction false} CleanPiecesAreTokens(pieces: seq<string>)
    ensures forall k :: 0 <= k < |CleanPieces(pieces)| ==> IsToken(CleanPieces(pieces)[k])
    decreases |pieces|
  {
    if pieces != [] {
      var rest := CleanPieces(pieces[1..]);
      var out := CleanPieces(pieces);
      CleanPiecesAreTokens(pieces[1..]);
      if GivesToken(pieces[0]) {
        TokenOfIsToken(pieces[0]);
        assert out == [TokenOf(pieces[0])] + rest;
        forall k | 1 <= k < |out| ensures IsToken(out[k]) {
          assert out[k] == rest[k - 1];
        }
      }
    }
  }

  /** Every token is usable: never empty, so no line triggers merely by
      existing, and free of lower-case letters, so it can occur in an
      upper-cased line. */
  lemma CleanLevelsAreTokens(setting: string)
    ensures forall k :: 0 <= k < |CleanLevels(setting)| ==> IsToken(CleanLevels(setting)[k])
  {
    CleanPiecesAreTokens(Split(setting, ','));
    DefaultLevelsAreTokens();
  }

  /** `x` is the token of one of the entries. */
  predicate FromEntry(pieces: seq<string>, x: string) {
    exists k :: 0 <= k < |pieces| && GivesToken(pieces[k]) && x == TokenOf(pieces[k])
  }

  /** `x` is one of the tokens. */
  predicate Listed(levels: seq<string>, x: string) {
    exists i :: 0 <= i < |levels| && levels[i] == x
  }

  /** Every token comes from an entry that is not blank. */
  lemma {:induction false} CleanPiecesSound(pieces: seq<string>)
    ensures forall i :: 0 <= i < |CleanPieces(pieces)| ==> FromEntry(pieces, CleanPieces(pieces)[i])
    decreases |pieces|
  {
    if pieces != [] {
      var tail := pieces[1..];
      var rest := CleanPieces(tail);
      var out := CleanPieces(pieces);
      CleanPiecesSound(tail);
      var shift := if GivesToken(pieces[0]) then 1 else 0;
      if shift == 1 {
        assert out == [TokenOf(pieces[0])] + rest;
        assert FromEntry(pieces, out[0]);
      } else {
        assert out == rest;
      }
      forall i | shift <= i < |out| ensures FromEntry(pieces, out[i]) {
        var x := rest[i - shift];
        assert out[i] == x;
        assert FromEntry(tail, x);
        var k :| 0 <= k < |tail| && GivesToken(tail[k]) && x == TokenOf(tail[k]);
        assert tail[k] == pieces[k + 1];
      }
    }
  }

  /** Every entry that is not blank gives a token. */
  lemma {:induction false} CleanPiecesComplete(pieces: seq<string>)
    ensures forall k :: 0 <= k < |pieces| && GivesToken(pieces[k]) ==> Listed(CleanPieces(pieces), TokenOf(pieces[k]))
    decreases |pieces|
  {
    if pieces != [] {
      var tail := pieces[1..];
      var rest := CleanPieces(tail);
      var out := CleanPieces(pieces);
      CleanPiecesComplete(tail);
      var shift := if GivesToken(pieces[0]) then 1 else 0;
      if shift == 1 {
        assert out == [TokenOf(pieces[0])] + rest;
        assert out[0] == TokenOf(pieces[0]);
      } else {
        assert out == rest;
      }
      assert out[shift..] == rest;
      forall k | 1 <= k < |pieces| && GivesToken(pieces[k]) ensures Listed(out, TokenOf(pieces[k])) {
        assert tail[k - 1] == pieces[k];
        ListedInSuffix(out, shift, TokenOf(pieces[k]));
      }
    }
  }

  /** What a suffix lists, the whole lists. */
  lemma ListedInSuffix(levels: seq<string>, d: nat, x: string)
    requires d <= |levels| && Listed(levels[d..], x)
    ensures Listed(levels, x)
  {
    var i :| 0 <= i < |levels[d..]| && levels[d..][i] == x;
    assert levels[i + d] == x;
  }

  /** Nothing is left exactly when every entry is blank. */
  lemma {:induction false} CleanPiecesEmpty(pieces: seq<string>)
    ensures CleanPieces(pieces) == [] <==> forall k :: 0 <= k < |pieces| ==> AllSpace(pieces[k])
    decreases |pieces|
  {
    if pieces != [] {
      var tail := pieces[1..];
      CleanPiecesEmpty(tail);
      if CleanPieces(pieces) == [] {
        forall k | 0 <= k < |pieces| ensures AllSpace(pieces[k]) {
          if k > 0 {
            assert pieces[k] == tail[k - 1];
          }
        }
      }
      if forall k :: 0 <= k < |pieces| ==> AllSpace(pieces[k]) {
        forall k | 0 <= k < |tail| ensures AllSpace(tail[k]) {
          assert tail[k] == pieces[k + 1];
        }
      }
    }
  }

  /** The default pair is used when every comma-separated entry of the
      setting is blank; as soon as one entry is not, the tokens are exactly
      the cleaned entries (whose properties are proved above). */
  lemma CleanLevelsDefault(setting: string)
    ensures (forall k :: 0 <= k < |Split(setting, ',')| ==> AllSpace(Split(setting, ',')[k])) ==>
      CleanLevels(setting) == DefaultLevels
    ensures (exists k :: 0 <= k < |Split(setting, ',')| && !AllSpace(Split(setting, ',')[k])) ==>
      CleanLevels(setting) == CleanPieces(Split(setting, ','))
  {
    CleanPiecesEmpty(Split(setting, ','));
  }

  // ---------------------------------------------------------------------
  // What the run records

  /** The line the next run resumes after. The source records the last line
      read even when the run read none, which erases the marker; the
      corrected rule keeps the previous marker when nothing was read. */
  function PersistedLine(previous: Option<string>, lastLineRead: string): (line: string)
    ensures lastLineRead != [] ==> line == lastLineRead
    ensures lastLineRead == [] && previous.Some? ==> line == previous.value
    ensures lastLineRead == [] && previous.None? ==> line == []
  {
    if lastLineRead == [] then previous.GetOr([]) else lastLineRead
  }

  /** As written, under the documented locate (`ResumeOffset`): the run
      before ended on the log's last line, a '\n'-terminated line that occurs
      nowhere earlier, so this run reads nothing and stores the empty line.
      The run after it then starts again from the top of the file and reads
      every old line once more. Under the locate as written the offset is 0
      on every run anyway, so this only shows once locate is corrected. */
  lemma QuietRunForgetsPosition(before: string, appended: string, loaded: Loaded)
    requires before != [] && before[|before| - 1] == '\n'
    requires forall k :: 0 <= k < |Lines(before)| - 1 ==> Lines(before)[k] != Lines(before)[|Lines(before)| - 1]
    requires MarkerOf(loaded) == Some(Lines(before)[|Lines(before)| - 1])
    ensures var quiet := LinesFrom(before, ResumeOffset(Present(before), MarkerOf(loaded)));
      var next := AfterLastLineWrite(loaded, LastOrEmpty(quiet), true);
      var text := before + appended;
      && quiet == []
      && LinesFrom(text, ResumeOffset(Present(text), MarkerOf(next))) == Lines(before) + Lines(appended)
  {
    QuietRun(before);
    LinesAppend(before, appended);
    var text := before + appended;
    assert text[0..] == text;
  }

  /** Corrected: under the same conditions the quiet run keeps the marker, so
      the run after it reads exactly the lines appended in between. */
  lemma QuietRunKeepsPosition(before: string, appended: string, loaded: Loaded)
    requires before != [] && before[|before| - 1] == '\n'
    requires forall k :: 0 <= k < |Lines(before)| - 1 ==> Lines(before)[k] != Lines(before)[|Lines(before)| - 1]
    requires MarkerOf(loaded) == Some(Lines(before)[|Lines(before)| - 1])
    ensures var quiet := LinesFrom(before, ResumeOffset(Present(before), MarkerOf(loaded)));
      var next := AfterLastLineWrite(loaded, PersistedLine(MarkerOf(loaded), LastOrEmpty(quiet)), true);
      var text := before + appended;
      && quiet == []
      && LinesFrom(text, ResumeOffset(Present(text), MarkerOf(next))) == Lines(appended)
  {
    QuietRun(before);
    ResumeReadsOnlyAppended(before, appended);
  }

  /** A run whose marker is the file's last line, a '\n'-terminated line
      occurring nowhere earlier, reads nothing. */
  lemma QuietRun(before: string)
    requires before != [] && before[|before| - 1] == '\n'
    requires forall k :: 0 <= k < |Lines(before)| - 1 ==> Lines(before)[k] != Lines(before)[|Lines(before)| - 1]
    ensures var last := Lines(before)[|Lines(before)| - 1];
      last != [] && LinesFrom(before, ResumeOffset(Present(before), Some(last))) == []
  {
    LastLineOfText(before);
    var ls := Lines(before);
    ResumeAfterFirstMatch(before, ls[|ls| - 1], |ls| - 1);
  }

  /** Successive runs with the corrected record, when the write succeeds. The
      file this run sees ends in '\n' and its last line occurs nowhere
      earlier; the run then records that last line (`RecordIsLastLine`).
      Then, once lines are only appended,
      the next run, loading what this one wrote, reads exactly the appended
      lines, whether or not this run read anything. A log that ends mid-line,
      or whose last line repeats an earlier one, does not meet these
      conditions (see `LogTail.PartialLastLineRescans` and
      `LogTail.RepeatedMarkerRereads`). */
  lemma RunsReadEachLineOnce(before: string, appended: string, loaded: Loaded)
    requires before != [] && before[|before| - 1] == '\n'
    requires forall k :: 0 <= k < |Lines(before)| - 1 ==> Lines(before)[k] != Lines(before)[|Lines(before)| - 1]
    ensures var read := LinesFrom(before, ResumeOffset(Present(before), MarkerOf(loaded)));
      var next := AfterLastLineWrite(loaded, PersistedLine(MarkerOf(loaded), LastOrEmpty(read)), true);
      var text := before + appended;
      LinesFrom(text, ResumeOffset(Present(text), MarkerOf(next))) == Lines(appended)
  {
    var read := LinesFrom(before, ResumeOffset(Present(before), MarkerOf(loaded)));
    RecordIsLastLine(before, MarkerOf(loaded));
    var line := PersistedLine(MarkerOf(loaded), LastOrEmpty(read));
    assert MarkerOf(AfterLastLineWrite(loaded, line, true)) == Some(line);
    ResumeReadsOnlyAppended(before, appended);
  }

  /** With the corrected rule, a run over a '\n'-terminated log records the
      log's last line, whatever marker it resumed from: either it read up to
      the end, or it read nothing because the marker was that last line. */
  lemma RecordIsLastLine(before: string, marker: Option<string>)
    requires before != [] && before[|before| - 1] == '\n'
    ensures var read := LinesFrom(before, ResumeOffset(Present(before), marker));
      PersistedLine(marker, LastOrEmpty(read)) == Lines(before)[|Lines(before)| - 1]
  {
    var ls := Lines(before);
    LastLineOfText(before);
    var read := LinesFrom(before, ResumeOffset(Present(before), marker));
    if marker.Some? && marker.value != [] && OffsetAfterFirst(ls, marker.value).Some? {
      var i := FirstMatch(ls, marker.value);
      ResumeAfterFirstMatch(before, marker.value, i);
      assert read == ls[i + 1..];
      if i + 1 < |ls| {
        assert LastOrEmpty(read) == ls[|ls| - 1];
      }
    } else {
      assert ResumeOffset(Present(before), marker) == 0;
      assert before[0..] == before;
      assert read == ls;
    }
  }

  /** A failed state write keeps the old document, so the next run resumes
      where this one did: it reads again every line this run read, then the
      appended ones. Here the marker is found in the file this run saw, at
      its first equal line `i`. */
  lemma FailedWriteRereads(before: string, appended: string, loaded: Loaded, record: string, i: nat)
    requires before != [] && before[|before| - 1] == '\n'
    requires MarkerOf(loaded).Some? && MarkerOf(loaded).value != []
    requires i < |Lines(before)| && Lines(before)[i] == MarkerOf(loaded).value
    requires forall k :: 0 <= k < i ==> Lines(before)[k] != MarkerOf(loaded).value
    ensures var read := LinesFrom(before, ResumeOffset(Present(before), MarkerOf(loaded)));
      var next := AfterLastLineWrite(loaded, record, false);
      var text := before + appended;
      LinesFrom(text, ResumeOffset(Present(text), MarkerOf(next))) == read + Lines(appended)
  {
    assert AfterLastLineWrite(loaded, record, false) == loaded;
    ResumeAfterAppend(before, appended, MarkerOf(loaded).value, i);
  }

  // ---------------------------------------------------------------------
  // One run

  /** What the environment of one run provides: whether the event logger could
      be set up, what `load_state` returned, the log file, whether the state
      write succeeds, and how the two remediation commands end. */
  datatype LogRunInputs = LogRunInputs(
    loggerReady: bool, loaded: Loaded, log: LogFile, writeOk: bool, kill: Outcome, cancel: Outcome)

  /** The lines the run reads. */
  function NewLines(inputs: LogRunInputs): seq<string>
    requires inputs.log.Present?
  {
    LinesFrom(inputs.log.text, ResumeOffset(inputs.log, MarkerOf(inputs.loaded)))
  }

  /** The run remediates: it read the log and a new line holds a token. */
  predicate Alerting(setting: string, inputs: LogRunInputs) {
    inputs.loggerReady && inputs.log.Present? && AnyLineMatches(NewLines(inputs), CleanLevels(setting))
  }

  /** `main`: returns 1 when the run cannot start or cannot read the log, 0
      when nothing needs doing or every remediation step succeeded, and 2
      when a remediation step failed. The state is written before any
      remediation, a failed write does not stop the run, and the ladder runs
      exactly when a new line holds a token. */
  method RunLogMonitor(setting: string, inputs: LogRunInputs) returns (status: int, effects: seq<Effect>, events: seq<Event>)
    ensures status == 0 || status == 1 || status == 2
    ensures status == 1 <==> !inputs.loggerReady || !inputs.log.Present?
    ensures status == 0 <==>
      status != 1 && (!Alerting(setting, inputs) || (Succeeded(inputs.kill) && Succeeded(inputs.cancel)))
    ensures status == 1 ==> effects == []
    ensures status != 1 ==>
      effects == [WriteState(LastLineRecord(PersistedLine(MarkerOf(inputs.loaded), LastOrEmpty(NewLines(inputs)))), inputs.writeOk)]
                 + (if Alerting(setting, inputs) then LadderEffects(inputs.kill, inputs.cancel) else [])
    ensures CancelOnlyAfterKill(effects)
    ensures PersistBeforeRemediation(effects)
    ensures !inputs.loggerReady ==> events == []
    ensures inputs.loggerReady && !inputs.log.Present? ==> events == [RunStart, ReadFailed]
    ensures status != 1 ==>
      events == [RunStart] + ((if inputs.writeOk then [] else [StateWriteFailed])
                + (if Alerting(setting, inputs) then [AlertsDetected] + LadderEvents(inputs.kill, inputs.cancel)
                   else [NoAlertsInNewLines]))
  {
    var levels := CleanLevels(setting);
    if !inputs.loggerReady {
      return 1, [], [];
    }
    var marker := MarkerOf(inputs.loaded);
    var startOffset := DetermineStartOffset(inputs.log, marker);
    var scan := ScanNewLines(inputs.log, startOffset, levels);
    if scan.Failure? {
      return 1, [], [RunStart, ReadFailed];
    }
    assert scan.value.lastLineRead == LastOrEmpty(NewLines(inputs));
    assert scan.value.matched <==> Alerting(setting, inputs);
    var tailEvents;
    status, effects, tailEvents := PersistAndRespond(LastLineRecord(PersistedLine(marker, scan.value.lastLineRead)),
                                                     inputs.writeOk, scan.value.matched,
                                                     NoAlertsInNewLines, AlertsDetected, inputs.kill, inputs.cancel);
    events := [RunStart] + tailEvents;
  }
}
