/** The state file as the controllers see it: `load_state` either yields the
    parsed JSON document or nothing (missing file, unparsable content), and
    `atomic_write_state` either replaces the whole document or leaves the
    previous one in place. */
module StateStore {
  import opened Wrappers

  /** A JSON value stored under a key; only strings matter to the controllers. */
  datatype JsonValue = JString(s: string) | JNonString

  /** What `load_state` returned. */
  datatype Loaded =
    | NoState                                 // None: missing file or unparsable JSON
    | NonObject                               // valid JSON that is not an object
    | Object(fields: map<string, JsonValue>)

  /** The note the spread watchdog persists. */
  datatype SpreadNote =
    | InsufficientBookDepth
    | BookSummary(bestBid: real, bestAsk: real, spreadPercent: real, thresholdPercent: real,
                  buys: nat, sells: nat)

  /** The record a run writes: `{"last_line": ...}` or `{"state": ...}`. */
  datatype StateRecord = LastLineRecord(lastLine: string) | SpreadRecord(note: SpreadNote)

  /** The previous marker: the "last_line" entry when the loaded state is an
      object holding a string there, otherwise none. A non-string entry is
      never equal to a line of text, so it resumes exactly like no marker. */
  function MarkerOf(loaded: Loaded): (marker: Option<string>)
    ensures marker.Some? <==> loaded.Object? && "last_line" in loaded.fields && loaded.fields["last_line"].JString?
    ensures marker.Some? ==> marker.value == loaded.fields["last_line"].s
  {
    if loaded.Object? && "last_line" in loaded.fields && loaded.fields["last_line"].JString?
    then Some(loaded.fields["last_line"].s)
    else None
  }

  /** What the next run loads after this run wrote `{"last_line": lastLine}`:
      the new document when the atomic write succeeded, the old one otherwise. */
  function AfterLastLineWrite(previous: Loaded, lastLine: string, written: bool): (next: Loaded)
    ensures written ==> MarkerOf(next) == Some(lastLine)
    ensures !written ==> next == previous
  {
    if written then Object(map["last_line" := JString(lastLine)]) else previous
  }
}
