/** The decision flow of one run of the watcher, after a successful fetch:
    compare with the latest snapshot, and only when the page changed,
    extract both tables, diff them, record the new snapshot and report.
    Parsing the markup is a parameter (`parse`); fetching, the filesystem,
    printing and e-mail are not modelled. */
module Watcher {
  import opened Outcomes
  import opened ChangeDetection
  import opened Tables
  import opened Extraction
  import opened Diff

  /** The exception that ends a run before anything is recorded. */
  datatype RunError = ExtractFailed(cause: ExtractError) | DiffFailed(reason: DiffError)

  /** How a run ends: quietly (having recorded the first snapshot when
      there was none), with a report and the new snapshot recorded, or with
      an exception. */
  datatype RunOutcome =
    | Quiet(bootstrap: Option<string>)
    | Reported(diff: DiffResult, snapshot: string)
    | Crashed(error: RunError)

  /** Lines 103-109 of the run, for a fetched page `raw`. The older table
      is extracted before the newer one, so its failure is the one raised
      when both fail. */
  function CheckPage(raw: string, latest: Option<string>, refetched: string,
                     parse: string -> Page): (o: RunOutcome)
    ensures o.Quiet? <==> DataIsTheSame(raw, latest, refetched).same
    ensures latest.None? ==> o == Quiet(Some(refetched))
    ensures latest.Some? && AgreeFrom(raw, latest.value, TimestampSkip) ==> o == Quiet(None)
    ensures o.Reported? ==> && latest.Some?
                            && !AgreeFrom(raw, latest.value, TimestampSkip)
                            && o.snapshot == raw
    ensures o.Crashed? && o.error.ExtractFailed? ==>
              RawContentToTable(parse(DataIsTheSame(raw, latest, refetched).oldRaw)).Err?
              || RawContentToTable(parse(raw)).Err?
    ensures var older := RawContentToTable(parse(DataIsTheSame(raw, latest, refetched).oldRaw));
            o.Crashed? && o.error.ExtractFailed? && older.Err? ==> o.error.cause == older.error
    ensures var older := RawContentToTable(parse(DataIsTheSame(raw, latest, refetched).oldRaw));
            var newer := RawContentToTable(parse(raw));
            o.Reported? ==> older.Ok? && newer.Ok? && GetDiffSpec(older.value, newer.value) == Ok(o.diff)
    ensures var older := RawContentToTable(parse(DataIsTheSame(raw, latest, refetched).oldRaw));
            var newer := RawContentToTable(parse(raw));
            (o.Crashed? && o.error.DiffFailed?) <==>
              && !DataIsTheSame(raw, latest, refetched).same && older.Ok? && newer.Ok?
              && GetDiffSpec(older.value, newer.value).Err?
  {
    var v := DataIsTheSame(raw, latest, refetched);
    if v.same then Quiet(v.recorded)
    else
      match RawContentToTable(parse(v.oldRaw))
      case Err(e) => Crashed(ExtractFailed(e))
      case Ok(older) =>
        match RawContentToTable(parse(raw))
        case Err(e) => Crashed(ExtractFailed(e))
        case Ok(newer) =>
          match GetDiffSpec(older, newer)
          case Err(e) => Crashed(DiffFailed(e))
          case Ok(d) => Reported(d, raw)
  }

  /** A stored snapshot that differs from the fetched page only within the
      first 200 characters is never reported and nothing is recorded. */
  lemma {:induction false} TimestampOnlyChangeIsQuiet(stamp: string, stored: string, body: string,
                                                      refetched: string, parse: string -> Page)
    requires |stamp| == TimestampSkip && |stored| == TimestampSkip
    ensures CheckPage(stamp + body, Some(stored + body), refetched, parse) == Quiet(None)
  {
    PrefixIgnored(stamp, stored, body, body, TimestampSkip);
    SameAfterSkipIsAgreement(stamp + body, stored + body, TimestampSkip);
  }

  /** When both snapshots yield tables carrying `Survey` and `Type`, a
      changed page is reported with their difference and the new snapshot
      is recorded. */
  lemma ChangedPageIsReported(raw: string, stored: string, refetched: string, parse: string -> Page)
    requires !AgreeFrom(raw, stored, TimestampSkip)
    requires RawContentToTable(parse(stored)).Ok? && RawContentToTable(parse(raw)).Ok?
    requires var older, newer := RawContentToTable(parse(stored)).value, RawContentToTable(parse(raw)).value;
             && SurveyName in older.columns && TypeName in older.columns
             && SurveyName in newer.columns && TypeName in newer.columns
    ensures var o := CheckPage(raw, Some(stored), refetched, parse);
            var older, newer := RawContentToTable(parse(stored)).value, RawContentToTable(parse(raw)).value;
            && o.Reported? && o.snapshot == raw
            && o.diff == GetDiffSpec(older, newer).value
  {
  }
}
