/** The tail of `load_delta_data`: once a source's rows are fetched they are
    cleaned, tagged with regions, validated and merged. The validation verdict
    is only reported: the merge runs whatever it says. */
module Pipeline {
  import opened Events
  import opened Clean
  import opened Regions
  import opened Merge

  /** What the fetcher returned for the window. */
  datatype RawBatch = UsgsBatch(usgsRows: seq<UsgsRaw>) | PrsnBatch(prsnRows: seq<PrsnRaw>)

  function SourceOf(raw: RawBatch): Source
  {
    match raw
    case UsgsBatch(_) => Usgs
    case PrsnBatch(_) => Prsn
  }

  /** `clean_data(df, source)`. */
  function CleanBatch(raw: RawBatch, p: Parsers): (r: Result<seq<Event>, CleanError>)
    ensures raw.UsgsBatch? ==> r == Ok(CleanUsgs(raw.usgsRows))
    ensures raw.PrsnBatch? ==> r == CleanPrsn(raw.prsnRows, p)
    ensures r.Ok? ==> forall e :: e in r.value ==> e.mag > 0.0 && e.region == None
  {
    match raw
    case UsgsBatch(rows) => Ok(CleanUsgs(rows))
    case PrsnBatch(rows) => CleanPrsn(rows, p)
  }

  /** Clean, tag, validate, merge. A cleaning failure stops the run before
      the store is touched; a failed validation does not. */
  method LoadDelta(store: Store, raw: RawBatch, p: Parsers, regions: seq<Region>, within: Within)
    returns (r: Result<(Verdict, Report), CleanError>)
    modifies store
    ensures CleanBatch(raw, p).Err? ==>
      r.Err? && store.stage == old(store.stage) && store.final == old(store.final)
    ensures CleanBatch(raw, p).Ok? ==>
      var events := CleanBatch(raw, p).value;
      var batch := TagAll(events, regions, within);
      && r.Ok?
      && r.value.0 == Validate(events, batch)
      && store.stage == batch
      && store.final == MergeResult(old(store.final), batch, SourceOf(raw))
      && r.value.1 == ReportOf(|old(store.final)|, |store.final|)
    ensures r.Ok? && r.value.0 != Duplicates && UniqueIds(old(store.final)) ==> UniqueIds(store.final)
  {
    var cleaned := CleanBatch(raw, p);
    if cleaned.Err? {
      return Err(cleaned.error);
    }
    var tagged, verdict := Intersections(cleaned.value, regions, within);
    var report := store.Merge(tagged, SourceOf(raw));
    r := Ok((verdict, report));
  }
}
