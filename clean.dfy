/** Record normalisation (`clean_data`): each catalogue's raw rows become
    canonical events. USGS rows carry millisecond epochs and a free-case
    magnitude type; PRSN rows carry a combined "mag magType" text and no id.
    Both drop non-positive magnitudes; PRSN also drops exact duplicates. */
module Clean {
  import opened Events
  import opened Text

  /** One feature of the USGS GeoJSON response, as extracted by the fetcher. */
  datatype UsgsRaw = UsgsRaw(
    id: string,
    timeMs: int,
    updatedMs: int,
    title: string,
    mag: real,
    magType: string,
    lon: real,
    lat: real,
    depth: real,
    sources: string,
    url: string)

  /** One row of the scraped PRSN catalogue table. */
  datatype PrsnRaw = PrsnRaw(
    utcTime: string,
    magText: string,
    lat: real,
    lon: real,
    depth: real,
    network: string)

  /** The text-to-value conversions pandas performs (`pd.to_numeric`,
      `pd.to_datetime`); they are not modelled and enter as parameters. */
  datatype Parsers = Parsers(number: string -> real, datetime: string -> int)

  /** `x.split()[1]` raised IndexError: some magnitude text has fewer than two tokens. */
  datatype CleanError = MissingMagType

  // ------------------------------------------------------------------ USGS

  /** A millisecond epoch rendered with "%Y-%m-%d %H:%M:%S" and read back:
      the whole second the instant falls in (pandas floors negative epochs). */
  function EpochSeconds(ms: int): (s: int)
    ensures s * 1000 <= ms < s * 1000 + 1000
  {
    ms / 1000
  }

  function NormalizeUsgs(r: UsgsRaw): (e: Event)
    ensures e.id == r.id && e.mag == r.mag && e.region == None
    ensures e.dateTime * 1000 <= r.timeMs < e.dateTime * 1000 + 1000
    ensures e.updated.Some? && e.updated.value * 1000 <= r.updatedMs < e.updated.value * 1000 + 1000
    ensures e.magType == Lower(r.magType)
    ensures e.lat == r.lat && e.lon == r.lon && e.depth == r.depth
    ensures e.sources == r.sources && e.title == Some(r.title) && e.url == Some(r.url)
  {
    Event(r.id, EpochSeconds(r.timeMs), Some(EpochSeconds(r.updatedMs)), Some(r.title), Some(r.url),
          r.mag, Lower(r.magType), r.sources, r.lat, r.lon, r.depth, None)
  }

  /** `df.loc[df.mag > 0]`. */
  function KeepPositive(rows: seq<Event>): (r: seq<Event>)
    ensures |r| <= |rows|
    ensures forall e :: e in r <==> e in rows && e.mag > 0.0
  {
    if rows == [] then []
    else (if rows[0].mag > 0.0 then [rows[0]] else []) + KeepPositive(rows[1..])
  }

  /** The filter keeps the survivors in their original order: it works on
      each part of a table separately. */
  lemma {:induction false} KeepPositiveAppend(a: seq<Event>, b: seq<Event>)
    ensures KeepPositive(a + b) == KeepPositive(a) + KeepPositive(b)
  {
    if a == [] {
      assert a + b == b;
    } else {
      assert (a + b)[0] == a[0];
      assert (a + b)[1..] == a[1..] + b;
      KeepPositiveAppend(a[1..], b);
    }
  }

  function MapUsgs(raw: seq<UsgsRaw>): (rows: seq<Event>)
    ensures |rows| == |raw|
    ensures forall i :: 0 <= i < |raw| ==> rows[i] == NormalizeUsgs(raw[i])
  {
    seq(|raw|, i requires 0 <= i < |raw| => NormalizeUsgs(raw[i]))
  }

  function CleanUsgs(raw: seq<UsgsRaw>): (r: seq<Event>)
    ensures |r| <= |raw|
    ensures forall e :: e in r ==> e.mag > 0.0 && e.region == None
    ensures forall e :: e in r <==> exists i :: 0 <= i < |raw| && raw[i].mag > 0.0 && e == NormalizeUsgs(raw[i])
  {
    var rows := MapUsgs(raw);
    assert forall e :: e in rows <==> exists i :: 0 <= i < |raw| && e == NormalizeUsgs(raw[i]);
    KeepPositive(rows)
  }

  lemma KeepPositiveSingle(e: Event)
    ensures KeepPositive([e]) == if e.mag > 0.0 then [e] else []
  {
    assert [e][1..] == [];
  }

  /** Cleaning works record by record and keeps the survivors in order: the
      cleaned concatenation is the concatenation of the cleaned parts. */
  lemma CleanUsgsAppend(a: seq<UsgsRaw>, b: seq<UsgsRaw>)
    ensures CleanUsgs(a + b) == CleanUsgs(a) + CleanUsgs(b)
  {
    assert MapUsgs(a + b) == MapUsgs(a) + MapUsgs(b);
    KeepPositiveAppend(MapUsgs(a), MapUsgs(b));
  }

  /** One record survives, normalised, exactly when its magnitude is positive. */
  lemma CleanUsgsSingle(r: UsgsRaw)
    ensures CleanUsgs([r]) == if r.mag > 0.0 then [NormalizeUsgs(r)] else []
  {
    assert MapUsgs([r]) == [NormalizeUsgs(r)];
    KeepPositiveSingle(NormalizeUsgs(r));
  }

  // ------------------------------------------------------------------ PRSN

  /** The first occurrence of every row, in order (`drop_duplicates`). */
  function Dedup(rows: seq<Event>): (r: seq<Event>)
    ensures |r| <= |rows|
    ensures forall e :: e in r <==> e in rows
    ensures forall i, j :: 0 <= i < j < |r| ==> r[i] != r[j]
  {
    if rows == [] then []
    else
      var p := Dedup(rows[..|rows| - 1]);
      var last := rows[|rows| - 1];
      assert forall e :: e in rows <==> e in rows[..|rows| - 1] || e == last;
      if last in p then p else p + [last]
  }

  /** Keeping first occurrences: later rows never reorder or drop what an
      earlier prefix already kept. */
  lemma {:induction false} DedupPrefix(a: seq<Event>, b: seq<Event>)
    ensures Dedup(a) <= Dedup(a + b)
    decreases |b|
  {
    if b == [] {
      assert a + b == a;
    } else {
      var ab := a + b;
      assert ab[..|ab| - 1] == a + b[..|b| - 1];
      DedupPrefix(a, b[..|b| - 1]);
    }
  }

  /** A table with no repeated row is left as it is. */
  lemma {:induction false} DedupDistinct(rows: seq<Event>)
    requires forall i, j :: 0 <= i < j < |rows| ==> rows[i] != rows[j]
    ensures Dedup(rows) == rows
  {
    if rows != [] {
      var init := rows[..|rows| - 1];
      DedupDistinct(init);
      assert rows[|rows| - 1] !in init;
      assert init + [rows[|rows| - 1]] == rows;
    }
  }

  predicate HasMagType(r: PrsnRaw)
  {
    |Split(r.magText)| >= 2
  }

  /** One PRSN row in canonical form (columns renamed, magnitude text split,
      synthetic id built from the timestamp text). */
  function NormalizePrsn(r: PrsnRaw, p: Parsers): (e: Event)
    requires HasMagType(r)
    ensures e.id == PrsnId(r.utcTime)
    ensures e.magType == Split(r.magText)[1]
    ensures e.mag == p.number(Split(r.magText)[0])
    ensures e.updated == None && e.title == None && e.url == None && e.region == None
    ensures e.lat == r.lat && e.lon == r.lon && e.depth == r.depth
    ensures e.sources == r.network && e.dateTime == p.datetime(r.utcTime)
  {
    var tokens := Split(r.magText);
    Event(PrsnId(r.utcTime), p.datetime(r.utcTime), None, None, None,
          p.number(tokens[0]), tokens[1], r.network, r.lat, r.lon, r.depth, None)
  }

  function MapPrsn(raw: seq<PrsnRaw>, p: Parsers): (rows: seq<Event>)
    requires forall i :: 0 <= i < |raw| ==> HasMagType(raw[i])
    ensures |rows| == |raw|
    ensures forall i :: 0 <= i < |raw| ==> rows[i] == NormalizePrsn(raw[i], p)
  {
    seq(|raw|, i requires 0 <= i < |raw| => NormalizePrsn(raw[i], p))
  }

  function CleanPrsn(raw: seq<PrsnRaw>, p: Parsers): (r: Result<seq<Event>, CleanError>)
    ensures r.Err? <==> exists i :: 0 <= i < |raw| && !HasMagType(raw[i])
    ensures r.Ok? ==> |r.value| <= |raw|
    ensures r.Ok? ==> forall e :: e in r.value ==> e.mag > 0.0 && e.region == None
    ensures r.Ok? ==> forall i, j :: 0 <= i < j < |r.value| ==> r.value[i] != r.value[j]
    ensures r.Ok? ==> forall e :: e in r.value <==>
      exists i :: 0 <= i < |raw| && e == NormalizePrsn(raw[i], p) && e.mag > 0.0
  {
    if exists i :: 0 <= i < |raw| && !HasMagType(raw[i]) then Err(MissingMagType)
    else
      var rows := MapPrsn(raw, p);
      assert forall e :: e in rows <==> exists i :: 0 <= i < |raw| && e == NormalizePrsn(raw[i], p);
      Ok(Dedup(KeepPositive(rows)))
  }

  /** Splitting "4.2 Md" gives magnitude text "4.2" and type "Md". */
  lemma NormalizePrsnSplitsMagnitude(r: PrsnRaw, p: Parsers, magText: string, magType: string)
    requires magText != [] && magType != []
    requires forall c :: c in magText ==> !IsSpace(c)
    requires forall c :: c in magType ==> !IsSpace(c)
    requires r.magText == magText + " " + magType
    ensures HasMagType(r)
    ensures NormalizePrsn(r, p).mag == p.number(magText)
    ensures NormalizePrsn(r, p).magType == magType
  {
    SplitPair(magText, magType);
  }

  /** Two positive, different rows both survive the filter and the
      deduplication, in order. */
  lemma FilterPair(ea: Event, eb: Event)
    requires ea.mag > 0.0 && eb.mag > 0.0 && ea != eb
    ensures Dedup(KeepPositive([ea, eb])) == [ea, eb]
  {
    assert [ea, eb] == [ea] + [eb];
    KeepPositiveAppend([ea], [eb]);
    KeepPositiveSingle(ea);
    KeepPositiveSingle(eb);
    DedupDistinct([ea, eb]);
  }

  /** Two well-formed, positive, different rows both survive, in order. */
  lemma CleanPrsnPair(a: PrsnRaw, b: PrsnRaw, p: Parsers)
    requires HasMagType(a) && HasMagType(b)
    requires NormalizePrsn(a, p).mag > 0.0 && NormalizePrsn(b, p).mag > 0.0
    requires NormalizePrsn(a, p) != NormalizePrsn(b, p)
    ensures CleanPrsn([a, b], p) == Ok([NormalizePrsn(a, p), NormalizePrsn(b, p)])
  {
    var raw := [a, b];
    assert forall i :: 0 <= i < |raw| ==> HasMagType(raw[i]);
    assert MapPrsn(raw, p) == [NormalizePrsn(a, p), NormalizePrsn(b, p)];
    FilterPair(NormalizePrsn(a, p), NormalizePrsn(b, p));
  }

  /** The PRSN id is not a key: two catalogue rows with the same timestamp
      text but different readings both survive cleaning with the same id. */
  lemma PrsnIdsMayCollide(a: PrsnRaw, b: PrsnRaw, p: Parsers)
    requires a.utcTime == b.utcTime
    requires HasMagType(a) && HasMagType(b)
    requires NormalizePrsn(a, p).mag > 0.0 && NormalizePrsn(b, p).mag > 0.0
    requires NormalizePrsn(a, p) != NormalizePrsn(b, p)
    ensures CleanPrsn([a, b], p).Ok?
    ensures var rows := CleanPrsn([a, b], p).value;
      |rows| == 2 && rows[0].id == rows[1].id && !UniqueIds(rows)
  {
    CleanPrsnPair(a, b, p);
    var rows := CleanPrsn([a, b], p).value;
    assert rows[0].id == rows[1].id;
  }
}
