/** Delta-window computation (`load_delta_data`). USGS asks for events
    updated after the newest stored revision marker less a seven-day
    look-back; PRSN fills the catalogue form's start fields from fixed
    character positions of the newest stored timestamp's text and its end
    fields from today's date at 23:59. */
module Window {
  import opened Events
  import opened Text

  /** `datetime.timedelta(7)`, in seconds. */
  const LookBackSeconds: int := 7 * 24 * 60 * 60

  /** `None - timedelta` raises TypeError on an empty table; `int(text)`
      raises ValueError on a malformed field. */
  datatype WindowError = NoStoredData | NotAnInteger

  // ------------------------------------------------------------------ USGS

  /** `SELECT max(updated_datetime) FROM eq_data`: NULL markers are skipped,
      and a table without markers yields NULL. */
  function MaxUpdated(rows: seq<Event>): (m: Option<int>)
    ensures m.None? <==> forall i :: 0 <= i < |rows| ==> rows[i].updated.None?
    ensures m.Some? ==> exists i :: 0 <= i < |rows| && rows[i].updated == Some(m.value)
    ensures m.Some? ==> forall i :: 0 <= i < |rows| && rows[i].updated.Some? ==> rows[i].updated.value <= m.value
  {
    if rows == [] then None
    else
      var rest := MaxUpdated(rows[1..]);
      assert forall i :: 1 <= i < |rows| ==> rows[i] == rows[1..][i - 1];
      match rows[0].updated
      case None => rest
      case Some(u) => if rest.Some? && rest.value > u then rest else Some(u)
  }

  /** The `updatedafter` cursor: the newest stored marker minus seven days.
      It lies exactly the look-back below some stored marker and no stored
      marker is more than the look-back above it. */
  function UsgsStart(rows: seq<Event>): (r: Result<int, WindowError>)
    ensures r.Err? <==> forall i :: 0 <= i < |rows| ==> rows[i].updated.None?
    ensures r.Ok? ==> exists i :: 0 <= i < |rows| && rows[i].updated == Some(r.value + LookBackSeconds)
    ensures r.Ok? ==> forall i :: 0 <= i < |rows| && rows[i].updated.Some? ==>
      rows[i].updated.value - LookBackSeconds <= r.value
  {
    match MaxUpdated(rows)
    case None => Err(NoStoredData)
    case Some(m) => Ok(m - LookBackSeconds)
  }

  // ------------------------------------------------------------------ PRSN

  /** Python `s[i:j]` for `0 <= i <= j`: indices past the end are clamped. */
  function Slice(s: string, i: nat, j: nat): (r: string)
    requires i <= j
    ensures j <= |s| ==> r == s[i..j]
    ensures |s| < i ==> r == []
    ensures i <= |s| < j ==> r == s[i..]
  {
    if j <= |s| then s[i..j] else if i <= |s| then s[i..] else []
  }

  /** `str(int(text))`: the field without leading zeros. */
  function IntField(text: string): (r: Result<string, WindowError>)
    ensures r.Err? <==> ParseInt(text).None?
  {
    match ParseInt(text)
    case None => Err(NotAnInteger)
    case Some(v) => Ok(IntToString(v))
  }

  /** The five values chosen in the catalogue form for one end of the window. */
  datatype Fields = Fields(year: string, month: string, day: string, hour: string, minute: string)

  datatype Window = Window(start: Fields, end: Fields)

  /** Start fields from `str(max(date_time))`: chars [0,4) as they are, then
      the integer values of chars [5,7), [8,10), [11,13) and [14,16). */
  function PrsnStart(last: string): (r: Result<Fields, WindowError>)
    ensures r.Ok? ==> r.value.year == Slice(last, 0, 4)
    ensures r.Ok? ==> IntField(Slice(last, 5, 7)) == Ok(r.value.month) && IntField(Slice(last, 8, 10)) == Ok(r.value.day)
    ensures r.Ok? ==> IntField(Slice(last, 11, 13)) == Ok(r.value.hour) && IntField(Slice(last, 14, 16)) == Ok(r.value.minute)
    ensures r.Err? <==> ParseInt(Slice(last, 5, 7)).None? || ParseInt(Slice(last, 8, 10)).None? ||
                        ParseInt(Slice(last, 11, 13)).None? || ParseInt(Slice(last, 14, 16)).None?
  {
    var month := IntField(Slice(last, 5, 7));
    var day := IntField(Slice(last, 8, 10));
    var hour := IntField(Slice(last, 11, 13));
    var minute := IntField(Slice(last, 14, 16));
    if month.Err? || day.Err? || hour.Err? || minute.Err? then Err(NotAnInteger)
    else Ok(Fields(Slice(last, 0, 4), month.value, day.value, hour.value, minute.value))
  }

  /** End fields from today's timestamp text: its date, at 23:59. */
  function PrsnEnd(now: string): (r: Result<Fields, WindowError>)
    ensures r.Ok? ==> r.value.year == Slice(now, 0, 4) && r.value.hour == "23" && r.value.minute == "59"
    ensures r.Ok? ==> IntField(Slice(now, 5, 7)) == Ok(r.value.month) && IntField(Slice(now, 8, 10)) == Ok(r.value.day)
    ensures r.Err? <==> ParseInt(Slice(now, 5, 7)).None? || ParseInt(Slice(now, 8, 10)).None?
  {
    var month := IntField(Slice(now, 5, 7));
    var day := IntField(Slice(now, 8, 10));
    if month.Err? || day.Err? then Err(NotAnInteger)
    else Ok(Fields(Slice(now, 0, 4), month.value, day.value, "23", "59"))
  }

  /** The PRSN form window; `now` is the wall-clock timestamp text. */
  function PrsnWindow(last: string, now: string): (r: Result<Window, WindowError>)
    ensures r.Ok? <==> PrsnStart(last).Ok? && PrsnEnd(now).Ok?
    ensures r.Ok? ==> r.value.start == PrsnStart(last).value && r.value.end == PrsnEnd(now).value
    ensures r.Ok? ==> r.value.end.hour == "23" && r.value.end.minute == "59"
    ensures PrsnStart(last).Err? ==> r == Err(PrsnStart(last).error)
    ensures PrsnStart(last).Ok? && PrsnEnd(now).Err? ==> r == Err(PrsnEnd(now).error)
  {
    match PrsnStart(last)
    case Err(e) => Err(e)
    case Ok(start) =>
      match PrsnEnd(now)
      case Err(e) => Err(e)
      case Ok(end) => Ok(Window(start, end))
  }

  /** A stored `datetime` value, as MySQL returns it. */
  datatype DateTime = DateTime(year: nat, month: nat, day: nat, hour: nat, minute: nat, second: nat)

  predicate Renderable(t: DateTime)
  {
    t.year < 10000 && t.month < 100 && t.day < 100 && t.hour < 100 && t.minute < 100 && t.second < 100
  }

  /** `str(t)` for a value without microseconds: "YYYY-MM-DD HH:MM:SS". */
  function Str(t: DateTime): (s: string)
    requires Renderable(t)
    ensures |s| == 19
  {
    Pad4(t.year) + "-" + Pad2(t.month) + "-" + Pad2(t.day) + " " +
    Pad2(t.hour) + ":" + Pad2(t.minute) + ":" + Pad2(t.second)
  }

  lemma StrPositions(t: DateTime)
    requires Renderable(t)
    ensures Slice(Str(t), 0, 4) == Pad4(t.year)
    ensures Slice(Str(t), 5, 7) == Pad2(t.month)
    ensures Slice(Str(t), 8, 10) == Pad2(t.day)
    ensures Slice(Str(t), 11, 13) == Pad2(t.hour)
    ensures Slice(Str(t), 14, 16) == Pad2(t.minute)
  {
    var s := Str(t);
    assert s[0..4] == Pad4(t.year);
    assert s[5..7] == Pad2(t.month);
    assert s[8..10] == Pad2(t.day);
    assert s[11..13] == Pad2(t.hour);
    assert s[14..16] == Pad2(t.minute);
  }

  /** A zero-padded field reads back as its value without leading zeros. */
  lemma IntFieldOfPad2(n: nat)
    requires n < 100
    ensures IntField(Pad2(n)) == Ok(NatToString(n))
  {
    ParsePad2(n);
  }

  /** The fixed positions read back the stored value: the start fields are its
      year as four digits and its month, day, hour and minute as integers
      without leading zeros. */
  lemma PrsnStartOfStored(t: DateTime)
    requires Renderable(t)
    ensures PrsnStart(Str(t)) ==
      Ok(Fields(Pad4(t.year), NatToString(t.month), NatToString(t.day), NatToString(t.hour), NatToString(t.minute)))
  {
    var s := Str(t);
    StrPositions(t);
    IntFieldOfPad2(t.month);
    IntFieldOfPad2(t.day);
    IntFieldOfPad2(t.hour);
    IntFieldOfPad2(t.minute);
    assert IntField(Slice(s, 5, 7)) == Ok(NatToString(t.month));
    assert IntField(Slice(s, 8, 10)) == Ok(NatToString(t.day));
    assert IntField(Slice(s, 11, 13)) == Ok(NatToString(t.hour));
    assert IntField(Slice(s, 14, 16)) == Ok(NatToString(t.minute));
  }

  /** Today's date at 23:59 ends the window. The wall-clock text is
      `str(datetime)`, which carries a ".ffffff" microseconds part `frac`
      except at a whole second; only the first ten characters matter. */
  lemma PrsnEndOfNow(t: DateTime, frac: string)
    requires Renderable(t)
    ensures PrsnEnd(Str(t) + frac) == Ok(Fields(Pad4(t.year), NatToString(t.month), NatToString(t.day), "23", "59"))
  {
    var s := Str(t) + frac;
    StrPositions(t);
    assert s[0..4] == Str(t)[0..4];
    assert s[5..7] == Str(t)[5..7];
    assert s[8..10] == Str(t)[8..10];
    IntFieldOfPad2(t.month);
    IntFieldOfPad2(t.day);
    assert IntField(Slice(s, 5, 7)) == Ok(NatToString(t.month));
    assert IntField(Slice(s, 8, 10)) == Ok(NatToString(t.day));
  }

  /** A window read from a stored timestamp and today's clock text starts at
      the stored minute and ends today at 23:59. */
  lemma PrsnWindowOfStored(last: DateTime, now: DateTime, frac: string)
    requires Renderable(last) && Renderable(now)
    ensures PrsnWindow(Str(last), Str(now) + frac) == Ok(Window(
      Fields(Pad4(last.year), NatToString(last.month), NatToString(last.day), NatToString(last.hour), NatToString(last.minute)),
      Fields(Pad4(now.year), NatToString(now.month), NatToString(now.day), "23", "59")))
  {
    PrsnStartOfStored(last);
    PrsnEndOfNow(now, frac);
  }

  /** An empty table gives `str(None) == "None"`, whose month field is empty:
      `int("")` fails. */
  lemma PrsnStartOfEmptyTable()
    ensures PrsnStart("None").Err?
  {
    assert Slice("None", 5, 7) == [];
  }

  /** The id of a catalogue timestamp in this layout is its run of digits. */
  lemma PrsnIdOfStored(t: DateTime)
    requires Renderable(t)
    ensures PrsnId(Str(t)) ==
      Pad4(t.year) + Pad2(t.month) + Pad2(t.day) + Pad2(t.hour) + Pad2(t.minute) + Pad2(t.second)
  {
    PrsnIdOfTimestamp(Pad4(t.year), Pad2(t.month), Pad2(t.day), Pad2(t.hour), Pad2(t.minute), Pad2(t.second));
  }
}
