/** The canonical seismic-event row shared by both catalogues (USGS and
    PRSN), with the table-level notions every other module uses: the set of
    ids of a table and the natural-key invariant "no two rows share an id". */
module Events {

  datatype Option<T> = None | Some(value: T)

  datatype Result<T, E> = Ok(value: T) | Err(error: E)

  /** One row of a cleaned, staged or final table. Timestamps are whole
      seconds since the Unix epoch. `updated`, `title` and `url` exist only
      for USGS rows; `region` is absent until the row is tagged. */
  datatype Event = Event(
    id: string,
    dateTime: int,
    updated: Option<int>,
    title: Option<string>,
    url: Option<string>,
    mag: real,
    magType: string,
    sources: string,
    lat: real,
    lon: real,
    depth: real,
    region: Option<string>)

  /** The ids present in a table. */
  function Ids(rows: seq<Event>): set<string>
  {
    set e | e in rows :: e.id
  }

  lemma IdOf(rows: seq<Event>, k: nat)
    requires k < |rows|
    ensures rows[k].id in Ids(rows)
  {
    assert rows[k] in rows;
  }

  /** The natural-key invariant: `id` identifies a row. */
  predicate UniqueIds(rows: seq<Event>)
  {
    forall i, j | 0 <= i < |rows| && 0 <= j < |rows| :: rows[i].id == rows[j].id ==> i == j
  }

  /** Some id occurs on two different rows (pandas `id.duplicated().any()`). */
  predicate HasDuplicateIds(rows: seq<Event>)
  {
    exists i, j | 0 <= i < j < |rows| :: rows[i].id == rows[j].id
  }

  lemma UniqueIdsIffNoDuplicates(rows: seq<Event>)
    ensures UniqueIds(rows) <==> !HasDuplicateIds(rows)
  {
    if !UniqueIds(rows) {
      var i, j :| 0 <= i < |rows| && 0 <= j < |rows| && rows[i].id == rows[j].id && i != j;
      if i < j {
        assert HasDuplicateIds(rows);
      } else {
        assert rows[j].id == rows[i].id;
      }
    }
  }
}
