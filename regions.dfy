/** Region tagging (`get_intersections`): for every region, the events that
    lie within its polygon are copied with the region's name and appended to
    one table; a validation pass then reports ids tagged more than once,
    otherwise ids tagged never, otherwise no issue. The point-in-polygon test
    is floating-point geometry and enters as the parameter `within`. */
module Regions {
  import opened Events

  datatype Point = Point(lon: real, lat: real)

  /** A row of `pr_regions`: a name and the polygon ring parsed from text. */
  datatype Region = Region(name: string, ring: seq<Point>)

  /** The geometric test `gdf.within(polygon)` for one event. */
  type Within = (Event, seq<Point>) -> bool

  /** The three messages of the validation pass. */
  datatype Verdict = Duplicates | Unassigned | NoIssues

  predicate HasName(regions: seq<Region>, name: string)
  {
    exists k :: 0 <= k < |regions| && regions[k].name == name
  }

  lemma HasNameTail(regions: seq<Region>, name: string)
    requires HasName(regions, name) && regions[0].name != name
    ensures HasName(regions[1..], name)
  {
    var k :| 0 <= k < |regions| && regions[k].name == name;
    assert regions[1..][k - 1].name == name;
  }

  /** `regions.loc[regions.Name == name]` followed by row 0. */
  function PolygonOf(regions: seq<Region>, name: string): seq<Point>
    requires HasName(regions, name)
  {
    if regions[0].name == name then regions[0].ring
    else
      HasNameTail(regions, name);
      PolygonOf(regions[1..], name)
  }

  /** The ring looked up for a name is that of the first region with the name. */
  lemma {:induction false} PolygonOfFirst(regions: seq<Region>, name: string)
    requires HasName(regions, name)
    ensures exists k :: 0 <= k < |regions| && regions[k].name == name && regions[k].ring == PolygonOf(regions, name) &&
                        (forall k' :: 0 <= k' < k ==> regions[k'].name != name)
  {
    if regions[0].name != name {
      HasNameTail(regions, name);
      PolygonOfFirst(regions[1..], name);
      var k1 :| 0 <= k1 < |regions| - 1 && regions[1..][k1].name == name &&
                regions[1..][k1].ring == PolygonOf(regions[1..], name) &&
                (forall k' :: 0 <= k' < k1 ==> regions[1..][k'].name != name);
      assert regions[k1 + 1].ring == PolygonOf(regions, name);
      forall k' | 0 <= k' < k1 + 1
        ensures regions[k'].name != name
      {
        if k' > 0 {
          assert regions[k'] == regions[1..][k' - 1];
        }
      }
    }
  }

  /** With distinct region names every region is tested against its own ring. */
  lemma PolygonOfDistinct(regions: seq<Region>, j: nat)
    requires j < |regions|
    requires forall a, b :: 0 <= a < b < |regions| ==> regions[a].name != regions[b].name
    ensures PolygonOf(regions, regions[j].name) == regions[j].ring
  {
    assert HasName(regions, regions[j].name);
    PolygonOfFirst(regions, regions[j].name);
  }

  /** `gdf.loc[gdf.within(ring)]` with column `region` set to `name`. */
  function Matches(events: seq<Event>, name: string, ring: seq<Point>, within: Within): (r: seq<Event>)
    ensures |r| <= |events|
    ensures forall t :: t in r <==> exists e :: e in events && within(e, ring) && t == e.(region := Some(name))
  {
    if events == [] then []
    else
      (if within(events[0], ring) then [events[0].(region := Some(name))] else []) +
      Matches(events[1..], name, ring, within)
  }

  /** The accumulated table after the loop has visited the first `k` regions. */
  function Tagged(events: seq<Event>, regions: seq<Region>, within: Within, k: nat): seq<Event>
    requires k <= |regions|
  {
    if k == 0 then []
    else
      var name := regions[k - 1].name;
      assert HasName(regions, name);
      Tagged(events, regions, within, k - 1) + Matches(events, name, PolygonOf(regions, name), within)
  }

  function TagAll(events: seq<Event>, regions: seq<Region>, within: Within): seq<Event>
  {
    Tagged(events, regions, within, |regions|)
  }

  /** Whether the region at position `j` claims event `e`. */
  predicate Claims(regions: seq<Region>, within: Within, j: nat, e: Event)
    requires j < |regions|
  {
    assert HasName(regions, regions[j].name);
    within(e, PolygonOf(regions, regions[j].name))
  }

  /** How many of the first `k` regions claim event `e`. */
  function MatchCount(e: Event, regions: seq<Region>, within: Within, k: nat): (n: nat)
    requires k <= |regions|
    ensures n <= k
  {
    if k == 0 then 0
    else MatchCount(e, regions, within, k - 1) + (if Claims(regions, within, k - 1, e) then 1 else 0)
  }

  /** Row `t` is event `i` labelled by region `j`, which claims it. */
  predicate LabelOf(events: seq<Event>, regions: seq<Region>, within: Within, i: int, j: int, t: Event)
  {
    && 0 <= i < |events| && 0 <= j < |regions|
    && Claims(regions, within, j, events[i])
    && t == events[i].(region := Some(regions[j].name))
  }

  /** The rows the pass over region `j` adds are the events it claims,
      labelled with its name. */
  lemma MatchesOfRegion(events: seq<Event>, regions: seq<Region>, within: Within, j: nat, t: Event)
    requires j < |regions|
    ensures HasName(regions, regions[j].name)
    ensures t in Matches(events, regions[j].name, PolygonOf(regions, regions[j].name), within) <==>
      exists i :: LabelOf(events, regions, within, i, j, t)
  {
    var name := regions[j].name;
    assert HasName(regions, name);
    var ring := PolygonOf(regions, name);
    if t in Matches(events, name, ring, within) {
      var e :| e in events && within(e, ring) && t == e.(region := Some(name));
      var i :| 0 <= i < |events| && events[i] == e;
      assert LabelOf(events, regions, within, i, j, t);
    }
    if exists i :: LabelOf(events, regions, within, i, j, t) {
      var i :| LabelOf(events, regions, within, i, j, t);
      assert events[i] in events;
    }
  }

  /** The pass over region `j` appends the events it claims to the table. */
  lemma TaggedStep(events: seq<Event>, regions: seq<Region>, within: Within, j: nat, t: Event)
    requires j < |regions|
    ensures t in Tagged(events, regions, within, j + 1) <==>
      t in Tagged(events, regions, within, j) || exists i :: LabelOf(events, regions, within, i, j, t)
  {
    var name := regions[j].name;
    MatchesOfRegion(events, regions, within, j, t);
    var m := Matches(events, name, PolygonOf(regions, name), within);
    assert Tagged(events, regions, within, j + 1) == Tagged(events, regions, within, j) + m;
  }

  /** Every tagged row is some claimed event labelled by a claiming region. */
  lemma {:induction false} TaggedSound(events: seq<Event>, regions: seq<Region>, within: Within, k: nat, t: Event)
    requires k <= |regions|
    requires t in Tagged(events, regions, within, k)
    ensures exists i, j :: j < k && LabelOf(events, regions, within, i, j, t)
  {
    var last := k - 1;
    TaggedStep(events, regions, within, last, t);
    if t in Tagged(events, regions, within, last) {
      TaggedSound(events, regions, within, last, t);
      var i, j :| j < last && LabelOf(events, regions, within, i, j, t);
      assert j < k;
    } else {
      var i :| LabelOf(events, regions, within, i, last, t);
      assert last < k;
    }
  }

  /** Regions are processed in order: later passes only append, so the
      table after `m` regions is a prefix of the table after `k >= m`. */
  lemma {:induction false} TaggedPrefix(events: seq<Event>, regions: seq<Region>, within: Within, m: nat, k: nat)
    requires m <= k <= |regions|
    ensures Tagged(events, regions, within, m) <= Tagged(events, regions, within, k)
  {
    if m < k {
      TaggedPrefix(events, regions, within, m, k - 1);
      var name := regions[k - 1].name;
      assert HasName(regions, name);
      var pass := Matches(events, name, PolygonOf(regions, name), within);
      var before := Tagged(events, regions, within, k - 1);
      assert Tagged(events, regions, within, k) == before + pass;
      assert before <= before + pass;
    }
  }

  /** Every claimed event, labelled by a claiming region, is a tagged row. */
  lemma TaggedComplete(events: seq<Event>, regions: seq<Region>, within: Within, k: nat, i: int, j: int, t: Event)
    requires k <= |regions| && j < k
    requires LabelOf(events, regions, within, i, j, t)
    ensures t in Tagged(events, regions, within, k)
  {
    TaggedStep(events, regions, within, j, t);
    TaggedPrefix(events, regions, within, j + 1, k);
  }

  /** The tagged table holds exactly the copies of claimed events, each
      labelled with the name of a region that claims it. */
  lemma TaggedMembership(events: seq<Event>, regions: seq<Region>, within: Within, k: nat, t: Event)
    requires k <= |regions|
    ensures t in Tagged(events, regions, within, k) <==> exists i, j :: j < k && LabelOf(events, regions, within, i, j, t)
  {
    if t in Tagged(events, regions, within, k) {
      TaggedSound(events, regions, within, k, t);
    }
    if exists i, j :: j < k && LabelOf(events, regions, within, i, j, t) {
      var i, j :| j < k && LabelOf(events, regions, within, i, j, t);
      TaggedComplete(events, regions, within, k, i, j, t);
    }
  }

  /** Every tagged row is an input event (same id) that now has a region. */
  lemma TaggedRows(events: seq<Event>, regions: seq<Region>, within: Within, k: nat)
    requires k <= |regions|
    ensures forall t :: t in Tagged(events, regions, within, k) ==> t.id in Ids(events) && t.region.Some?
  {
    forall t | t in Tagged(events, regions, within, k)
      ensures t.id in Ids(events) && t.region.Some?
    {
      TaggedMembership(events, regions, within, k, t);
      var i, j :| j < k && LabelOf(events, regions, within, i, j, t);
      IdOf(events, i);
    }
  }

  // ------------------------------------------------------------ id counts

  /** The number of rows carrying id `x`. */
  function CountId(rows: seq<Event>, x: string): nat
  {
    if rows == [] then 0 else (if rows[0].id == x then 1 else 0) + CountId(rows[1..], x)
  }

  lemma {:induction false} CountIdAppend(a: seq<Event>, b: seq<Event>, x: string)
    ensures CountId(a + b, x) == CountId(a, x) + CountId(b, x)
  {
    if a == [] {
      assert a + b == b;
    } else {
      assert (a + b)[0] == a[0];
      assert (a + b)[1..] == a[1..] + b;
      CountIdAppend(a[1..], b, x);
    }
  }

  lemma {:induction false} CountIdPositive(rows: seq<Event>, x: string)
    ensures CountId(rows, x) > 0 <==> x in Ids(rows)
  {
    if rows != [] {
      CountIdPositive(rows[1..], x);
      assert Ids(rows) == {rows[0].id} + Ids(rows[1..]) by {
        assert forall e :: e in rows <==> e == rows[0] || e in rows[1..];
      }
    }
  }

  /** Two positions with the same id make its count at least two. */
  lemma {:induction false} CountIdOfPair(rows: seq<Event>, i: nat, j: nat)
    requires i < j < |rows| && rows[i].id == rows[j].id
    ensures CountId(rows, rows[i].id) >= 2
  {
    if i == 0 {
      CountIdPositive(rows[1..], rows[j].id);
      assert rows[1..][j - 1] == rows[j];
    } else {
      CountIdOfPair(rows[1..], i - 1, j - 1);
    }
  }

  /** A count of two or more means the id is duplicated. */
  lemma {:induction false} DuplicatedOfCount(rows: seq<Event>, x: string)
    requires CountId(rows, x) >= 2
    ensures HasDuplicateIds(rows)
  {
    if rows[0].id == x {
      CountIdPositive(rows[1..], x);
      var e :| e in rows[1..] && e.id == x;
      var j :| 0 <= j < |rows| - 1 && rows[1..][j] == e;
      assert rows[0].id == rows[j + 1].id;
    } else {
      DuplicatedOfCount(rows[1..], x);
      var i, j :| 0 <= i < j < |rows| - 1 && rows[1..][i].id == rows[1..][j].id;
      assert rows[i + 1].id == rows[j + 1].id;
    }
  }

  /** With distinct event ids, one region's matches hold event `i` once if
      the region claims it and not at all otherwise. */
  lemma {:induction false} CountIdMatches(events: seq<Event>, name: string, ring: seq<Point>, within: Within, i: nat)
    requires UniqueIds(events) && i < |events|
    ensures CountId(Matches(events, name, ring, within), events[i].id) == if within(events[i], ring) then 1 else 0
  {
    var rest := Matches(events[1..], name, ring, within);
    var head: seq<Event> := if within(events[0], ring) then [events[0].(region := Some(name))] else [];
    assert Matches(events, name, ring, within) == head + rest;
    CountIdAppend(head, rest, events[i].id);
    if head != [] {
      assert head[1..] == [];
    }
    if i == 0 {
      CountIdPositive(rest, events[0].id);
    } else {
      assert events[1..][i - 1] == events[i];
      assert UniqueIds(events[1..]) by {
        forall a, b | 0 <= a < |events| - 1 && 0 <= b < |events| - 1 && events[1..][a].id == events[1..][b].id
          ensures a == b
        {
          assert events[a + 1].id == events[b + 1].id;
        }
      }
      CountIdMatches(events[1..], name, ring, within, i - 1);
    }
  }

  /** With distinct event ids, one more region adds one copy of an event's id
      if it claims the event and none otherwise. */
  lemma CountIdStep(events: seq<Event>, regions: seq<Region>, within: Within, k: nat, i: nat)
    requires UniqueIds(events) && i < |events| && 0 < k <= |regions|
    ensures CountId(Tagged(events, regions, within, k), events[i].id) ==
      CountId(Tagged(events, regions, within, k - 1), events[i].id) +
      (if Claims(regions, within, k - 1, events[i]) then 1 else 0)
  {
    var name := regions[k - 1].name;
    assert HasName(regions, name);
    var ring := PolygonOf(regions, name);
    var m := Matches(events, name, ring, within);
    assert Tagged(events, regions, within, k) == Tagged(events, regions, within, k - 1) + m;
    CountIdAppend(Tagged(events, regions, within, k - 1), m, events[i].id);
    CountIdMatches(events, name, ring, within, i);
  }

  /** With distinct event ids, the tagged table carries an event's id once per
      region that claims it: one row per (event, region) pair. */
  lemma {:induction false} CountIdTagged(events: seq<Event>, regions: seq<Region>, within: Within, k: nat, i: nat)
    requires UniqueIds(events) && i < |events| && k <= |regions|
    ensures CountId(Tagged(events, regions, within, k), events[i].id) == MatchCount(events[i], regions, within, k)
  {
    if k > 0 {
      CountIdTagged(events, regions, within, k - 1, i);
      CountIdStep(events, regions, within, k, i);
    }
  }

  /** How many (event, region) claims among the first `k` regions concern
      events carrying id `x`: the number of rows with that id the loop adds,
      whether or not input ids are distinct. */
  function ClaimsOfId(events: seq<Event>, regions: seq<Region>, within: Within, k: nat, x: string): (n: nat)
    requires k <= |regions|
    ensures (forall i :: 0 <= i < |events| ==> events[i].id != x) ==> n == 0
  {
    if events == [] then 0
    else (if events[0].id == x then MatchCount(events[0], regions, within, k) else 0) +
         ClaimsOfId(events[1..], regions, within, k, x)
  }

  lemma {:induction false} ClaimsOfIdZero(events: seq<Event>, regions: seq<Region>, within: Within, x: string)
    ensures ClaimsOfId(events, regions, within, 0, x) == 0
  {
    if events != [] {
      ClaimsOfIdZero(events[1..], regions, within, x);
    }
  }

  /** One more region adds, for id `x`, the rows with that id in its pass. */
  lemma {:induction false} ClaimsOfIdStep(events: seq<Event>, regions: seq<Region>, within: Within, k: nat, x: string)
    requires 0 < k <= |regions|
    ensures HasName(regions, regions[k - 1].name)
    ensures ClaimsOfId(events, regions, within, k, x) == ClaimsOfId(events, regions, within, k - 1, x) +
      CountId(Matches(events, regions[k - 1].name, PolygonOf(regions, regions[k - 1].name), within), x)
  {
    var name := regions[k - 1].name;
    assert HasName(regions, name);
    var ring := PolygonOf(regions, name);
    if events != [] {
      ClaimsOfIdStep(events[1..], regions, within, k, x);
      var rest := Matches(events[1..], name, ring, within);
      var head: seq<Event> := if within(events[0], ring) then [events[0].(region := Some(name))] else [];
      assert Matches(events, name, ring, within) == head + rest;
      CountIdAppend(head, rest, x);
      if head != [] {
        assert head[1..] == [];
      }
    }
  }

  /** Without any assumption on the input ids, the tagged table carries id
      `x` once per claim on an event with that id. */
  lemma {:induction false} CountIdTaggedById(events: seq<Event>, regions: seq<Region>, within: Within, k: nat, x: string)
    requires k <= |regions|
    ensures CountId(Tagged(events, regions, within, k), x) == ClaimsOfId(events, regions, within, k, x)
  {
    if k == 0 {
      ClaimsOfIdZero(events, regions, within, x);
    } else {
      CountIdTaggedById(events, regions, within, k - 1, x);
      ClaimsOfIdStep(events, regions, within, k, x);
      var name := regions[k - 1].name;
      var m := Matches(events, name, PolygonOf(regions, name), within);
      assert Tagged(events, regions, within, k) == Tagged(events, regions, within, k - 1) + m;
      CountIdAppend(Tagged(events, regions, within, k - 1), m, x);
    }
  }

  /** An event's claims count towards the claims of its id. */
  lemma {:induction false} ClaimsOfIdAtLeast(events: seq<Event>, regions: seq<Region>, within: Within, k: nat, i: nat)
    requires k <= |regions| && i < |events|
    ensures ClaimsOfId(events, regions, within, k, events[i].id) >= MatchCount(events[i], regions, within, k)
  {
    if i > 0 {
      assert events[1..][i - 1] == events[i];
      ClaimsOfIdAtLeast(events[1..], regions, within, k, i - 1);
    }
  }

  /** Two events sharing an id both count towards that id's claims. */
  lemma {:induction false} ClaimsOfIdPair(events: seq<Event>, regions: seq<Region>, within: Within, k: nat, i: nat, j: nat)
    requires k <= |regions| && i < j < |events| && events[i].id == events[j].id
    ensures ClaimsOfId(events, regions, within, k, events[i].id) >=
      MatchCount(events[i], regions, within, k) + MatchCount(events[j], regions, within, k)
  {
    assert events[1..][j - 1] == events[j];
    if i == 0 {
      ClaimsOfIdAtLeast(events[1..], regions, within, k, j - 1);
    } else {
      assert events[1..][i - 1] == events[i];
      ClaimsOfIdPair(events[1..], regions, within, k, i - 1, j - 1);
    }
  }

  // ----------------------------------------------------------- validation

  /** The validation pass: duplicated ids in the tagged table first, then
      input ids missing from it, else no issue. */
  function Validate(events: seq<Event>, tagged: seq<Event>): (v: Verdict)
    ensures v == Duplicates <==> !UniqueIds(tagged)
    ensures v == Unassigned <==> UniqueIds(tagged) && !(Ids(events) <= Ids(tagged))
    ensures v == NoIssues <==> UniqueIds(tagged) && Ids(events) <= Ids(tagged)
  {
    UniqueIdsIffNoDuplicates(tagged);
    assert (exists i :: 0 <= i < |events| && events[i].id !in Ids(tagged)) <==> !(Ids(events) <= Ids(tagged)) by {
      if !(Ids(events) <= Ids(tagged)) {
        var x :| x in Ids(events) && x !in Ids(tagged);
        var e :| e in events && e.id == x;
        var i :| 0 <= i < |events| && events[i] == e;
      }
      forall i | 0 <= i < |events|
        ensures events[i].id in Ids(events)
      {
        IdOf(events, i);
      }
    }
    if HasDuplicateIds(tagged) then Duplicates
    else if exists i :: 0 <= i < |events| && events[i].id !in Ids(tagged) then Unassigned
    else NoIssues
  }

  /** For input with distinct ids, the tagged table repeats an id exactly
      when some event is claimed by two or more regions. */
  lemma DuplicatesIffClaimedTwice(events: seq<Event>, regions: seq<Region>, within: Within)
    requires UniqueIds(events)
    ensures HasDuplicateIds(TagAll(events, regions, within)) <==>
      exists i :: 0 <= i < |events| && MatchCount(events[i], regions, within, |regions|) >= 2
  {
    var tagged := TagAll(events, regions, within);
    if HasDuplicateIds(tagged) {
      var a, b :| 0 <= a < b < |tagged| && tagged[a].id == tagged[b].id;
      CountIdOfPair(tagged, a, b);
      TaggedRows(events, regions, within, |regions|);
      assert tagged[a] in tagged;
      var e :| e in events && e.id == tagged[a].id;
      var i :| 0 <= i < |events| && events[i] == e;
      CountIdTagged(events, regions, within, |regions|, i);
    }
    if exists i :: 0 <= i < |events| && MatchCount(events[i], regions, within, |regions|) >= 2 {
      var i :| 0 <= i < |events| && MatchCount(events[i], regions, within, |regions|) >= 2;
      CountIdTagged(events, regions, within, |regions|, i);
      DuplicatedOfCount(tagged, events[i].id);
    }
  }

  /** For input with distinct ids the verdict is decided by how many regions
      claim each event: some event claimed twice or more gives Duplicates;
      otherwise some event claimed by none gives Unassigned; the run is clean
      exactly when every event is claimed by exactly one region. */
  lemma ValidateTagged(events: seq<Event>, regions: seq<Region>, within: Within)
    requires UniqueIds(events)
    ensures var v := Validate(events, TagAll(events, regions, within));
      && (v == Duplicates <==> exists i :: 0 <= i < |events| && MatchCount(events[i], regions, within, |regions|) >= 2)
      && (v == Unassigned <==>
            (forall i :: 0 <= i < |events| ==> MatchCount(events[i], regions, within, |regions|) <= 1) &&
            (exists i :: 0 <= i < |events| && MatchCount(events[i], regions, within, |regions|) == 0))
      && (v == NoIssues <==> forall i :: 0 <= i < |events| ==> MatchCount(events[i], regions, within, |regions|) == 1)
  {
    var tagged := TagAll(events, regions, within);
    forall i | 0 <= i < |events|
      ensures MatchCount(events[i], regions, within, |regions|) > 0 <==> events[i].id in Ids(tagged)
    {
      CountIdTagged(events, regions, within, |regions|, i);
      CountIdPositive(tagged, events[i].id);
    }
    DuplicatesIffClaimedTwice(events, regions, within);
  }

  /** For any input, the tagged table repeats an id exactly when some input
      id has two or more claims. */
  lemma DuplicatesIffIdClaimedTwice(events: seq<Event>, regions: seq<Region>, within: Within)
    ensures HasDuplicateIds(TagAll(events, regions, within)) <==>
      exists i :: 0 <= i < |events| && ClaimsOfId(events, regions, within, |regions|, events[i].id) >= 2
  {
    var tagged := TagAll(events, regions, within);
    if HasDuplicateIds(tagged) {
      var a, b :| 0 <= a < b < |tagged| && tagged[a].id == tagged[b].id;
      CountIdOfPair(tagged, a, b);
      TaggedRows(events, regions, within, |regions|);
      assert tagged[a] in tagged;
      var e :| e in events && e.id == tagged[a].id;
      var i :| 0 <= i < |events| && events[i] == e;
      CountIdTaggedById(events, regions, within, |regions|, events[i].id);
    }
    if exists i :: 0 <= i < |events| && ClaimsOfId(events, regions, within, |regions|, events[i].id) >= 2 {
      var i :| 0 <= i < |events| && ClaimsOfId(events, regions, within, |regions|, events[i].id) >= 2;
      CountIdTaggedById(events, regions, within, |regions|, events[i].id);
      DuplicatedOfCount(tagged, events[i].id);
    }
  }

  /** For any input, including events that share an id, the verdict is
      decided per id by its claims: some id with two or more claims gives
      Duplicates; otherwise some id with none gives Unassigned; the run is
      clean exactly when every input id has exactly one claim. */
  lemma ValidateById(events: seq<Event>, regions: seq<Region>, within: Within)
    ensures var v := Validate(events, TagAll(events, regions, within));
      && (v == Duplicates <==> exists i :: 0 <= i < |events| && ClaimsOfId(events, regions, within, |regions|, events[i].id) >= 2)
      && (v == Unassigned <==>
            (forall i :: 0 <= i < |events| ==> ClaimsOfId(events, regions, within, |regions|, events[i].id) <= 1) &&
            (exists i :: 0 <= i < |events| && ClaimsOfId(events, regions, within, |regions|, events[i].id) == 0))
      && (v == NoIssues <==> forall i :: 0 <= i < |events| ==> ClaimsOfId(events, regions, within, |regions|, events[i].id) == 1)
  {
    var tagged := TagAll(events, regions, within);
    forall i | 0 <= i < |events|
      ensures ClaimsOfId(events, regions, within, |regions|, events[i].id) > 0 <==> events[i].id in Ids(tagged)
    {
      CountIdTaggedById(events, regions, within, |regions|, events[i].id);
      CountIdPositive(tagged, events[i].id);
    }
    DuplicatesIffIdClaimedTwice(events, regions, within);
  }

  /** Two events that share an id (as colliding PRSN ids do), each inside
      some region, make the pass report Duplicates even when every event lies
      in exactly one region. */
  lemma CollidingIdsReported(events: seq<Event>, regions: seq<Region>, within: Within, i: nat, j: nat, ri: nat, rj: nat)
    requires i < j < |events| && events[i].id == events[j].id
    requires ri < |regions| && rj < |regions|
    requires Claims(regions, within, ri, events[i]) && Claims(regions, within, rj, events[j])
    ensures Validate(events, TagAll(events, regions, within)) == Duplicates
  {
    MatchCountAtLeastOne(events[i], regions, within, |regions|, ri);
    MatchCountAtLeastOne(events[j], regions, within, |regions|, rj);
    ClaimsOfIdPair(events, regions, within, |regions|, i, j);
    ValidateById(events, regions, within);
  }

  /** Two overlapping regions that both claim an event make the pass report
      Duplicates. */
  lemma OverlappingRegionsReported(events: seq<Event>, regions: seq<Region>, within: Within, i: nat, j1: nat, j2: nat)
    requires i < |events|
    requires j1 < j2 < |regions|
    requires Claims(regions, within, j1, events[i]) && Claims(regions, within, j2, events[i])
    ensures Validate(events, TagAll(events, regions, within)) == Duplicates
  {
    MatchCountAtLeastTwo(events[i], regions, within, |regions|, j1, j2);
    ClaimsOfIdAtLeast(events, regions, within, |regions|, i);
    ValidateById(events, regions, within);
  }

  lemma {:induction false} MatchCountAtLeastTwo(e: Event, regions: seq<Region>, within: Within, k: nat, j1: nat, j2: nat)
    requires j1 < j2 < k <= |regions|
    requires Claims(regions, within, j1, e) && Claims(regions, within, j2, e)
    ensures MatchCount(e, regions, within, k) >= 2
  {
    if j2 < k - 1 {
      MatchCountAtLeastTwo(e, regions, within, k - 1, j1, j2);
    } else {
      MatchCountAtLeastOne(e, regions, within, k - 1, j1);
    }
  }

  lemma {:induction false} MatchCountAtLeastOne(e: Event, regions: seq<Region>, within: Within, k: nat, j: nat)
    requires j < k <= |regions|
    requires Claims(regions, within, j, e)
    ensures MatchCount(e, regions, within, k) >= 1
  {
    if j < k - 1 {
      MatchCountAtLeastOne(e, regions, within, k - 1, j);
    }
  }

  /** The loop of `get_intersections` followed by its validation pass. */
  method Intersections(events: seq<Event>, regions: seq<Region>, within: Within)
    returns (tagged: seq<Event>, verdict: Verdict)
    ensures tagged == TagAll(events, regions, within)
    ensures verdict == Validate(events, tagged)
  {
    tagged := [];
    for k := 0 to |regions|
      invariant tagged == Tagged(events, regions, within, k)
    {
      var name := regions[k].name;
      assert HasName(regions, name);
      var ring := PolygonOf(regions, name);
      var pip := Matches(events, name, ring, within);
      tagged := tagged + pip;
    }
    verdict := Validate(events, tagged);
  }
}
