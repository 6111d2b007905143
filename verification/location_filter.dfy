/**
 * `filterAndDisplayLocations`: the filter choices read from the page narrow
 * and re-rank the list of voting locations, stage by stage, and the result is
 * what `renderLocations` draws. Geocoding the typed address, `JSON.parse` and
 * the great-circle distance are parameters.
 */
module LocationFilter {
  import opened Wrappers
  import opened JsText
  import opened GeocodeCache
  import opened Ranking
  import opened Sequences

  /** A `Date`'s time value: milliseconds since the epoch, or NaN. */
  datatype Instant = Time(ms: int) | InvalidDate

  /** The fields of an Airtable record the filters read. A field that is
      missing (or, for `Date and Time`, empty) is None; `dateAndTime` holds
      what `new Date` makes of the field. */
  datatype Record = Record(
    id: string,
    borough: Option<string>,
    category: Option<string>,
    dateAndTime: Option<Instant>,
    zipCode: Option<int>,
    geocodeCache: Option<string>)

  /** The values of the filter controls. An empty date input is None; a
      non-empty one is what `new Date` makes of it. */
  datatype Criteria = Criteria(
    borough: string,
    zipcode: string,
    address: string,
    typeFilter: string,
    dateStart: Option<Instant>,
    dateEnd: Option<Instant>)

  const CommunityEvent: string := "Community Event"
  const Dedicated: string := "dedicated"

  // -------------------------------------------------------------------------
  // Borough and type

  /** `record.fields['Borough'] == boroughFilter`. */
  predicate InBorough(borough: string, x: Record)
  {
    x.borough == Some(borough)
  }

  /** The type selector: `dedicated` keeps every record that is not a
      community event (including one without a category); any other value
      keeps the community events. */
  predicate KeepsType(typeFilter: string, x: Record)
  {
    if typeFilter == Dedicated then x.category != Some(CommunityEvent)
    else x.category == Some(CommunityEvent)
  }

  /** The two type choices split any list between them. */
  lemma TypeChoicesPartition(s: seq<Record>, other: string)
    requires other != Dedicated
    ensures |Filter(s, (x: Record) => KeepsType(Dedicated, x))| + |Filter(s, (x: Record) => KeepsType(other, x))| == |s|
  {
    FilterPartition(s, (x: Record) => KeepsType(Dedicated, x), (x: Record) => KeepsType(other, x));
  }

  // -------------------------------------------------------------------------
  // Dates

  const MsPerDay: int := 86400000
  /** The largest time value a `Date` can hold (TimeClip). */
  const MaxTime: int := 8640000000000000

  /** The UTC day number of a time value. */
  function Day(t: int): int
  {
    t / MsPerDay
  }

  /** TimeClip: a time value outside the range a `Date` holds becomes NaN. */
  function TimeClip(t: int): Instant
  {
    if -MaxTime <= t <= MaxTime then Time(t) else InvalidDate
  }

  /** `setUTCHours(0, 0, 0, 0)`: midnight at the start of the same UTC day. */
  function StartOfDay(i: Instant): (r: Instant)
    ensures i.Time? && -MaxTime <= i.ms <= MaxTime ==> r == Time(Day(i.ms) * MsPerDay)
  {
    match i
    case Time(t) => TimeClip(t - t % MsPerDay)
    case InvalidDate => InvalidDate
  }

  /** `setUTCHours(23, 59, 59, 999)`: the last millisecond of the same UTC
      day. The last valid time value, `MaxTime`, starts a day whose last
      millisecond is past the range, so there the result is NaN. */
  function EndOfDay(i: Instant): (r: Instant)
    ensures i.Time? && -MaxTime <= i.ms < MaxTime ==> r == Time(Day(i.ms) * MsPerDay + MsPerDay - 1)
    ensures i == Time(MaxTime) ==> r == InvalidDate
  {
    match i
    case Time(t) => TimeClip(t - t % MsPerDay + MsPerDay - 1)
    case InvalidDate => InvalidDate
  }

  /** `a >= b` on two `Date`s: false when either is NaN. */
  predicate NotBefore(a: Instant, b: Instant)
  {
    a.Time? && b.Time? && a.ms >= b.ms
  }

  /** The date filter's test for one record. */
  predicate KeepsDate(start: Instant, end: Instant, x: Record)
  {
    if x.category == Some(CommunityEvent) && x.dateAndTime.Some? then
      var event := StartOfDay(x.dateAndTime.value);
      NotBefore(event, StartOfDay(start)) && NotBefore(EndOfDay(end), event)
    else x.category != Some(CommunityEvent)
  }

  /** A dated community event is kept exactly when its UTC day lies between
      the start day and the end day, both included. */
  lemma EventKeptByDay(start: int, end: int, x: Record)
    requires x.category == Some(CommunityEvent) && x.dateAndTime.Some? && x.dateAndTime.value.Time?
    requires -MaxTime <= start <= MaxTime && -MaxTime <= end < MaxTime
    requires -MaxTime <= x.dateAndTime.value.ms <= MaxTime
    ensures KeepsDate(Time(start), Time(end), x) <==>
      Day(start) <= Day(x.dateAndTime.value.ms) <= Day(end)
  {
    var e := Day(x.dateAndTime.value.ms);
    var s, f := Day(start), Day(end);
    assert e * MsPerDay >= s * MsPerDay <==> e >= s;
    assert e * MsPerDay <= f * MsPerDay + MsPerDay - 1 <==> e <= f by {
      if e > f {
        assert e * MsPerDay >= (f + 1) * MsPerDay;
      }
    }
  }

  /** An end date at the very last valid time value ends its day past the
      range, so the date filter keeps no community event at all. */
  lemma EndAtMaxTimeDropsEvents(start: Instant, x: Record)
    requires x.category == Some(CommunityEvent)
    ensures !KeepsDate(start, Time(MaxTime), x)
  {
  }

  /** Records that are not community events pass the date filter whatever
      the bounds; an event without a date never does, and neither does any
      event when a bound is not a valid date. */
  lemma DateFilterCases(start: Instant, end: Instant, x: Record)
    ensures x.category != Some(CommunityEvent) ==> KeepsDate(start, end, x)
    ensures x.category == Some(CommunityEvent) && x.dateAndTime.None? ==> !KeepsDate(start, end, x)
    ensures x.category == Some(CommunityEvent) && (start.InvalidDate? || end.InvalidDate?) ==> !KeepsDate(start, end, x)
  {
  }

  // -------------------------------------------------------------------------
  // Proximity

  function Abs(n: int): nat
  {
    if n < 0 then -n else n
  }

  /** `Math.abs(targetZip - (record.fields['Zip Code'] || 0))`. */
  function ZipDistance(target: int, x: Record): (r: Rank)
    ensures r.Finite? && r.d >= 0.0
    ensures r.d == 0.0 <==> x.zipCode.GetOr(0) == target
  {
    Finite(Abs(target - x.zipCode.GetOr(0)) as real)
  }

  function ZipKey(target: int): Record -> Rank
  {
    (x: Record) => ZipDistance(target, x)
  }

  /** The distance from the geocoded input to a record: `haversineFunction`
      called as `(input.lng, record.lng, input.lat, record.lat)` when the
      record's geocode cache decodes, and `Infinity` otherwise. */
  function AddressDistance(input: Coord, dist: (real, real, real, real) -> real,
                           parse: string -> Option<Json>, x: Record): Rank
  {
    match DecodeGeocodeCache(x.geocodeCache, parse)
    case Some(c) => Finite(dist(input.lng, c.lng, input.lat, c.lat))
    case None => Infinite
  }

  function AddressKey(input: Coord, dist: (real, real, real, real) -> real,
                      parse: string -> Option<Json>): Record -> Rank
  {
    (x: Record) => AddressDistance(input, dist, parse, x)
  }

  /** The zip stage's number: `parseInt(zipcodeFilter, 10)`, None for NaN. */
  function ZipTarget(zipcode: string): Option<int>
  {
    ParseInt(zipcode)
  }

  /** The zip stage keeps the ten records whose zip code is closest to the
      target, closest first, ties in list order; with ten or fewer it only
      reorders. */
  lemma ZipStageRanks(s: seq<Record>, target: int)
    ensures Sorted(Nearest(s, ZipKey(target)), ZipKey(target))
    ensures |Nearest(s, ZipKey(target))| == if |s| < Limit then |s| else Limit
    ensures forall x, y :: x in Nearest(s, ZipKey(target)) && y in multiset(s) - multiset(Nearest(s, ZipKey(target))) ==>
      Abs(target - x.zipCode.GetOr(0)) <= Abs(target - y.zipCode.GetOr(0))
  {
    var key := ZipKey(target);
    NearestKeepsClosest(s, key);
    forall x, y | x in Nearest(s, key) && y in multiset(s) - multiset(Nearest(s, key))
      ensures Abs(target - x.zipCode.GetOr(0)) <= Abs(target - y.zipCode.GetOr(0))
    {
      assert RankLe(key(x), key(y));
    }
  }

  /** The address stage ranks every record with decodable coordinates ahead
      of every record without: a record without coordinates is kept only
      when fewer than ten have them, and then all of those are kept. */
  lemma AddressStageRanks(s: seq<Record>, input: Coord, dist: (real, real, real, real) -> real,
                          parse: string -> Option<Json>)
    ensures var r := Nearest(s, AddressKey(input, dist, parse));
      forall i, j :: 0 <= i < j < |r| && DecodeGeocodeCache(r[j].geocodeCache, parse).Some? ==>
        DecodeGeocodeCache(r[i].geocodeCache, parse).Some?
    ensures var r := Nearest(s, AddressKey(input, dist, parse));
      forall x :: x in multiset(s) - multiset(r) && DecodeGeocodeCache(x.geocodeCache, parse).Some? ==>
        forall i :: 0 <= i < |r| ==> DecodeGeocodeCache(r[i].geocodeCache, parse).Some?
  {
    var key := AddressKey(input, dist, parse);
    var r := Nearest(s, key);
    NearestFiniteFirst(s, key);
    forall i, j | 0 <= i < j < |r| && DecodeGeocodeCache(r[j].geocodeCache, parse).Some?
      ensures DecodeGeocodeCache(r[i].geocodeCache, parse).Some?
    {
      assert key(r[j]).Finite?;
    }
    forall x | x in multiset(s) - multiset(r) && DecodeGeocodeCache(x.geocodeCache, parse).Some?
      ensures forall i :: 0 <= i < |r| ==> DecodeGeocodeCache(r[i].geocodeCache, parse).Some?
    {
      assert key(x).Finite?;
      forall i | 0 <= i < |r| ensures DecodeGeocodeCache(r[i].geocodeCache, parse).Some? {
        assert key(r[i]).Finite?;
      }
    }
  }

  // -------------------------------------------------------------------------
  // The pipeline

  /** The records that pass every active selection filter (borough, type,
      date); an empty control passes everything. */
  predicate Passes(c: Criteria, x: Record)
  {
    (c.borough == "" || InBorough(c.borough, x))
    && (c.typeFilter == "" || KeepsType(c.typeFilter, x))
    && (c.dateStart.None? || c.dateEnd.None? || KeepsDate(c.dateStart.value, c.dateEnd.value, x))
  }

  function PassesTest(c: Criteria): Record -> bool
  {
    (x: Record) => Passes(c, x)
  }

  /** The list after the three selection stages. */
  function Selected(all: seq<Record>, c: Criteria): (r: seq<Record>)
    ensures forall x :: x in r <==> x in all && Passes(c, x)
    ensures IsSubsequence(r, all)
    ensures multiset(r) <= multiset(all)
  {
    var p := PassesTest(c);
    FilterIsSubsequence(all, p);
    FilterSubMultiset(all, p);
    assert forall x :: x in Filter(all, p) <==> x in all && p(x) by {
      forall x ensures x in Filter(all, p) <==> x in all && p(x) {
        FilterContains(all, p, x);
      }
    }
    Filter(all, p)
  }

  /** Whether a proximity stage re-ranks the list. */
  predicate Ranks(c: Criteria, geocoded: Option<Coord>)
  {
    (c.zipcode != "" && ZipTarget(c.zipcode).Some?) || (c.address != "" && geocoded.Some?)
  }

  /** The zip stage, then the address stage, as they apply to `s`. */
  function Proximity(s: seq<Record>, c: Criteria, geocoded: Option<Coord>,
                     dist: (real, real, real, real) -> real, parse: string -> Option<Json>): (r: seq<Record>)
    ensures multiset(r) <= multiset(s)
    ensures Ranks(c, geocoded) ==> |r| == if |s| < Limit then |s| else Limit
    ensures !Ranks(c, geocoded) ==> r == s
  {
    var afterZip := if c.zipcode != "" && ZipTarget(c.zipcode).Some?
      then Nearest(s, ZipKey(ZipTarget(c.zipcode).value)) else s;
    if c.address != "" && geocoded.Some? then Nearest(afterZip, AddressKey(geocoded.value, dist, parse))
    else afterZip
  }

  /** The body of `filterAndDisplayLocations` from the first filter to the
      call of `renderLocations`, whose argument it returns. `geocoded` is the
      value `geocodeAddress` resolves to (None for null; the proxy answers
      `{ lat, lng }` on success). */
  method FilterAndDisplayLocations(all: seq<Record>, c: Criteria, geocoded: Option<Coord>,
                                   dist: (real, real, real, real) -> real, parse: string -> Option<Json>)
    returns (filtered: seq<Record>)
    ensures filtered == Proximity(Selected(all, c), c, geocoded, dist, parse)
    ensures multiset(filtered) <= multiset(all)
    ensures forall x :: x in filtered ==> x in all && Passes(c, x)
    ensures Ranks(c, geocoded) ==> |filtered| <= Limit
    ensures !Ranks(c, geocoded) ==> filtered == Selected(all, c) && IsSubsequence(filtered, all)
  {
    filtered := SelectLocations(all, c);
    filtered := RankLocations(filtered, c, geocoded, dist, parse);
    ProximityOfSelected(all, c, geocoded, dist, parse);
  }

  /** Re-ranking only keeps records that were selected. */
  lemma ProximityOfSelected(all: seq<Record>, c: Criteria, geocoded: Option<Coord>,
                            dist: (real, real, real, real) -> real, parse: string -> Option<Json>)
    ensures multiset(Proximity(Selected(all, c), c, geocoded, dist, parse)) <= multiset(all)
    ensures forall x :: x in Proximity(Selected(all, c), c, geocoded, dist, parse) ==> x in all && Passes(c, x)
  {
    var selected := Selected(all, c);
    var r := Proximity(selected, c, geocoded, dist, parse);
    forall x | x in r ensures x in all && Passes(c, x) {
      assert x in multiset(r);
      assert x in multiset(selected);
    }
  }

  /** The borough, type and date stages: each active control replaces the
      list by the records that pass its test. */
  method SelectLocations(all: seq<Record>, c: Criteria) returns (filtered: seq<Record>)
    ensures filtered == Selected(all, c)
  {
    filtered := all;
    FilterKeepsAll(all, StagesTest(c, 0));

    BoroughStage(all, c);
    if c.borough != "" {
      filtered := Filter(filtered, (x: Record) => InBorough(c.borough, x));
    }

    TypeStage(all, c);
    if c.typeFilter != "" {
      filtered := Filter(filtered, (x: Record) => KeepsType(c.typeFilter, x));
    }

    DateStage(all, c);
    if c.dateStart.Some? && c.dateEnd.Some? {
      var start, end := c.dateStart.value, c.dateEnd.value;
      filtered := Filter(filtered, (x: Record) => KeepsDate(start, end, x));
    }

    FilterSame(all, StagesTest(c, 3), PassesTest(c));
  }

  /** The tests of the first `k` selection stages, each one counted only
      when its control is set. */
  predicate PassesStages(c: Criteria, k: nat, x: Record)
  {
    (k < 1 || c.borough == "" || InBorough(c.borough, x))
    && (k < 2 || c.typeFilter == "" || KeepsType(c.typeFilter, x))
    && (k < 3 || c.dateStart.None? || c.dateEnd.None? || KeepsDate(c.dateStart.value, c.dateEnd.value, x))
  }

  function StagesTest(c: Criteria, k: nat): Record -> bool
  {
    (x: Record) => PassesStages(c, k, x)
  }

  /** Running stage `k` on the output of the stages before it. */
  lemma Stage(all: seq<Record>, c: Criteria, k: nat, active: bool, test: Record -> bool)
    requires k >= 1
    requires forall x :: PassesStages(c, k, x) == (PassesStages(c, k - 1, x) && (!active || test(x)))
    ensures Filter(all, StagesTest(c, k)) ==
      if active then Filter(Filter(all, StagesTest(c, k - 1)), test) else Filter(all, StagesTest(c, k - 1))
  {
    if active {
      FilterFilter(all, StagesTest(c, k - 1), test, StagesTest(c, k));
    } else {
      FilterSame(all, StagesTest(c, k), StagesTest(c, k - 1));
    }
  }

  lemma BoroughStage(all: seq<Record>, c: Criteria)
    ensures Filter(all, StagesTest(c, 1)) ==
      if c.borough != "" then Filter(Filter(all, StagesTest(c, 0)), (x: Record) => InBorough(c.borough, x))
      else Filter(all, StagesTest(c, 0))
  {
    Stage(all, c, 1, c.borough != "", (x: Record) => InBorough(c.borough, x));
  }

  lemma TypeStage(all: seq<Record>, c: Criteria)
    ensures Filter(all, StagesTest(c, 2)) ==
      if c.typeFilter != "" then Filter(Filter(all, StagesTest(c, 1)), (x: Record) => KeepsType(c.typeFilter, x))
      else Filter(all, StagesTest(c, 1))
  {
    Stage(all, c, 2, c.typeFilter != "", (x: Record) => KeepsType(c.typeFilter, x));
  }

  lemma DateStage(all: seq<Record>, c: Criteria)
    ensures c.dateStart.Some? && c.dateEnd.Some? ==>
      Filter(all, StagesTest(c, 3)) ==
      Filter(Filter(all, StagesTest(c, 2)), (x: Record) => KeepsDate(c.dateStart.value, c.dateEnd.value, x))
    ensures c.dateStart.None? || c.dateEnd.None? ==> Filter(all, StagesTest(c, 3)) == Filter(all, StagesTest(c, 2))
  {
    if c.dateStart.Some? && c.dateEnd.Some? {
      var start, end := c.dateStart.value, c.dateEnd.value;
      Stage(all, c, 3, true, (x: Record) => KeepsDate(start, end, x));
    } else {
      Stage(all, c, 3, false, (x: Record) => true);
    }
  }

  /** The zip and address stages: an unparseable zip code, an empty control
      or a failed geocode leaves the list as it is. */
  method RankLocations(s: seq<Record>, c: Criteria, geocoded: Option<Coord>,
                       dist: (real, real, real, real) -> real, parse: string -> Option<Json>)
    returns (filtered: seq<Record>)
    ensures filtered == Proximity(s, c, geocoded, dist, parse)
  {
    filtered := s;
    if c.zipcode != "" {
      var target := ZipTarget(c.zipcode);
      if target.Some? {
        filtered := Nearest(filtered, ZipKey(target.value));
      }
    }

    if c.address != "" {
      match geocoded {
        case Some(input) =>
          filtered := Nearest(filtered, AddressKey(input, dist, parse));
        case None =>
      }
    }
  }
}
