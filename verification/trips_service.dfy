/**
 * TripsService: folding the flat trip/country join rows into trips, each with
 * its list of countries. GetTrips keeps one dictionary of trips and one of
 * countries, both keyed by id; GetTripById builds a single trip.
 */
module TripsService {
  import opened Wrappers
  import opened Sequences
  import opened Dtos

  /** One row of `Trip JOIN Country_Trip JOIN Country`, as the reader yields it. */
  datatype TripRow = TripRow(
    tripId: int,
    tripName: string,
    description: string,
    dateFrom: Timestamp,
    dateTo: Timestamp,
    maxPeople: int,
    countryId: int,
    countryName: string)

  function TripIds(rows: seq<TripRow>): (ids: seq<int>)
    ensures |ids| == |rows| && forall k :: 0 <= k < |rows| ==> ids[k] == rows[k].tripId
  {
    seq(|rows|, k requires 0 <= k < |rows| => rows[k].tripId)
  }

  function CountryIds(rows: seq<TripRow>): (ids: seq<int>)
    ensures |ids| == |rows| && forall k :: 0 <= k < |rows| ==> ids[k] == rows[k].countryId
  {
    seq(|rows|, k requires 0 <= k < |rows| => rows[k].countryId)
  }

  /** The TripDTO created the first time a trip id is read: that row's fields, no countries yet. */
  function NewTrip(r: TripRow): (t: TripDTO)
    ensures t.id == r.tripId && t.countries == []
    ensures t.name == r.tripName && t.description == r.description && t.maxPeople == r.maxPeople
    ensures t.startDateTime == r.dateFrom && t.endDateTime == r.dateTo
  {
    TripDTO(r.tripId, r.tripName, r.description, r.dateFrom, r.dateTo, r.maxPeople, [])
  }

  /** The single CountryDTO the pass keeps for id `c`: named by the first row that mentions `c`. */
  function SharedCountry(rows: seq<TripRow>, c: int): (country: CountryDTO)
    requires c in CountryIds(rows)
    ensures country.id == c
  {
    CountryDTO(c, rows[FirstIndex(CountryIds(rows), c)].countryName)
  }

  /** The countries trip `t` has collected after the first `n` rows: one per row of `t`. */
  function TripCountries(rows: seq<TripRow>, n: nat, t: int): (cs: seq<CountryDTO>)
    requires n <= |rows|
    decreases n
  {
    if n == 0 then []
    else
      assert CountryIds(rows)[n - 1] == rows[n - 1].countryId;
      TripCountries(rows, n - 1, t)
        + (if rows[n - 1].tripId == t then [SharedCountry(rows, rows[n - 1].countryId)] else [])
  }

  /** Trip `t` as it stands after the first `n` rows: scalars of its first row, countries so far. */
  function PartialTrip(rows: seq<TripRow>, n: nat, t: int): TripDTO
    requires n <= |rows| && t in TripIds(rows)
  {
    NewTrip(rows[FirstIndex(TripIds(rows), t)]).(countries := TripCountries(rows, n, t))
  }

  /**
   * The reference result of GetTrips: one trip per distinct trip id, in order of
   * first appearance, each built from all rows.
   */
  function GroupTrips(rows: seq<TripRow>): seq<TripDTO>
  {
    var d := Distinct(TripIds(rows));
    seq(|d|, k requires 0 <= k < |d| => PartialTrip(rows, |rows|, d[k]))
  }

  /** After `n` rows a trip holds one country per row of it among those `n`. */
  lemma {:induction false} TripCountriesCount(rows: seq<TripRow>, n: nat, t: int)
    requires n <= |rows|
    ensures |TripCountries(rows, n, t)| == CountOf(TripIds(rows)[..n], t)
    decreases n
  {
    if n > 0 {
      TripCountriesCount(rows, n - 1, t);
      assert TripIds(rows)[..n] == TripIds(rows)[..n - 1] + [rows[n - 1].tripId];
      assert TripIds(rows)[..n][..n - 1] == TripIds(rows)[..n - 1];
    }
  }

  /** Row `n` adds its shared country to its own trip and to no other. */
  lemma TripCountriesNext(rows: seq<TripRow>, n: nat, u: int)
    requires n < |rows|
    ensures rows[n].countryId in CountryIds(rows)
    ensures TripCountries(rows, n + 1, u) ==
              TripCountries(rows, n, u) + if rows[n].tripId == u then [SharedCountry(rows, rows[n].countryId)] else []
  {
    assert CountryIds(rows)[n] == rows[n].countryId;
  }

  /** A trip id not yet seen has collected no countries. */
  lemma TripCountriesUnseen(rows: seq<TripRow>, n: nat, t: int)
    requires n <= |rows| && t !in TripIds(rows)[..n]
    ensures TripCountries(rows, n, t) == []
  {
    TripCountriesCount(rows, n, t);
  }

  /** `cd` is countriesDict after the first `n` rows: every country seen, each the shared entry. */
  ghost predicate CountriesSoFar(rows: seq<TripRow>, n: nat, cd: map<int, CountryDTO>)
    requires n <= |rows|
  {
    && (forall c :: c in cd <==> c in CountryIds(rows)[..n])
    && (forall c :: c in cd ==> c in CountryIds(rows) && cd[c] == SharedCountry(rows, c))
  }

  /** `td` is tripsDict after the first `n` rows: every trip seen, each as built so far. */
  ghost predicate TripsSoFar(rows: seq<TripRow>, n: nat, td: map<int, TripDTO>)
    requires n <= |rows|
  {
    && (forall t :: t in td <==> t in TripIds(rows)[..n])
    && (forall t :: t in td ==> t in TripIds(rows) && td[t] == PartialTrip(rows, n, t))
  }

  /** Reading row `i` into countriesDict: add its country if the id is new, else keep the entry. */
  lemma CountryStep(rows: seq<TripRow>, i: nat, cd: map<int, CountryDTO>)
    requires i < |rows| && CountriesSoFar(rows, i, cd)
    ensures var c := rows[i].countryId;
            var cd' := if c in cd then cd else cd[c := CountryDTO(c, rows[i].countryName)];
            CountriesSoFar(rows, i + 1, cd') && c in cd' && cd'[c] == SharedCountry(rows, c)
  {
    var cids := CountryIds(rows);
    var c := rows[i].countryId;
    PrefixSnoc(cids, i);
    if c !in cd {
      FirstIndexAt(cids, i, c);
    }
  }

  /** The trip row `i` extends is the trip as built so far, created from row `i` when its id is new. */
  lemma TripEntry(rows: seq<TripRow>, i: nat, td: map<int, TripDTO>)
    requires i < |rows| && TripsSoFar(rows, i, td)
    ensures var t := rows[i].tripId;
            t in TripIds(rows) && (if t in td then td[t] else NewTrip(rows[i])) == PartialTrip(rows, i, t)
  {
    var ids := TripIds(rows);
    var t := rows[i].tripId;
    assert ids[i] == t;
    if t !in td {
      FirstIndexAt(ids, i, t);
      TripCountriesUnseen(rows, i, t);
    }
  }

  /** Reading row `i` into tripsDict: create the trip if the id is new, then append the row's country. */
  lemma TripStep(rows: seq<TripRow>, i: nat, td: map<int, TripDTO>, base: TripDTO, country: CountryDTO)
    requires i < |rows| && TripsSoFar(rows, i, td)
    requires base == if rows[i].tripId in td then td[rows[i].tripId] else NewTrip(rows[i])
    requires rows[i].countryId in CountryIds(rows) && country == SharedCountry(rows, rows[i].countryId)
    ensures TripsSoFar(rows, i + 1, td[rows[i].tripId := base.(countries := base.countries + [country])])
  {
    var ids := TripIds(rows);
    var t := rows[i].tripId;
    var c := rows[i].countryId;
    assert CountryIds(rows)[i] == c;
    PrefixSnoc(ids, i);
    TripEntry(rows, i, td);
    var td' := td[t := base.(countries := base.countries + [country])];
    forall u | u in td'
      ensures u in ids && td'[u] == PartialTrip(rows, i + 1, u)
    {
      TripCountriesNext(rows, i, u);
    }
  }

  /** The three invariants of the reader loop of GetTrips after `n` rows. */
  ghost predicate FoldSoFar(rows: seq<TripRow>, n: nat, cd: map<int, CountryDTO>, td: map<int, TripDTO>, order: seq<int>)
    requires n <= |rows|
  {
    order == Distinct(TripIds(rows)[..n]) && CountriesSoFar(rows, n, cd) && TripsSoFar(rows, n, td)
  }

  /** One pass of the reader loop of GetTrips keeps all three of its invariants. */
  lemma RowStep(rows: seq<TripRow>, i: nat, cd: map<int, CountryDTO>, td: map<int, TripDTO>, order: seq<int>,
                cd': map<int, CountryDTO>, base: TripDTO, td': map<int, TripDTO>, order': seq<int>)
    requires i < |rows|
    requires FoldSoFar(rows, i, cd, td, order)
    requires cd' == if rows[i].countryId in cd then cd else cd[rows[i].countryId := CountryDTO(rows[i].countryId, rows[i].countryName)]
    requires base == if rows[i].tripId in td then td[rows[i].tripId] else NewTrip(rows[i])
    requires order' == if rows[i].tripId in td then order else order + [rows[i].tripId]
    requires td' == td[rows[i].tripId := base.(countries := base.countries + [cd'[rows[i].countryId]])]
    ensures FoldSoFar(rows, i + 1, cd', td', order')
  {
    var ids := TripIds(rows);
    assert ids[i] == rows[i].tripId;
    assert rows[i].tripId in td <==> ids[i] in ids[..i];
    CountryStep(rows, i, cd);
    DistinctSnoc(ids, i);
    TripStep(rows, i, td, base, cd'[rows[i].countryId]);
  }

  /** `Dictionary.Values` of a dictionary whose keys were inserted in the order `order`. */
  function Values<V>(dict: map<int, V>, order: seq<int>): (vs: seq<V>)
    requires forall k :: 0 <= k < |order| ==> order[k] in dict
    ensures |vs| == |order| && forall k :: 0 <= k < |order| ==> vs[k] == dict[order[k]]
  {
    seq(|order|, k requires 0 <= k < |order| => dict[order[k]])
  }

  /** After the last row, tripsDict listed in insertion order is the reference result. */
  lemma TripsComplete(rows: seq<TripRow>, td: map<int, TripDTO>, order: seq<int>)
    requires TripsSoFar(rows, |rows|, td)
    requires order == Distinct(TripIds(rows)[..|rows|])
    ensures forall k :: 0 <= k < |order| ==> order[k] in td
    ensures GroupTrips(rows) == Values(td, order)
  {
    var ids := TripIds(rows);
    assert ids[..|rows|] == ids;
    forall k | 0 <= k < |order| ensures order[k] in td {
      assert order[k] in order;
    }
    var listed := Values(td, order);
    var expected := GroupTrips(rows);
    forall k | 0 <= k < |listed| ensures expected[k] == listed[k] {
      assert order[k] in order;
    }
  }

  /**
   * GetTrips (TripsService.cs:10-69). The reader becomes `rows`; `tripsDict` and
   * `countriesDict` are the two dictionaries, and `order` is the insertion order
   * in which `tripsDict.Values` enumerates.
   */
  method GetTrips(rows: seq<TripRow>) returns (trips: seq<TripDTO>)
    ensures trips == GroupTrips(rows)
  {
    var tripsDict: map<int, TripDTO> := map[];
    var order: seq<int> := [];
    var countriesDict: map<int, CountryDTO> := map[];
    var i := 0;
    while i < |rows|
      invariant 0 <= i <= |rows|
      invariant FoldSoFar(rows, i, countriesDict, tripsDict, order)
    {
      ghost var cd, td, seen := countriesDict, tripsDict, order;
      var row := rows[i];
      if row.countryId !in countriesDict {
        countriesDict := countriesDict[row.countryId := CountryDTO(row.countryId, row.countryName)];
      }
      var trip: TripDTO;
      if row.tripId in tripsDict {
        trip := tripsDict[row.tripId];
      } else {
        trip := NewTrip(row);
        order := order + [row.tripId];
      }
      tripsDict := tripsDict[row.tripId := trip.(countries := trip.countries + [countriesDict[row.countryId]])];
      RowStep(rows, i, cd, td, seen, countriesDict, trip, tripsDict, order);
      i := i + 1;
    }
    assert TripsSoFar(rows, |rows|, tripsDict);
    TripsComplete(rows, tripsDict, order);
    trips := Values(tripsDict, order);
  }

  /** Total number of country entries over a list of trips. */
  function TotalCountries(trips: seq<TripDTO>): nat
    decreases |trips|
  {
    if trips == [] then 0 else TotalCountries(trips[..|trips| - 1]) + |trips[|trips| - 1].countries|
  }

  /**
   * GroupTrips lists every trip id of the rows exactly once, in order of first
   * appearance, with the scalar fields of the first row carrying that id; no
   * rows give no trips.
   */
  lemma GroupTripsOnePerTripId(rows: seq<TripRow>)
    ensures |GroupTrips(rows)| == 0 <==> rows == []
    ensures forall k :: 0 <= k < |GroupTrips(rows)| ==> GroupTrips(rows)[k].id in TripIds(rows)
    ensures forall t :: t in TripIds(rows) ==> exists k :: 0 <= k < |GroupTrips(rows)| && GroupTrips(rows)[k].id == t
    ensures forall i, j :: 0 <= i < j < |GroupTrips(rows)| ==>
              FirstIndex(TripIds(rows), GroupTrips(rows)[i].id) < FirstIndex(TripIds(rows), GroupTrips(rows)[j].id)
    ensures forall k :: 0 <= k < |GroupTrips(rows)| ==>
              var trip := GroupTrips(rows)[k];
              var first := rows[FirstIndex(TripIds(rows), trip.id)];
              && trip.name == first.tripName && trip.description == first.description
              && trip.startDateTime == first.dateFrom && trip.endDateTime == first.dateTo
              && trip.maxPeople == first.maxPeople
  {
    var ids := TripIds(rows);
    var d := Distinct(ids);
    var g := GroupTrips(rows);
    DistinctInFirstSeenOrder(ids);
    assert forall k :: 0 <= k < |d| ==> g[k].id == d[k];
    forall t | t in ids
      ensures exists k :: 0 <= k < |g| && g[k].id == t
    {
      assert t in d;
      var k :| 0 <= k < |d| && d[k] == t;
      assert g[k].id == t;
    }
    if rows != [] {
      assert ids[0] in d;
    }
  }

  /** After `n` rows, the j-th country of trip `t` is the shared entry for the j-th row of `t`. */
  lemma {:induction false} TripCountriesFollowRows(rows: seq<TripRow>, n: nat, t: int)
    requires n <= |rows|
    ensures var ps := Positions(TripIds(rows), n, t);
            var cs := TripCountries(rows, n, t);
            && |cs| == |ps|
            && forall j :: 0 <= j < |cs| ==>
                 rows[ps[j]].countryId in CountryIds(rows) && cs[j] == SharedCountry(rows, rows[ps[j]].countryId)
    decreases n
  {
    if n > 0 {
      TripCountriesFollowRows(rows, n - 1, t);
      var ids := TripIds(rows);
      var ps := Positions(ids, n - 1, t);
      var cs := TripCountries(rows, n - 1, t);
      TripCountriesNext(rows, n - 1, t);
      assert ids[n - 1] == rows[n - 1].tripId;
    }
  }

  /**
   * Every row appends exactly one country to its trip, in row order, with no
   * de-duplication; all entries for one country id are the same shared entry,
   * named by the first row carrying that id.
   */
  lemma GroupTripsCountriesPerRow(rows: seq<TripRow>)
    ensures forall k :: 0 <= k < |GroupTrips(rows)| ==>
              var trip := GroupTrips(rows)[k];
              var ps := Positions(TripIds(rows), |rows|, trip.id);
              && |trip.countries| == |ps|
              && forall j :: 0 <= j < |ps| ==>
                   rows[ps[j]].countryId in CountryIds(rows) &&
                   trip.countries[j] == SharedCountry(rows, rows[ps[j]].countryId)
    ensures forall k1, j1, k2, j2 ::
              0 <= k1 < |GroupTrips(rows)| && 0 <= j1 < |GroupTrips(rows)[k1].countries| &&
              0 <= k2 < |GroupTrips(rows)| && 0 <= j2 < |GroupTrips(rows)[k2].countries| &&
              GroupTrips(rows)[k1].countries[j1].id == GroupTrips(rows)[k2].countries[j2].id ==>
              GroupTrips(rows)[k1].countries[j1] == GroupTrips(rows)[k2].countries[j2]
  {
    var g := GroupTrips(rows);
    var d := Distinct(TripIds(rows));
    forall k | 0 <= k < |g|
      ensures var ps := Positions(TripIds(rows), |rows|, g[k].id);
              && |g[k].countries| == |ps|
              && forall j :: 0 <= j < |ps| ==>
                   rows[ps[j]].countryId in CountryIds(rows) &&
                   g[k].countries[j] == SharedCountry(rows, rows[ps[j]].countryId)
    {
      TripCountriesFollowRows(rows, |rows|, d[k]);
    }
  }

  lemma {:induction false} TotalCountriesIsSumOfCounts(rows: seq<TripRow>, trips: seq<TripDTO>, d: seq<int>)
    requires |trips| == |d|
    requires forall k :: 0 <= k < |d| ==> |trips[k].countries| == CountOf(TripIds(rows), d[k])
    ensures TotalCountries(trips) == SumCounts(d, TripIds(rows))
    decreases |d|
  {
    if d != [] {
      TotalCountriesIsSumOfCounts(rows, trips[..|trips| - 1], d[..|d| - 1]);
    }
  }

  /** The trips of GetTrips hold, between them, exactly one country entry per row. */
  lemma GroupTripsCountryTotal(rows: seq<TripRow>)
    ensures TotalCountries(GroupTrips(rows)) == |rows|
  {
    var ids := TripIds(rows);
    var d := Distinct(ids);
    assert ids[..|rows|] == ids;
    forall k | 0 <= k < |d|
      ensures |GroupTrips(rows)[k].countries| == CountOf(ids, d[k])
    {
      TripCountriesCount(rows, |rows|, d[k]);
    }
    TotalCountriesIsSumOfCounts(rows, GroupTrips(rows), d);
    DistinctCountsCover(ids);
  }

  /** The countries GetTripById gives a trip: a fresh entry per row, from that row's own fields. */
  function FreshCountries(rows: seq<TripRow>): (cs: seq<CountryDTO>)
    ensures |cs| == |rows|
    ensures forall k :: 0 <= k < |rows| ==> cs[k] == CountryDTO(rows[k].countryId, rows[k].countryName)
  {
    seq(|rows|, k requires 0 <= k < |rows| => CountryDTO(rows[k].countryId, rows[k].countryName))
  }

  /** One more row, one more fresh country at the end. */
  lemma FreshCountriesSnoc(rows: seq<TripRow>, n: nat)
    requires n < |rows|
    ensures FreshCountries(rows[..n + 1]) == FreshCountries(rows[..n]) + [CountryDTO(rows[n].countryId, rows[n].countryName)]
  {
    var a, b := FreshCountries(rows[..n + 1]), FreshCountries(rows[..n]) + [CountryDTO(rows[n].countryId, rows[n].countryName)];
    assert forall k :: 0 <= k < n ==> rows[..n + 1][k] == rows[..n][k];
    assert |a| == |b|;
  }

  /**
   * The reference result of GetTripById: null for no rows, else the requested id
   * with the first row's other fields and one fresh country per row.
   */
  function TripById(id: int, rows: seq<TripRow>): (trip: Option<TripDTO>)
    ensures trip.None? <==> rows == []
    ensures trip.Some? ==>
              && trip.value.id == id
              && trip.value.name == rows[0].tripName && trip.value.description == rows[0].description
              && trip.value.startDateTime == rows[0].dateFrom && trip.value.endDateTime == rows[0].dateTo
              && trip.value.maxPeople == rows[0].maxPeople
              && |trip.value.countries| == |rows|
              && forall k :: 0 <= k < |rows| ==> trip.value.countries[k] == CountryDTO(rows[k].countryId, rows[k].countryName)
  {
    if rows == [] then None else Some(NewTrip(rows[0]).(id := id, countries := FreshCountries(rows)))
  }

  /** GetTripById (TripsService.cs:71-120): `trip` starts null and is created at the first row. */
  method GetTripById(id: int, rows: seq<TripRow>) returns (trip: Option<TripDTO>)
    ensures trip == TripById(id, rows)
  {
    trip := None;
    var i := 0;
    while i < |rows|
      invariant 0 <= i <= |rows|
      invariant i == 0 ==> trip.None?
      invariant i > 0 ==> trip == Some(NewTrip(rows[0]).(id := id, countries := FreshCountries(rows[..i])))
    {
      var row := rows[i];
      if trip.None? {
        trip := Some(NewTrip(row).(id := id));
      }
      var t := trip.value;
      trip := Some(t.(countries := t.countries + [CountryDTO(row.countryId, row.countryName)]));
      FreshCountriesSnoc(rows, i);
      i := i + 1;
    }
    assert rows[..i] == rows;
  }

  /** Rows naming each country id with a single name, as the Country table guarantees. */
  ghost predicate CountryNamesAgree(rows: seq<TripRow>)
  {
    forall j, k :: 0 <= j < |rows| && 0 <= k < |rows| && rows[j].countryId == rows[k].countryId ==>
      rows[j].countryName == rows[k].countryName
  }

  lemma {:induction false} SharedIsFresh(rows: seq<TripRow>, n: nat, id: int)
    requires n <= |rows| && CountryNamesAgree(rows)
    requires forall k :: 0 <= k < |rows| ==> rows[k].tripId == id
    ensures TripCountries(rows, n, id) == FreshCountries(rows[..n])
    decreases n
  {
    if n > 0 {
      SharedIsFresh(rows, n - 1, id);
      SharedIsFreshStep(rows, n - 1, id);
    }
  }

  /** The inductive step of SharedIsFresh: the row's shared country is its own, so both lists gain the same entry. */
  lemma SharedIsFreshStep(rows: seq<TripRow>, i: nat, id: int)
    requires i < |rows| && rows[i].tripId == id && CountryNamesAgree(rows)
    requires TripCountries(rows, i, id) == FreshCountries(rows[..i])
    ensures TripCountries(rows, i + 1, id) == FreshCountries(rows[..i + 1])
  {
    var c := rows[i].countryId;
    TripCountriesNext(rows, i, id);
    var f := FirstIndex(CountryIds(rows), c);
    assert rows[f].countryId == c;
    assert rows[f].countryName == rows[i].countryName;
    FreshCountriesSnoc(rows, i);
  }

  /**
   * For the rows of a single trip whose country names agree, GetTripById and
   * GetTrips build the same trip: sharing and fresh copies coincide.
   */
  lemma TripByIdAgreesWithGroupTrips(id: int, rows: seq<TripRow>)
    requires rows != [] && CountryNamesAgree(rows)
    requires forall k :: 0 <= k < |rows| ==> rows[k].tripId == id
    ensures GroupTrips(rows) == [TripById(id, rows).value]
  {
    var ids := TripIds(rows);
    var d := Distinct(ids);
    DistinctOfConstant(ids, id);
    FirstIndexAt(ids, 0, id);
    SharedIsFresh(rows, |rows|, id);
    assert rows[..|rows|] == rows;
  }

  /** Two rows of one trip and one country id: GetTrips lists that trip once, its country twice under the first name. */
  lemma RepeatedCountryShared(t: TripRow, name: string)
    ensures var rows := [t, t.(countryName := name)];
            && |GroupTrips(rows)| == 1
            && GroupTrips(rows)[0].countries == [CountryDTO(t.countryId, t.countryName), CountryDTO(t.countryId, t.countryName)]
  {
    var rows := [t, t.(countryName := name)];
    var ids := TripIds(rows);
    var shared := CountryDTO(t.countryId, t.countryName);
    DistinctOfConstant(ids, t.tripId);
    assert CountryIds(rows)[0] == t.countryId;
    FirstIndexAt(CountryIds(rows), 0, t.countryId);
    assert SharedCountry(rows, t.countryId) == shared;
    TripCountriesNext(rows, 0, t.tripId);
    TripCountriesNext(rows, 1, t.tripId);
    assert TripCountries(rows, 2, t.tripId) == [shared, shared];
  }

  /**
   * Where two rows name one country differently, GetTrips repeats the first name
   * (one shared CountryDTO) while GetTripById keeps each row's own name.
   */
  lemma SharedAndFreshCountriesDiffer(t: TripRow)
    requires t.countryName != "Polska"
    ensures var rows := [t, t.(countryName := "Polska")];
            && GroupTrips(rows)[0].countries == [CountryDTO(t.countryId, t.countryName), CountryDTO(t.countryId, t.countryName)]
            && TripById(t.tripId, rows).value.countries == [CountryDTO(t.countryId, t.countryName), CountryDTO(t.countryId, "Polska")]
  {
    RepeatedCountryShared(t, "Polska");
    var rows := [t, t.(countryName := "Polska")];
    var own := TripById(t.tripId, rows).value.countries;
    assert |own| == 2 && own[0] == CountryDTO(t.countryId, t.countryName) && own[1] == CountryDTO(t.countryId, "Polska");
  }
}
