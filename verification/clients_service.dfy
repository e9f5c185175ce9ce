/**
 * ClientsService: the client-trip listing fold, client creation, and the
 * registration and cancellation workflows over the database tables
 * Client, Trip, Country, Country_Trip and Client_Trip.
 */
module ClientsService {
  import opened Wrappers
  import opened Sequences
  import opened Dates
  import opened Dtos
  import opened TripsService

  /** The exceptions the service raises or lets through. */
  datatype ServiceError =
    | ClientNotFound
    | TripNotFound
    | MaxPeopleReached
    | ClientAlreadyRegistered
    | ClientNotRegistered
      /** A SqlException other than a duplicate key, rethrown unchanged. */
    | SqlError(number: int)
      /** `(int)` applied to the null scalar of a query that returned no row. */
    | NullScalar
      /** ParseExact rejecting a stored yyyyMMdd integer. */
    | BadDateFormat

  /** SQL Server's error number for a violated primary key or unique constraint. */
  const DuplicateKey: int := 2627

  /** A Trip table row (without its key). */
  datatype TripRecord = TripRecord(name: string, description: string, dateFrom: Timestamp, dateTo: Timestamp, maxPeople: int)

  /** A Country_Trip row. */
  datatype CountryTrip = CountryTrip(country: int, trip: int)

  /** A Client_Trip row: dates as yyyyMMdd integers, payment date nullable. */
  datatype Registration = Registration(client: int, trip: int, registeredAt: int, paymentDate: Option<int>)

  /** One row of the client-trips join: the trip/country columns plus the registration's dates. */
  datatype ClientTripRow = ClientTripRow(row: TripRow, registeredAt: int, paymentDate: Option<int>)

  // ---------------------------------------------------------------------------
  // Listing a client's trips (GetClientTrips)
  // ---------------------------------------------------------------------------

  function TripPart(rows: seq<ClientTripRow>): (trows: seq<TripRow>)
    ensures |trows| == |rows| && forall k :: 0 <= k < |rows| ==> trows[k] == rows[k].row
  {
    seq(|rows|, k requires 0 <= k < |rows| => rows[k].row)
  }

  /** RegisteredAt and PaymentDate of a row as the DTO holds them; None where ParseExact throws. */
  function ReadDates(r: ClientTripRow): (dates: Option<(Date, Option<Date>)>)
    ensures dates.Some? <==> Decode(r.registeredAt).Some? && DecodeNullable(r.paymentDate).Some?
    ensures dates.Some? ==> Decode(r.registeredAt) == Some(dates.value.0)
    ensures dates.Some? ==> DecodeNullable(r.paymentDate) == Some(dates.value.1)
  {
    match Decode(r.registeredAt)
    case None => None
    case Some(registered) =>
      match DecodeNullable(r.paymentDate)
      case None => None
      case Some(payment) => Some((registered, payment))
  }

  /** The dates are decoded only from the first row of each trip: all of those must parse. */
  ghost predicate DatesReadable(rows: seq<ClientTripRow>)
  {
    var ids := TripIds(TripPart(rows));
    forall t :: t in ids ==> ReadDates(rows[FirstIndex(ids, t)]).Some?
  }

  /** Trip `t` of the client as it stands after `n` rows, with the dates of its first row. */
  function ClientTripSoFar(rows: seq<ClientTripRow>, n: nat, t: int): ClientTripDto
    requires n <= |rows| && t in TripIds(TripPart(rows))
    requires ReadDates(rows[FirstIndex(TripIds(TripPart(rows)), t)]).Some?
  {
    var dates := ReadDates(rows[FirstIndex(TripIds(TripPart(rows)), t)]).value;
    ClientTripDto(PartialTrip(TripPart(rows), n, t), dates.0, dates.1)
  }

  /**
   * The reference result of the row fold of GetClientTrips: the trips of
   * GroupTrips over the trip columns, each with the dates of its first row, or
   * BadDateFormat when one of those dates does not parse.
   */
  ghost function ClientTrips(rows: seq<ClientTripRow>): Result<seq<ClientTripDto>, ServiceError>
  {
    var ids := TripIds(TripPart(rows));
    var d := Distinct(ids);
    if DatesReadable(rows) then
      assert forall k :: 0 <= k < |d| ==> d[k] in d && d[k] in ids;
      Ok(seq(|d|, k requires 0 <= k < |d| => ClientTripSoFar(rows, |rows|, d[k])))
    else Err(BadDateFormat)
  }

  /** `td` is tripsDict after `n` rows: each trip seen so far, as built so far, with readable dates. */
  ghost predicate ClientTripsSoFar(rows: seq<ClientTripRow>, n: nat, td: map<int, ClientTripDto>)
    requires n <= |rows|
  {
    var ids := TripIds(TripPart(rows));
    && (forall t :: t in td <==> t in ids[..n])
    && (forall t :: t in td ==>
          t in ids && ReadDates(rows[FirstIndex(ids, t)]).Some? && td[t] == ClientTripSoFar(rows, n, t))
  }

  /** The entry row `i` extends is the trip as built so far, created from row `i` when its id is new. */
  lemma ClientTripEntry(rows: seq<ClientTripRow>, i: nat, td: map<int, ClientTripDto>, entry: ClientTripDto)
    requires i < |rows| && ClientTripsSoFar(rows, i, td)
    requires rows[i].row.tripId in td ==> entry == td[rows[i].row.tripId]
    requires rows[i].row.tripId !in td ==>
               ReadDates(rows[i]).Some? &&
               entry == ClientTripDto(NewTrip(rows[i].row), ReadDates(rows[i]).value.0, ReadDates(rows[i]).value.1)
    ensures var ids := TripIds(TripPart(rows));
            var t := rows[i].row.tripId;
            t in ids && ReadDates(rows[FirstIndex(ids, t)]).Some? && entry == ClientTripSoFar(rows, i, t)
  {
    var ids := TripIds(TripPart(rows));
    var t := rows[i].row.tripId;
    assert ids[i] == t;
    if t !in td {
      FirstIndexAt(ids, i, t);
      TripCountriesUnseen(TripPart(rows), i, t);
    }
  }

  /**
   * Reading row `i` into tripsDict: create the trip with the row's dates if its
   * id is new (the dates must then parse), then append the row's country.
   */
  lemma ClientTripStep(rows: seq<ClientTripRow>, i: nat, td: map<int, ClientTripDto>,
                        entry: ClientTripDto, country: CountryDTO, td': map<int, ClientTripDto>)
    requires i < |rows| && ClientTripsSoFar(rows, i, td)
    requires rows[i].row.tripId in td ==> entry == td[rows[i].row.tripId]
    requires rows[i].row.tripId !in td ==>
               ReadDates(rows[i]).Some? &&
               entry == ClientTripDto(NewTrip(rows[i].row), ReadDates(rows[i]).value.0, ReadDates(rows[i]).value.1)
    requires rows[i].row.countryId in CountryIds(TripPart(rows))
    requires country == SharedCountry(TripPart(rows), rows[i].row.countryId)
    requires td' == td[rows[i].row.tripId := entry.(trip := entry.trip.(countries := entry.trip.countries + [country]))]
    ensures ClientTripsSoFar(rows, i + 1, td')
  {
    var trows := TripPart(rows);
    var ids := TripIds(trows);
    var t := rows[i].row.tripId;
    PrefixSnoc(ids, i);
    ClientTripEntry(rows, i, td, entry);
    forall u | u in td'
      ensures u in ids && ReadDates(rows[FirstIndex(ids, u)]).Some? && td'[u] == ClientTripSoFar(rows, i + 1, u)
    {
      TripCountriesNext(trows, i, u);
      if u == t {
        assert td'[u] == entry.(trip := entry.trip.(countries := entry.trip.countries + [country]));
      } else {
        assert td'[u] == td[u];
      }
    }
  }

  /** The three invariants of the reader loop of GetClientTrips after `n` rows. */
  ghost predicate ClientFoldSoFar(rows: seq<ClientTripRow>, n: nat, cd: map<int, CountryDTO>,
                                  td: map<int, ClientTripDto>, order: seq<int>)
    requires n <= |rows|
  {
    && order == Distinct(TripIds(TripPart(rows))[..n])
    && CountriesSoFar(TripPart(rows), n, cd)
    && ClientTripsSoFar(rows, n, td)
  }

  /** One pass of the reader loop of GetClientTrips, for a row whose dates are read, keeps all three invariants. */
  lemma ClientRowStep(rows: seq<ClientTripRow>, i: nat, cd: map<int, CountryDTO>, td: map<int, ClientTripDto>,
                      order: seq<int>, cd': map<int, CountryDTO>, entry: ClientTripDto,
                      td': map<int, ClientTripDto>, order': seq<int>)
    requires i < |rows|
    requires ClientFoldSoFar(rows, i, cd, td, order)
    requires cd' == if rows[i].row.countryId in cd then cd
                    else cd[rows[i].row.countryId := CountryDTO(rows[i].row.countryId, rows[i].row.countryName)]
    requires rows[i].row.tripId in td ==> entry == td[rows[i].row.tripId]
    requires rows[i].row.tripId !in td ==>
               ReadDates(rows[i]).Some? &&
               entry == ClientTripDto(NewTrip(rows[i].row), ReadDates(rows[i]).value.0, ReadDates(rows[i]).value.1)
    requires order' == if rows[i].row.tripId in td then order else order + [rows[i].row.tripId]
    requires td' == td[rows[i].row.tripId :=
                       entry.(trip := entry.trip.(countries := entry.trip.countries + [cd'[rows[i].row.countryId]]))]
    ensures ClientFoldSoFar(rows, i + 1, cd', td', order')
  {
    var trows := TripPart(rows);
    var ids := TripIds(trows);
    assert ids[i] == rows[i].row.tripId;
    assert rows[i].row.tripId in td <==> ids[i] in ids[..i];
    CountryStep(trows, i, cd);
    DistinctSnoc(ids, i);
    ClientTripStep(rows, i, td, entry, cd'[rows[i].row.countryId], td');
  }

  /** A new trip whose first row holds a date that does not parse makes the whole listing fail. */
  lemma UnreadableFirstRow(rows: seq<ClientTripRow>, i: nat, td: map<int, ClientTripDto>)
    requires i < |rows| && ClientTripsSoFar(rows, i, td)
    requires rows[i].row.tripId !in td && ReadDates(rows[i]).None?
    ensures ClientTrips(rows) == Err(BadDateFormat)
  {
    var ids := TripIds(TripPart(rows));
    var t := rows[i].row.tripId;
    assert ids[i] == t;
    FirstIndexAt(ids, i, t);
    FirstRowUnreadable(rows, i);
  }

  /** Before the first row both dictionaries are empty. */
  lemma FoldStart(rows: seq<ClientTripRow>)
    ensures Distinct(TripIds(TripPart(rows))[..0]) == []
    ensures CountriesSoFar(TripPart(rows), 0, map[])
    ensures ClientTripsSoFar(rows, 0, map[])
  {
  }

  /** After the last row, tripsDict listed in insertion order is the reference result. */
  lemma FoldComplete(rows: seq<ClientTripRow>, td: map<int, ClientTripDto>, order: seq<int>)
    requires ClientTripsSoFar(rows, |rows|, td)
    requires order == Distinct(TripIds(TripPart(rows))[..|rows|])
    ensures forall k :: 0 <= k < |order| ==> order[k] in td
    ensures ClientTrips(rows) == Ok(Values(td, order))
  {
    var ids := TripIds(TripPart(rows));
    assert ids[..|rows|] == ids;
    forall k | 0 <= k < |order| ensures order[k] in td {
      assert order[k] in order;
    }
    assert DatesReadable(rows);
    var listed := Values(td, order);
    var expected := ClientTrips(rows).value;
    forall k | 0 <= k < |listed| ensures expected[k] == listed[k] {
      assert order[k] in order;
    }
    assert expected == listed;
  }

  /** An unparsable date on the first row of a trip leaves the dates of the listing unreadable. */
  lemma FirstRowUnreadable(rows: seq<ClientTripRow>, i: nat)
    requires i < |rows| && ReadDates(rows[i]).None?
    requires FirstIndex(TripIds(TripPart(rows)), rows[i].row.tripId) == i
    ensures !DatesReadable(rows)
  {
    assert TripIds(TripPart(rows))[i] == rows[i].row.tripId;
  }

  /**
   * What ClientTrips promises: it fails exactly when the first row of some trip
   * holds an unreadable date; otherwise it lists the trips of GroupTrips, in the
   * same order, each with the dates of the first row of that trip.
   */
  lemma ClientTripsFollowGroupTrips(rows: seq<ClientTripRow>)
    ensures ClientTrips(rows).Err? <==>
            exists i :: 0 <= i < |rows| && ReadDates(rows[i]).None? &&
                        FirstIndex(TripIds(TripPart(rows)), rows[i].row.tripId) == i
    ensures ClientTrips(rows).Err? ==> ClientTrips(rows).error == BadDateFormat
    ensures ClientTrips(rows).Ok? ==>
            var list := ClientTrips(rows).value;
            var trips := GroupTrips(TripPart(rows));
            |list| == |trips| &&
            forall k :: 0 <= k < |list| ==>
              list[k].trip == trips[k] &&
              var first := rows[FirstIndex(TripIds(TripPart(rows)), trips[k].id)];
              Decode(first.registeredAt) == Some(list[k].registrationDate) &&
              DecodeNullable(first.paymentDate) == Some(list[k].paymentDate) &&
              (first.paymentDate.None? ==> list[k].paymentDate.None?)
  {
    var trows := TripPart(rows);
    var ids := TripIds(trows);
    if ClientTrips(rows).Err? {
      var t :| t in ids && ReadDates(rows[FirstIndex(ids, t)]).None?;
      var i := FirstIndex(ids, t);
      assert rows[i].row.tripId == t;
    }
    forall i | 0 <= i < |rows| && ReadDates(rows[i]).None? && FirstIndex(ids, rows[i].row.tripId) == i
      ensures ClientTrips(rows).Err?
    {
      FirstRowUnreadable(rows, i);
    }
    if ClientTrips(rows).Ok? {
      var d := Distinct(ids);
      forall k | 0 <= k < |d|
        ensures PartialTrip(trows, |rows|, d[k]).id == d[k]
      {
        assert d[k] in d;
      }
    }
  }

  /** The rows of a client's registrations joined with their trips and countries. */
  function RegistrationRows(trips: map<int, TripRecord>, countries: map<int, string>,
                            links: seq<CountryTrip>, reg: Registration): (rows: seq<ClientTripRow>)
    ensures forall k :: 0 <= k < |rows| ==>
              rows[k].row.tripId == reg.trip && rows[k].registeredAt == reg.registeredAt &&
              rows[k].paymentDate == reg.paymentDate
    decreases |links|
  {
    if links == [] then []
    else
      var l := links[|links| - 1];
      RegistrationRows(trips, countries, links[..|links| - 1], reg)
        + if l.trip == reg.trip && reg.trip in trips && l.country in countries then
            var tr := trips[reg.trip];
            [ClientTripRow(TripRow(reg.trip, tr.name, tr.description, tr.dateFrom, tr.dateTo, tr.maxPeople,
                                   l.country, countries[l.country]),
                           reg.registeredAt, reg.paymentDate)]
          else []
  }

  /**
   * The rows the client-trips query yields for client `id`: for each of the
   * client's registrations in table order, one row per country of its trip.
   */
  function ClientTripRows(trips: map<int, TripRecord>, countries: map<int, string>,
                          links: seq<CountryTrip>, regs: seq<Registration>, id: int): seq<ClientTripRow>
    decreases |regs|
  {
    if regs == [] then []
    else
      var reg := regs[|regs| - 1];
      ClientTripRows(trips, countries, links, regs[..|regs| - 1], id)
        + if reg.client == id then RegistrationRows(trips, countries, links, reg) else []
  }

  /** A registration for a trip linked to a known country yields at least one row. */
  lemma {:induction false} LinkedTripHasRows(trips: map<int, TripRecord>, countries: map<int, string>,
                                             links: seq<CountryTrip>, reg: Registration, j: nat)
    requires reg.trip in trips && j < |links| && links[j].trip == reg.trip && links[j].country in countries
    ensures |RegistrationRows(trips, countries, links, reg)| > 0
    decreases |links|
  {
    if j < |links| - 1 {
      LinkedTripHasRows(trips, countries, links[..|links| - 1], reg, j);
    }
  }

  /** Every row of the client-trips query belongs to a trip the client is registered for. */
  lemma {:induction false} RowsComeFromRegistrations(trips: map<int, TripRecord>, countries: map<int, string>,
                                                     links: seq<CountryTrip>, regs: seq<Registration>, id: int)
    ensures forall k :: 0 <= k < |ClientTripRows(trips, countries, links, regs, id)| ==>
              Registered(regs, id, ClientTripRows(trips, countries, links, regs, id)[k].row.tripId)
    decreases |regs|
  {
    if regs != [] {
      var p := regs[..|regs| - 1];
      var reg := regs[|regs| - 1];
      RowsComeFromRegistrations(trips, countries, links, p, id);
      var before := ClientTripRows(trips, countries, links, p, id);
      var rows := ClientTripRows(trips, countries, links, regs, id);
      assert forall m :: 0 <= m < |before| ==> Registered(p, id, before[m].row.tripId);
      assert rows == before + if reg.client == id then RegistrationRows(trips, countries, links, reg) else [];
      forall k | 0 <= k < |rows| ensures Registered(regs, id, rows[k].row.tripId) {
        if k < |before| {
          assert rows[k] == before[k];
          assert Registered(p, id, before[k].row.tripId);
          var j :| 0 <= j < |p| && p[j].client == id && p[j].trip == before[k].row.tripId;
          assert regs[j] == p[j];
        } else {
          assert regs[|regs| - 1] == reg;
        }
      }
    }
  }

  /**
   * The rows of a newly registered trip come after all earlier rows of the
   * client, none of which is for that trip: the first of them is the first row
   * of the trip.
   */
  lemma NewRegistrationFirstRow(trips: map<int, TripRecord>, countries: map<int, string>, links: seq<CountryTrip>,
                                regs: seq<Registration>, reg: Registration, j: nat)
    requires !Registered(regs, reg.client, reg.trip) && reg.trip in trips
    requires j < |links| && links[j].trip == reg.trip && links[j].country in countries
    ensures var rows := ClientTripRows(trips, countries, links, regs + [reg], reg.client);
            var i := |ClientTripRows(trips, countries, links, regs, reg.client)|;
            && i < |rows|
            && reg.trip in TripIds(TripPart(rows))
            && FirstIndex(TripIds(TripPart(rows)), reg.trip) == i
            && rows[i].registeredAt == reg.registeredAt && rows[i].paymentDate == reg.paymentDate
  {
    var c := reg.client;
    var t := reg.trip;
    var regs' := regs + [reg];
    assert regs'[..|regs|] == regs;
    var before := ClientTripRows(trips, countries, links, regs, c);
    var added := RegistrationRows(trips, countries, links, reg);
    var rows := ClientTripRows(trips, countries, links, regs', c);
    assert rows == before + added;
    LinkedTripHasRows(trips, countries, links, reg, j);
    RowsComeFromRegistrations(trips, countries, links, regs, c);
    var i := |before|;
    var ids := TripIds(TripPart(rows));
    assert rows[i] == added[0];
    assert ids[i] == t;
    assert forall m :: 0 <= m < i ==> rows[m] == before[m] && ids[..i][m] == before[m].row.tripId;
    assert forall m :: 0 <= m < i ==> before[m].row.tripId != t;
    assert t !in ids[..i];
    FirstIndexAt(ids, i, t);
  }

  /**
   * A registration just added for a trip with a country is listed: once the
   * listing succeeds it holds the trip, registered on `today`, with no payment
   * date.
   */
  lemma RegistrationListed(trips: map<int, TripRecord>, countries: map<int, string>, links: seq<CountryTrip>,
                           regs: seq<Registration>, c: int, t: int, today: Date, j: nat)
    requires !Registered(regs, c, t) && t in trips
    requires j < |links| && links[j].trip == t && links[j].country in countries
    requires IsValid(today) && 1000 <= today.year
    ensures var list := ClientTrips(ClientTripRows(trips, countries, links, regs + [Registration(c, t, Encode(today), None)], c));
            list.Ok? ==>
              exists k :: 0 <= k < |list.value| && list.value[k].trip.id == t &&
                          list.value[k].registrationDate == today && list.value[k].paymentDate == None
  {
    var reg := Registration(c, t, Encode(today), None);
    var rows := ClientTripRows(trips, countries, links, regs + [reg], c);
    NewRegistrationFirstRow(trips, countries, links, regs, reg, j);
    DecodeEncode(today);
    ClientTripsFollowGroupTrips(rows);
    var list := ClientTrips(rows);
    if list.Ok? {
      GroupTripsOnePerTripId(TripPart(rows));
      var g := GroupTrips(TripPart(rows));
      var k :| 0 <= k < |g| && g[k].id == t;
      assert list.value[k].trip.id == t;
    }
  }

  /** A client without registrations gets no rows, and so an empty trip list rather than an error. */
  lemma {:induction false} NoRegistrationsNoTrips(trips: map<int, TripRecord>, countries: map<int, string>,
                                                  links: seq<CountryTrip>, regs: seq<Registration>, id: int)
    requires forall k :: 0 <= k < |regs| ==> regs[k].client != id
    ensures ClientTripRows(trips, countries, links, regs, id) == []
    ensures ClientTrips([]) == Ok([])
    decreases |regs|
  {
    if regs != [] {
      NoRegistrationsNoTrips(trips, countries, links, regs[..|regs| - 1], id);
    }
    var ids := TripIds(TripPart([]));
    assert |ids| == 0;
    assert DatesReadable([]);
    assert ClientTrips([]).Ok?;
    assert |ClientTrips([]).value| == 0;
  }

  // ---------------------------------------------------------------------------
  // The Client_Trip table and the decisions of the workflows
  // ---------------------------------------------------------------------------

  /** Number of registrations for trip `t`. */
  function RegCount(regs: seq<Registration>, t: int): (n: nat)
    ensures n <= |regs|
    decreases |regs|
  {
    if regs == [] then 0
    else RegCount(regs[..|regs| - 1], t) + (if regs[|regs| - 1].trip == t then 1 else 0)
  }

  predicate Registered(regs: seq<Registration>, c: int, t: int)
  {
    exists k :: 0 <= k < |regs| && regs[k].client == c && regs[k].trip == t
  }

  /** The primary key (IdClient, IdTrip) of Client_Trip. */
  ghost predicate UniquePairs(regs: seq<Registration>)
  {
    forall i, j :: 0 <= i < j < |regs| ==> !(regs[i].client == regs[j].client && regs[i].trip == regs[j].trip)
  }

  /** No trip holds more registrations than its MaxPeople. */
  ghost predicate WithinCapacity(trips: map<int, TripRecord>, regs: seq<Registration>)
  {
    forall t :: t in trips ==> RegCount(regs, t) <= trips[t].maxPeople
  }

  /** `DELETE FROM Client_Trip WHERE IdClient = c AND IdTrip = t`: the rows that remain. */
  function RemovePair(regs: seq<Registration>, c: int, t: int): (rest: seq<Registration>)
    ensures forall r :: r in rest <==> r in regs && !(r.client == c && r.trip == t)
    ensures |rest| <= |regs|
    ensures |rest| == |regs| <==> !Registered(regs, c, t)
    ensures forall u :: RegCount(rest, u) <= RegCount(regs, u)
    ensures forall u :: u != t ==> RegCount(rest, u) == RegCount(regs, u)
    decreases |regs|
  {
    if regs == [] then []
    else
      var p := regs[..|regs| - 1];
      var r := regs[|regs| - 1];
      assert regs == p + [r];
      RegisteredSnoc(p, r, c, t);
      var rest := RemovePair(p, c, t);
      if r.client == c && r.trip == t then
        assert forall u :: RegCount(regs, u) == RegCount(p, u) + (if r.trip == u then 1 else 0) by {
          forall u ensures RegCount(regs, u) == RegCount(p, u) + (if r.trip == u then 1 else 0) {
            RegCountSnoc(p, r, u);
          }
        }
        rest
      else
        assert forall u :: RegCount(rest + [r], u) - RegCount(rest, u) == RegCount(regs, u) - RegCount(p, u) by {
          forall u ensures RegCount(rest + [r], u) - RegCount(rest, u) == RegCount(regs, u) - RegCount(p, u) {
            RegCountSnoc(p, r, u);
            RegCountSnoc(rest, r, u);
          }
        }
        rest + [r]
  }

  /** A table extended by one row holds the pair exactly when the row or the table does. */
  lemma RegisteredSnoc(regs: seq<Registration>, r: Registration, c: int, t: int)
    ensures Registered(regs + [r], c, t) <==> Registered(regs, c, t) || (r.client == c && r.trip == t)
  {
    var all := regs + [r];
    if Registered(regs, c, t) {
      var k :| 0 <= k < |regs| && regs[k].client == c && regs[k].trip == t;
      assert all[k] == regs[k];
    }
    if Registered(all, c, t) && !(r.client == c && r.trip == t) {
      var k :| 0 <= k < |all| && all[k].client == c && all[k].trip == t;
      assert regs[k] == all[k];
    }
    if r.client == c && r.trip == t {
      assert all[|regs|] == r;
    }
  }

  /**
   * The scalar of the capacity query: `CASE WHEN COUNT(*) < t.MaxPeople THEN 1
   * ELSE 0 END` over the trip's Client_Trip rows, grouped by MaxPeople. With no
   * registration for the trip there is no group, so no row: the scalar is null.
   */
  function CapacityScalar(trips: map<int, TripRecord>, regs: seq<Registration>, t: int): (v: Option<int>)
    ensures v.None? <==> t !in trips || RegCount(regs, t) == 0
    ensures v.Some? ==> (v.value == 1 <==> RegCount(regs, t) < trips[t].maxPeople) && (v.value == 0 || v.value == 1)
  {
    if t !in trips || RegCount(regs, t) == 0 then None
    else Some(if RegCount(regs, t) < trips[t].maxPeople then 1 else 0)
  }

  /** The SqlException number of the INSERT into Client_Trip, if it fails. */
  function InsertError(regs: seq<Registration>, c: int, t: int, fault: Option<int>): (e: Option<int>)
    ensures fault.None? ==> (e.Some? <==> Registered(regs, c, t)) && (e.Some? ==> e.value == DuplicateKey)
    ensures fault.Some? ==> e == fault
  {
    if fault.Some? then fault
    else if Registered(regs, c, t) then Some(DuplicateKey)
    else None
  }

  /** How RegisterClientForTrip ends, decided before anything is written. */
  datatype Outcome = Inserted | Rejected(error: ServiceError)

  /**
   * The checks of RegisterClientForTrip exactly as written: client, trip, the
   * `(int)` cast of the capacity scalar, the insert.
   */
  function RegisterOutcomeAsWritten(clients: set<int>, trips: map<int, TripRecord>, regs: seq<Registration>,
                                    c: int, t: int, fault: Option<int>): (o: Outcome)
    ensures o == Inserted <==>
              c in clients && t in trips && 0 < RegCount(regs, t) < trips[t].maxPeople &&
              !Registered(regs, c, t) && fault.None?
    ensures o == Rejected(NullScalar) <==> c in clients && t in trips && RegCount(regs, t) == 0
  {
    if c !in clients then Rejected(ClientNotFound)
    else if t !in trips then Rejected(TripNotFound)
    else match CapacityScalar(trips, regs, t)
      case None => Rejected(NullScalar)
      case Some(v) =>
        if v == 0 then Rejected(MaxPeopleReached)
        else match InsertError(regs, c, t, fault)
          case Some(n) => Rejected(if n == DuplicateKey then ClientAlreadyRegistered else SqlError(n))
          case None => Inserted
  }

  /** The capacity check evidently intended: a free place exists while COUNT(*) < MaxPeople. */
  predicate HasCapacity(trips: map<int, TripRecord>, regs: seq<Registration>, t: int)
    requires t in trips
  {
    RegCount(regs, t) < trips[t].maxPeople
  }

  /**
   * The checks of RegisterClientForTrip with the capacity check as intended:
   * client, trip, a free place, the insert.
   */
  function RegisterOutcome(clients: set<int>, trips: map<int, TripRecord>, regs: seq<Registration>,
                           c: int, t: int, fault: Option<int>): (o: Outcome)
    ensures o == Inserted <==>
              c in clients && t in trips && RegCount(regs, t) < trips[t].maxPeople &&
              !Registered(regs, c, t) && fault.None?
    ensures o != Rejected(NullScalar)
  {
    if c !in clients then Rejected(ClientNotFound)
    else if t !in trips then Rejected(TripNotFound)
    else if !HasCapacity(trips, regs, t) then Rejected(MaxPeopleReached)
    else match InsertError(regs, c, t, fault)
      case Some(n) => Rejected(if n == DuplicateKey then ClientAlreadyRegistered else SqlError(n))
      case None => Inserted
  }

  // ---------------------------------------------------------------------------
  // Properties of the table operations and of the registration decision
  // ---------------------------------------------------------------------------

  lemma RegCountSnoc(regs: seq<Registration>, reg: Registration, u: int)
    ensures RegCount(regs + [reg], u) == RegCount(regs, u) + if reg.trip == u then 1 else 0
  {
    assert (regs + [reg])[..|regs|] == regs;
  }

  /** A registration for trip `t` contributes to its count. */
  lemma {:induction false} RegCountPositive(regs: seq<Registration>, k: nat)
    requires k < |regs|
    ensures RegCount(regs, regs[k].trip) > 0
    decreases |regs|
  {
    if k < |regs| - 1 {
      RegCountPositive(regs[..|regs| - 1], k);
    }
  }

  /**
   * As written, the first registration of a trip never succeeds: with no
   * Client_Trip row for the trip the capacity query yields no row, and casting
   * its null scalar throws, whatever MaxPeople and the insert would do.
   */
  lemma FirstRegistrationAlwaysFails(clients: set<int>, trips: map<int, TripRecord>, regs: seq<Registration>,
                                     c: int, t: int, fault: Option<int>)
    requires c in clients && t in trips && RegCount(regs, t) == 0
    ensures RegisterOutcomeAsWritten(clients, trips, regs, c, t, fault) == Rejected(NullScalar)
  {
  }

  /** The Client_Trip table after a series of calls (client, trip, insert fault) decided as written. */
  function RegisterAllAsWritten(clients: set<int>, trips: map<int, TripRecord>, regs: seq<Registration>,
                                calls: seq<(int, int, Option<int>)>, registeredAt: int): (regs': seq<Registration>)
    ensures |regs| <= |regs'| <= |regs| + |calls|
    decreases |calls|
  {
    if calls == [] then regs
    else
      var before := RegisterAllAsWritten(clients, trips, regs, calls[..|calls| - 1], registeredAt);
      var (c, t, fault) := calls[|calls| - 1];
      if RegisterOutcomeAsWritten(clients, trips, before, c, t, fault) == Inserted
      then before + [Registration(c, t, registeredAt, None)]
      else before
  }

  /** Hence, as written, a trip without registrations keeps none, whatever calls are made. */
  lemma {:induction false} EmptyTripStaysEmpty(clients: set<int>, trips: map<int, TripRecord>, regs: seq<Registration>,
                                               t: int, calls: seq<(int, int, Option<int>)>, registeredAt: int)
    requires RegCount(regs, t) == 0
    ensures RegCount(RegisterAllAsWritten(clients, trips, regs, calls, registeredAt), t) == 0
    decreases |calls|
  {
    if calls != [] {
      var regs' := RegisterAllAsWritten(clients, trips, regs, calls[..|calls| - 1], registeredAt);
      EmptyTripStaysEmpty(clients, trips, regs, t, calls[..|calls| - 1], registeredAt);
      var (c, u, fault) := calls[|calls| - 1];
      if RegisterOutcomeAsWritten(clients, trips, regs', c, u, fault) == Inserted {
        RegCountSnoc(regs', Registration(c, u, registeredAt, None), t);
      }
    }
  }

  /** With the intended check, a trip with room admits its first client. */
  lemma FirstRegistrationAdmitted(clients: set<int>, trips: map<int, TripRecord>, regs: seq<Registration>,
                                  c: int, t: int)
    requires c in clients && t in trips && RegCount(regs, t) == 0 < trips[t].maxPeople
    ensures RegisterOutcome(clients, trips, regs, c, t, None) == Inserted
  {
    if Registered(regs, c, t) {
      var k :| 0 <= k < |regs| && regs[k].client == c && regs[k].trip == t;
      RegCountPositive(regs, k);
    }
  }

  /** The two decisions differ only on a trip without registrations. */
  lemma OutcomesAgreeOnceRegistered(clients: set<int>, trips: map<int, TripRecord>, regs: seq<Registration>,
                                    c: int, t: int, fault: Option<int>)
    requires t in trips ==> RegCount(regs, t) > 0
    ensures RegisterOutcomeAsWritten(clients, trips, regs, c, t, fault) == RegisterOutcome(clients, trips, regs, c, t, fault)
  {
  }

  /**
   * What the code as written admits, the intended check admits too, and only on
   * a trip that already has registrations: the invariants proved of the intended
   * decision hold for the code as written.
   */
  lemma AdmittedAsWrittenIsAdmitted(clients: set<int>, trips: map<int, TripRecord>, regs: seq<Registration>,
                                    c: int, t: int, fault: Option<int>)
    requires RegisterOutcomeAsWritten(clients, trips, regs, c, t, fault) == Inserted
    ensures RegCount(regs, t) > 0
    ensures RegisterOutcome(clients, trips, regs, c, t, fault) == Inserted
  {
    OutcomesAgreeOnceRegistered(clients, trips, regs, c, t, fault);
  }

  /** An admitted registration never takes a trip past its MaxPeople, so the capacity invariant is kept. */
  lemma RegisterKeepsCapacity(clients: set<int>, trips: map<int, TripRecord>, regs: seq<Registration>,
                              c: int, t: int, fault: Option<int>, registeredAt: int)
    requires RegisterOutcome(clients, trips, regs, c, t, fault) == Inserted
    ensures t in trips && RegCount(regs + [Registration(c, t, registeredAt, None)], t) <= trips[t].maxPeople
    ensures WithinCapacity(trips, regs) ==> WithinCapacity(trips, regs + [Registration(c, t, registeredAt, None)])
  {
    var reg := Registration(c, t, registeredAt, None);
    forall u
      ensures RegCount(regs + [reg], u) == RegCount(regs, u) + if u == t then 1 else 0
    {
      RegCountSnoc(regs, reg, u);
    }
  }

  /** An admitted registration is for a pair not yet registered, so the primary key stays unique. */
  lemma RegisterKeepsPairsUnique(clients: set<int>, trips: map<int, TripRecord>, regs: seq<Registration>,
                                 c: int, t: int, fault: Option<int>, registeredAt: int)
    requires RegisterOutcome(clients, trips, regs, c, t, fault) == Inserted
    requires UniquePairs(regs)
    ensures !Registered(regs, c, t) && fault.None?
    ensures UniquePairs(regs + [Registration(c, t, registeredAt, None)])
  {
    var regs' := regs + [Registration(c, t, registeredAt, None)];
    forall i, j | 0 <= i < j < |regs'|
      ensures !(regs'[i].client == regs'[j].client && regs'[i].trip == regs'[j].trip)
    {
      if j == |regs| {
        assert regs'[i] == regs[i];
      }
    }
  }

  /**
   * The capacity check comes before the insert, so a full trip reports
   * MaxPeopleReached even to a client already registered for it.
   */
  lemma FullTripReportedBeforeDuplicate(clients: set<int>, trips: map<int, TripRecord>, regs: seq<Registration>,
                                        c: int, t: int, fault: Option<int>)
    requires c in clients && t in trips && trips[t].maxPeople <= RegCount(regs, t)
    ensures RegisterOutcome(clients, trips, regs, c, t, fault) == Rejected(MaxPeopleReached)
    ensures RegisterOutcomeAsWritten(clients, trips, regs, c, t, fault) ==
              if RegCount(regs, t) == 0 then Rejected(NullScalar) else Rejected(MaxPeopleReached)
  {
  }

  /**
   * Registering the same client twice: the second call is refused as a duplicate,
   * or, when the first call filled the trip, as MaxPeopleReached.
   */
  lemma RegisterTwice(clients: set<int>, trips: map<int, TripRecord>, regs: seq<Registration>,
                      c: int, t: int, fault: Option<int>, registeredAt: int)
    requires RegisterOutcome(clients, trips, regs, c, t, fault) == Inserted
    ensures var regs' := regs + [Registration(c, t, registeredAt, None)];
            var second := if RegCount(regs', t) < trips[t].maxPeople then Rejected(ClientAlreadyRegistered)
                          else Rejected(MaxPeopleReached);
            t in trips &&
            RegisterOutcome(clients, trips, regs', c, t, None) == second &&
            RegisterOutcomeAsWritten(clients, trips, regs', c, t, None) == second
  {
    var regs' := regs + [Registration(c, t, registeredAt, None)];
    RegCountSnoc(regs, Registration(c, t, registeredAt, None), t);
    assert regs'[|regs|].client == c && regs'[|regs|].trip == t;
    OutcomesAgreeOnceRegistered(clients, trips, regs', c, t, None);
  }

  /**
   * Taking the last place: the call succeeds, the trip is then full, and every
   * later client is refused. As written, the call succeeds only when the trip
   * already has registrations (MaxPeople of 2 or more); for MaxPeople 1 the last
   * place is also the first, and the cast of the null scalar throws.
   */
  lemma LastPlaceTaken(clients: set<int>, trips: map<int, TripRecord>, regs: seq<Registration>,
                       c: int, t: int, registeredAt: int, other: int, fault: Option<int>)
    requires c in clients && t in trips && !Registered(regs, c, t)
    requires RegCount(regs, t) == trips[t].maxPeople - 1
    requires other in clients
    ensures RegisterOutcome(clients, trips, regs, c, t, None) == Inserted
    ensures RegisterOutcomeAsWritten(clients, trips, regs, c, t, None) ==
              if trips[t].maxPeople == 1 then Rejected(NullScalar) else Inserted
    ensures var regs' := regs + [Registration(c, t, registeredAt, None)];
            RegCount(regs', t) == trips[t].maxPeople &&
            RegisterOutcome(clients, trips, regs', other, t, fault) == Rejected(MaxPeopleReached) &&
            RegisterOutcomeAsWritten(clients, trips, regs', other, t, fault) == Rejected(MaxPeopleReached)
  {
    RegCountSnoc(regs, Registration(c, t, registeredAt, None), t);
  }

  /** Deleting a pair that is not registered leaves the table as it is. */
  lemma {:induction false} RemoveAbsentPair(regs: seq<Registration>, c: int, t: int)
    requires !Registered(regs, c, t)
    ensures RemovePair(regs, c, t) == regs
    decreases |regs|
  {
    if regs != [] {
      var p := regs[..|regs| - 1];
      assert regs == p + [regs[|regs| - 1]];
      assert !Registered(p, c, t) by {
        forall k | 0 <= k < |p| ensures !(p[k].client == c && p[k].trip == t) {
          assert p[k] == regs[k];
        }
      }
      RemoveAbsentPair(p, c, t);
    }
  }

  /** After the delete the pair is gone, so a second delete affects no rows. */
  lemma DeleteTwice(regs: seq<Registration>, c: int, t: int)
    ensures !Registered(RemovePair(regs, c, t), c, t)
    ensures RemovePair(RemovePair(regs, c, t), c, t) == RemovePair(regs, c, t)
  {
    RemoveAbsentPair(RemovePair(regs, c, t), c, t);
  }

  /** The delete keeps the primary key unique and every trip within capacity. */
  lemma {:induction false} DeleteKeepsInvariants(trips: map<int, TripRecord>, regs: seq<Registration>, c: int, t: int)
    requires UniquePairs(regs) && WithinCapacity(trips, regs)
    ensures UniquePairs(RemovePair(regs, c, t)) && WithinCapacity(trips, RemovePair(regs, c, t))
    decreases |regs|
  {
    if regs != [] {
      var p := regs[..|regs| - 1];
      var r := regs[|regs| - 1];
      assert regs == p + [r];
      assert UniquePairs(p) by {
        forall i, j | 0 <= i < j < |p| ensures !(p[i].client == p[j].client && p[i].trip == p[j].trip) {
          assert p[i] == regs[i] && p[j] == regs[j];
        }
      }
      assert WithinCapacity(trips, p) by {
        forall u | u in trips ensures RegCount(p, u) <= trips[u].maxPeople {
          assert RegCount(p, u) <= RegCount(regs, u);
        }
      }
      DeleteKeepsInvariants(trips, p, c, t);
      var rest := RemovePair(p, c, t);
      if !(r.client == c && r.trip == t) {
        var rest' := rest + [r];
        forall i, j | 0 <= i < j < |rest'|
          ensures !(rest'[i].client == rest'[j].client && rest'[i].trip == rest'[j].trip)
        {
          if j == |rest| {
            assert rest'[i] == rest[i] && rest[i] in rest;
            var k :| 0 <= k < |p| && p[k] == rest[i];
            assert regs[k] == p[k];
          } else {
            assert rest'[i] == rest[i] && rest'[j] == rest[j];
          }
        }
      }
    }
  }

  /** Registering a new pair and deleting it again restores the table. */
  lemma RegisterThenDelete(regs: seq<Registration>, c: int, t: int, registeredAt: int)
    requires !Registered(regs, c, t)
    ensures RemovePair(regs + [Registration(c, t, registeredAt, None)], c, t) == regs
  {
    var regs' := regs + [Registration(c, t, registeredAt, None)];
    assert regs'[..|regs'| - 1] == regs;
    RemoveAbsentPair(regs, c, t);
  }

  // ---------------------------------------------------------------------------
  // The database and the service operations
  // ---------------------------------------------------------------------------

  /**
   * The tables the service reads and writes. `nextId` is the identity seed of
   * Client.IdClient.
   */
  class Database {
    var clients: map<int, ClientDTO>
    var nextId: int
    var trips: map<int, TripRecord>
    var countries: map<int, string>
    var countryTrips: seq<CountryTrip>
    var registrations: seq<Registration>

    /** Empty tables; the identity seed starts at 1. */
    constructor ()
      ensures clients == map[] && nextId == 1 && trips == map[] && countries == map[]
      ensures countryTrips == [] && registrations == []
      ensures Valid()
    {
      clients, nextId, trips, countries := map[], 1, map[], map[];
      countryTrips, registrations := [], [];
    }

    ghost predicate Valid()
      reads this
    {
      && 1 <= nextId
      && (forall c :: c in clients ==> c < nextId)
      && UniquePairs(registrations)
      && WithinCapacity(trips, registrations)
    }

    /** The rows of the client-trips query for client `id`. */
    function Rows(id: int): seq<ClientTripRow>
      reads this
    {
      ClientTripRows(trips, countries, countryTrips, registrations, id)
    }
  }

  /**
   * GetClientTrips (ClientsService.cs:12-95): ClientNotFound for an unknown
   * client, otherwise the row fold. `order` is the insertion order in which
   * `tripsDict.Values` enumerates.
   */
  method GetClientTrips(db: Database, id: int) returns (r: Result<seq<ClientTripDto>, ServiceError>)
    ensures id !in db.clients ==> r == Err(ClientNotFound)
    ensures id in db.clients ==> r == ClientTrips(db.Rows(id))
  {
    if id !in db.clients {
      return Err(ClientNotFound);
    }
    r := ReadClientTrips(db.Rows(id));
  }

  /** The reader loop of GetClientTrips over the rows of the client-trips query. */
  method ReadClientTrips(rows: seq<ClientTripRow>) returns (r: Result<seq<ClientTripDto>, ServiceError>)
    ensures r == ClientTrips(rows)
  {
    var tripsDict: map<int, ClientTripDto> := map[];
    var countriesDict: map<int, CountryDTO> := map[];
    var order: seq<int> := [];
    var i := 0;
    FoldStart(rows);
    while i < |rows|
      invariant 0 <= i <= |rows|
      invariant ClientFoldSoFar(rows, i, countriesDict, tripsDict, order)
    {
      ghost var cd, td, seen := countriesDict, tripsDict, order;
      var row := rows[i].row;
      if row.countryId !in countriesDict {
        countriesDict := countriesDict[row.countryId := CountryDTO(row.countryId, row.countryName)];
      }
      var entry: ClientTripDto;
      if row.tripId in tripsDict {
        entry := tripsDict[row.tripId];
      } else {
        var dates := ReadDates(rows[i]);
        if dates.None? {
          UnreadableFirstRow(rows, i, tripsDict);
          return Err(BadDateFormat);
        }
        entry := ClientTripDto(NewTrip(row), dates.value.0, dates.value.1);
        order := order + [row.tripId];
      }
      tripsDict := tripsDict[row.tripId := entry.(trip := entry.trip.(countries := entry.trip.countries + [countriesDict[row.countryId]]))];
      ClientRowStep(rows, i, cd, td, seen, countriesDict, entry, tripsDict, order);
      i := i + 1;
    }
    FoldComplete(rows, tripsDict, order);
    r := Ok(Values(tripsDict, order));
  }

  /** CreateClient (ClientsService.cs:97-116): the insert returns the new identity value. */
  method CreateClient(db: Database, client: ClientDTO) returns (id: int)
    modifies db`clients, db`nextId
    ensures id == old(db.nextId) && db.nextId == id + 1
    ensures db.clients == old(db.clients)[id := client]
    ensures old(db.Valid()) ==> db.Valid() && id >= 1 && id !in old(db.clients)
  {
    id := db.nextId;
    db.clients := db.clients[id := client];
    db.nextId := db.nextId + 1;
  }

  /**
   * RegisterClientForTrip (ClientsService.cs:118-193), with the capacity query
   * as written: its scalar is null for a trip without registrations, and the
   * `(int)` cast of that null throws (NullScalar). `today` is DateTime.Now and
   * `fault` the error number of the INSERT when the database raises one of its
   * own; a duplicate pair raises 2627 without a fault.
   */
  method RegisterClientForTrip(db: Database, id: int, tripId: int, today: Date, fault: Option<int>)
      returns (r: Result<seq<ClientTripDto>, ServiceError>)
    requires IsValid(today)
    modifies db`registrations
    ensures var outcome := RegisterOutcomeAsWritten(db.clients.Keys, db.trips, old(db.registrations), id, tripId, fault);
            if outcome.Inserted? then
              db.registrations == old(db.registrations) + [Registration(id, tripId, Encode(today), None)] &&
              r == ClientTrips(db.Rows(id))
            else
              db.registrations == old(db.registrations) && r == Err(outcome.error)
    ensures old(db.Valid()) ==> db.Valid()
  {
    if id !in db.clients {
      return Err(ClientNotFound);
    }
    if tripId !in db.trips {
      return Err(TripNotFound);
    }
    var scalar := CapacityScalar(db.trips, db.registrations, tripId);
    if scalar.None? {
      return Err(NullScalar);
    }
    if scalar.value == 0 {
      return Err(MaxPeopleReached);
    }
    var registeredAt := Encode(today);
    var error := InsertError(db.registrations, id, tripId, fault);
    if error.Some? {
      return Err(if error.value == DuplicateKey then ClientAlreadyRegistered else SqlError(error.value));
    }
    if db.Valid() {
      AdmittedAsWrittenIsAdmitted(db.clients.Keys, db.trips, db.registrations, id, tripId, fault);
      RegisterKeepsCapacity(db.clients.Keys, db.trips, db.registrations, id, tripId, fault, registeredAt);
      RegisterKeepsPairsUnique(db.clients.Keys, db.trips, db.registrations, id, tripId, fault, registeredAt);
    }
    db.registrations := db.registrations + [Registration(id, tripId, registeredAt, None)];
    r := GetClientTrips(db, id);
  }

  /**
   * DeleteClientRegistration (ClientsService.cs:195-245): a delete that affects
   * no row means the client was not registered.
   */
  method DeleteClientRegistration(db: Database, id: int, tripId: int)
      returns (r: Result<seq<ClientTripDto>, ServiceError>)
    modifies db`registrations
    ensures id !in db.clients ==> r == Err(ClientNotFound) && db.registrations == old(db.registrations)
    ensures id in db.clients && tripId !in db.trips ==>
              r == Err(TripNotFound) && db.registrations == old(db.registrations)
    ensures id in db.clients && tripId in db.trips ==>
              db.registrations == RemovePair(old(db.registrations), id, tripId) &&
              r == if Registered(old(db.registrations), id, tripId) then ClientTrips(db.Rows(id))
                   else Err(ClientNotRegistered)
    ensures old(db.Valid()) ==> db.Valid()
  {
    if id !in db.clients {
      return Err(ClientNotFound);
    }
    if tripId !in db.trips {
      return Err(TripNotFound);
    }
    if db.Valid() {
      DeleteKeepsInvariants(db.trips, db.registrations, id, tripId);
    }
    var before := |db.registrations|;
    db.registrations := RemovePair(db.registrations, id, tripId);
    var rowsAffected := before - |db.registrations|;
    if rowsAffected == 0 {
      return Err(ClientNotRegistered);
    }
    r := GetClientTrips(db, id);
  }
}
