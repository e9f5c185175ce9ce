# Tutorial8 travel agency: a Dafny model of its services and client controller

Tutorial8 is a small ASP.NET Web API over a SQL Server database of trips, countries and
clients. This project models the logic that sits between the SQL queries and the HTTP
responses:

- **TripsService** (`trips_service.dfy`).
  - `GetTrips` folds the flat `Trip ⋈ Country_Trip ⋈ Country` rows into trips. Each trip has its
    list of countries, and two dictionaries keyed by id drive the fold.
  - `GetTripById` does the same for one trip.
  - Both are imperative loops over a `seq<TripRow>` standing for the data reader. They are proved
    equal to the reference definitions `GroupTrips` and `TripById`, whose properties are lemmas.
- **ClientsService** (`clients_service.dfy`).
  - The store is a `Database` class holding the tables Client, Trip, Country, Country_Trip and
    Client_Trip. The rows of the client-trips query are computed from those tables.
  - `GetClientTrips` is the same fold as `GetTrips`, plus the registration and payment dates
    decoded from `yyyyMMdd` integers.
  - `RegisterClientForTrip` checks client, trip and capacity, then inserts. The capacity query is
    modelled as written, so a trip without registrations fails the `(int)` cast (see Findings).
  - `DeleteClientRegistration` checks client and trip, then deletes.
  - `CreateClient` inserts and returns the new identity value.
  - Each workflow's decision is a function: `RegisterOutcomeAsWritten` for registration and
    `RemovePair` for deletion. `RegisterOutcome` is the registration decision with the capacity check
    as evidently intended. The primary-key and capacity invariants are proved about these functions.
    Whatever the as-written decision admits, the intended one admits too
    (`AdmittedAsWrittenIsAdmitted`), so the methods keep `Database.Valid()`.
- **Dates** (`dates.dfy`): the `yyyyMMdd` integer codec, `Int32.Parse(d.ToString("yyyyMMdd"))`
  and `DateTime.ParseExact`, written as arithmetic on the digit groups.
- **Dtos** (`dtos.dfy`): `TripDTO`, `CountryDTO` and `TripDTO.Equals`, which compares ids only.
- **ClientsController** (`clients_controller.dfy`):
  - a small matcher for the four anchored regular expressions;
  - the ordered validation chain of `CreateClient`;
  - the mapping from service results and exceptions to HTTP statuses for the three
    service-calling actions.
- `sequences.dfy` and `wrappers.dfy` hold the generic helpers: first occurrences, de-duplication
  in first-seen order, counts, `Option`, `Result`.

Row order is fixed by the model. For the client-trips query, the rows come in Client_Trip table
order, and within a registration in Country_Trip order. `tripsDict.Values` is
listed in insertion order: .NET leaves the enumeration order of a Dictionary unspecified, but a
dictionary from which no entry is ever removed enumerates in insertion order, and these
dictionaries never lose an entry.

Three behaviours of the code worth knowing:

- A trip's country list is not de-duplicated. Every row appends one country, so a country
  linked twice to one trip appears twice.
- The queries have no `ORDER BY`. "First-appearance order" is relative to the order in which the
  reader yields rows, which the model takes as an input.
- As written, the first registration of a trip always fails (see Findings).

## Model

| member | source | states |
|---|---|---|
| Dates.DaysInMonth | Tutorial8/Tutorial8/Services/ClientsService.cs:81-82 | Month lengths of the Gregorian calendar that ParseExact checks: 28..31 days, and February has 29 days exactly in leap years |
| Dates.Encode | Tutorial8/Tutorial8/Services/ClientsService.cs:172 | The code of a valid date lies in 10101..99991231 and has eight digits iff its year is at least 1000; its last two digits are the day, the two before are the month, and the rest is the year |
| Dates.Decode | Tutorial8/Tutorial8/Services/ClientsService.cs:81 | ParseExact succeeds only on an integer of exactly eight digits, and what it yields is a valid date with a four-digit year |
| Dates.DecodeNullable | Tutorial8/Tutorial8/Services/ClientsService.cs:82 | A DB-null payment date reads as null and never as an error; a non-null one reads exactly when it decodes, and as what it decodes to |
| Dates.DecodeEncode | Tutorial8/Tutorial8/Services/ClientsService.cs:172 | Decoding the code of any valid date of the years 1000..9999 gives back that date |
| Dates.EncodeDecode | Tutorial8/Tutorial8/Services/ClientsService.cs:81 | Every integer that decodes is the code of the date it decodes to, so the codec is a bijection on eight-digit codes |
| Dates.EarlyYearsDoNotRoundTrip | Tutorial8/Tutorial8/Services/ClientsService.cs:81 | A date before year 1000 encodes to fewer than eight digits and does not decode |
| Dtos.EqualsIffSameId | Tutorial8/Tutorial8/Models/DTOs/TripDTO.cs:13-17 | `Equals(o)` holds iff `o` is a TripDTO with the same Id |
| Dtos.TripDTO.Equals | Tutorial8/Tutorial8/Models/DTOs/TripDTO.cs:13-17 | By definition: another TripDTO with the same Id; its meaning is stated in Dtos.EqualsIffSameId |
| Dtos.EqualsRejectsNonTrips | Tutorial8/Tutorial8/Models/DTOs/TripDTO.cs:16 | `Equals` against null or an object of another class is false |
| Dtos.EqualsIgnoresOtherFields | Tutorial8/Tutorial8/Models/DTOs/TripDTO.cs:15 | Two trips that differ only in name, description, dates, MaxPeople or countries are equal |
| Dtos.EqualsIsEquivalence | Tutorial8/Tutorial8/Models/DTOs/TripDTO.cs:15 | `Equals` is reflexive, symmetric and transitive on TripDTOs |
| TripsService.NewTrip | Tutorial8/Tutorial8/Services/TripsService.cs:51-59 | A trip created from a row carries that row's id and scalar fields and starts with an empty country list |
| TripsService.SharedCountry | Tutorial8/Tutorial8/Services/TripsService.cs:30-38 | The one CountryDTO kept for a country id has that id; by definition it carries the name of the first row with that id |
| TripsService.TripCountries | Tutorial8/Tutorial8/Services/TripsService.cs:62 | By definition the shared country of each row of the trip among the first n rows, in row order; stated in TripsService.TripCountriesFollowRows and TripsService.GroupTripsCountriesPerRow |
| TripsService.PartialTrip | Tutorial8/Tutorial8/Services/TripsService.cs:43-62 | By definition the trip as tripsDict holds it after n rows: the fields of its first row and its countries so far; stated in TripsService.TripStep |
| TripsService.GroupTrips | Tutorial8/Tutorial8/Services/TripsService.cs:25-68 | Reference result of GetTrips, by definition; its properties are stated in TripsService.GroupTripsOnePerTripId, TripsService.GroupTripsCountryTotal and TripsService.GetTrips |
| TripsService.TripCountriesCount | Tutorial8/Tutorial8/Services/TripsService.cs:62 | After n rows a trip holds exactly as many countries as it has rows among the first n |
| TripsService.TripCountriesNext | Tutorial8/Tutorial8/Services/TripsService.cs:62 | Row n appends its country's shared entry to its own trip's list and leaves every other trip's list as it is |
| TripsService.TripCountriesUnseen | Tutorial8/Tutorial8/Services/TripsService.cs:43-60 | A trip id not yet read has collected no countries |
| TripsService.CountryStep | Tutorial8/Tutorial8/Services/TripsService.cs:27-38 | Reading a row into countriesDict adds its country only when the id is new, and keeps every entry equal to the one named by its first row |
| TripsService.TripStep | Tutorial8/Tutorial8/Services/TripsService.cs:40-62 | Reading a row into tripsDict creates the trip on its first row and appends the row's shared country; tripsDict then holds every trip read so far, as built so far |
| TripsService.RowStep | Tutorial8/Tutorial8/Services/TripsService.cs:25-63 | One pass of the reader loop keeps all three loop facts: the insertion order is the distinct trip ids read so far, countriesDict and tripsDict match the reference after one more row |
| TripsService.Values | Tutorial8/Tutorial8/Services/TripsService.cs:68 | `tripsDict.Values` lists the entries in key-insertion order, one per inserted key |
| TripsService.TripsComplete | Tutorial8/Tutorial8/Services/TripsService.cs:68 | After the last row, the dictionary's values in insertion order are exactly GroupTrips of the rows |
| TripsService.GetTrips | Tutorial8/Tutorial8/Services/TripsService.cs:10-69 | The reader loop over both dictionaries returns exactly GroupTrips of the rows |
| TripsService.GroupTripsOnePerTripId | Tutorial8/Tutorial8/Services/TripsService.cs:43-68 | Every trip id of the rows appears, and only those; ids come in strictly increasing first-appearance order, so each appears once; scalars come from the first row with that id; no rows give an empty list |
| TripsService.TripCountriesFollowRows | Tutorial8/Tutorial8/Services/TripsService.cs:62 | The j-th country of a trip is the shared entry for the country of the trip's j-th row |
| TripsService.GroupTripsCountriesPerRow | Tutorial8/Tutorial8/Services/TripsService.cs:30-62 | Each trip's countries are one per row of that trip, in row order and not de-duplicated; any two entries with equal country id are the same shared entry |
| TripsService.TotalCountriesIsSumOfCounts | Tutorial8/Tutorial8/Services/TripsService.cs:62 | The total number of country entries is the sum of the trips' row counts |
| TripsService.GroupTripsCountryTotal | Tutorial8/Tutorial8/Services/TripsService.cs:62 | Across all trips there is exactly one country entry per row read |
| TripsService.FreshCountries | Tutorial8/Tutorial8/Services/TripsService.cs:107-114 | GetTripById's countries: one new entry per row, in row order, each from that row's own id and name |
| TripsService.TripById | Tutorial8/Tutorial8/Services/TripsService.cs:85-117 | Null exactly when there are no rows; otherwise the requested id, the first row's other scalars, and one fresh country per row |
| TripsService.GetTripById | Tutorial8/Tutorial8/Services/TripsService.cs:71-120 | The loop that creates the trip on the first row returns exactly TripById |
| TripsService.SharedIsFresh | Tutorial8/Tutorial8/Services/TripsService.cs:30-38 | On one trip's rows whose country names agree, the shared countries equal the fresh ones |
| TripsService.TripByIdAgreesWithGroupTrips | Tutorial8/Tutorial8/Services/TripsService.cs:85-117 | For the rows of one trip with consistent country names, GetTrips and GetTripById build the same single trip |
| TripsService.RepeatedCountryShared | Tutorial8/Tutorial8/Services/TripsService.cs:30-38 | Two rows of one trip with one country id give one trip whose two country entries both carry the first row's name |
| TripsService.SharedAndFreshCountriesDiffer | Tutorial8/Tutorial8/Services/TripsService.cs:110-114 | When two rows name one country differently, GetTrips repeats the first name while GetTripById keeps each row's own name |
| ClientsService.ReadDates | Tutorial8/Tutorial8/Services/ClientsService.cs:81-82 | A row's dates read exactly when RegisteredAt decodes and PaymentDate is null or decodes; a null PaymentDate reads as null, and a non-null one as its decoding |
| ClientsService.ClientTrips | Tutorial8/Tutorial8/Services/ClientsService.cs:43-94 | Reference listing of GetClientTrips, by definition; its properties are stated in ClientsService.ClientTripsFollowGroupTrips and ClientsService.ReadClientTrips |
| ClientsService.ClientTripStep | Tutorial8/Tutorial8/Services/ClientsService.cs:61-87 | Reading a row creates the client trip with the row's dates on its first row, then appends the shared country; the dictionary then matches the reference after one more row |
| ClientsService.ClientRowStep | Tutorial8/Tutorial8/Services/ClientsService.cs:43-88 | One pass of the reader loop over a row whose dates read keeps all three loop facts: insertion order, countriesDict and tripsDict match the reference after one more row |
| ClientsService.UnreadableFirstRow | Tutorial8/Tutorial8/Services/ClientsService.cs:81-82 | A trip whose first row holds an unparsable date makes the whole listing fail with BadDateFormat |
| ClientsService.FoldStart | Tutorial8/Tutorial8/Services/ClientsService.cs:14-15 | Before the first row both dictionaries and the insertion order are empty |
| ClientsService.FoldComplete | Tutorial8/Tutorial8/Services/ClientsService.cs:94 | After the last row, the dictionary's values in insertion order are the reference listing ClientTrips |
| ClientsService.ClientTripsFollowGroupTrips | Tutorial8/Tutorial8/Services/ClientsService.cs:61-94 | The listing fails iff some trip's first row has an unreadable date, and then with BadDateFormat. Otherwise it lists GroupTrips of the rows, in order, each with the registration date and the payment date (null or decoded) of its first row |
| ClientsService.RegistrationRows | Tutorial8/Tutorial8/Services/ClientsService.cs:20 | Every joined row of a registration is for its trip and carries its RegisteredAt and PaymentDate |
| ClientsService.LinkedTripHasRows | Tutorial8/Tutorial8/Services/ClientsService.cs:20 | A registration for an existing trip linked to an existing country yields at least one row |
| ClientsService.RowsComeFromRegistrations | Tutorial8/Tutorial8/Services/ClientsService.cs:20 | Every row of the client-trips query is for a trip the client is registered for |
| ClientsService.ClientTripRows | Tutorial8/Tutorial8/Services/ClientsService.cs:20 | By definition the joined rows of the client's registrations in Client_Trip order; stated in ClientsService.RowsComeFromRegistrations, ClientsService.LinkedTripHasRows and ClientsService.NoRegistrationsNoTrips |
| ClientsService.NewRegistrationFirstRow | Tutorial8/Tutorial8/Services/ClientsService.cs:61-82 | The first row of a newly registered trip follows all earlier rows and carries the new registration's dates |
| ClientsService.RegistrationListed | Tutorial8/Tutorial8/Services/ClientsService.cs:168-192 | After inserting (client, trip, today), a successful listing holds that trip with registration date today and no payment date |
| ClientsService.NoRegistrationsNoTrips | Tutorial8/Tutorial8/Services/ClientsService.cs:20-94 | A client without registrations gets no rows and an empty list, not an error |
| ClientsService.RemovePair | Tutorial8/Tutorial8/Services/ClientsService.cs:202-203 | The DELETE keeps exactly the rows other than (client, trip); it removes rows iff the pair was registered; no trip's count grows, and other trips' counts are unchanged |
| ClientsService.CapacityScalar | Tutorial8/Tutorial8/Services/ClientsService.cs:125-126 | The capacity query yields null iff the trip has no registrations (or does not exist); otherwise 1 iff COUNT(*) < MaxPeople, and 0 otherwise |
| ClientsService.HasCapacity | Tutorial8/Tutorial8/Services/ClientsService.cs:125-126 | By definition the trip's registration count is below MaxPeople, the check the capacity query is meant to make; used by ClientsService.RegisterOutcome |
| ClientsService.RegisterOutcomeAsWritten | Tutorial8/Tutorial8/Services/ClientsService.cs:135-189 | As written: the registration is inserted iff client and trip exist, the trip has between 1 and MaxPeople-1 registrations, the pair is unregistered and no fault occurs; NullScalar iff client and trip exist and the trip has no registration |
| ClientsService.RegisterOutcome | Tutorial8/Tutorial8/Services/ClientsService.cs:135-189 | Corrected: inserted iff client and trip exist, fewer than MaxPeople registrations, the pair is unregistered and no fault occurs; never NullScalar |
| ClientsService.InsertError | Tutorial8/Tutorial8/Services/ClientsService.cs:174-188 | Without a server fault the insert fails iff the pair is already registered, and then with 2627; a server fault passes through unchanged |
| ClientsService.FirstRegistrationAlwaysFails | Tutorial8/Tutorial8/Services/ClientsService.cs:157-166 | As written, registering for a trip with no registrations is rejected with the null-scalar failure, whatever MaxPeople and the insert would do |
| ClientsService.RegisterAllAsWritten | Tutorial8/Tutorial8/Services/ClientsService.cs:118-193 | A series of registrations decided as written adds at most one row per call |
| ClientsService.EmptyTripStaysEmpty | Tutorial8/Tutorial8/Services/ClientsService.cs:157-166 | As written, a trip without registrations keeps none through any series of registration calls |
| ClientsService.FirstRegistrationAdmitted | Tutorial8/Tutorial8/Services/ClientsService.cs:157-189 | With the corrected capacity check, a trip with room admits its first client |
| ClientsService.OutcomesAgreeOnceRegistered | Tutorial8/Tutorial8/Services/ClientsService.cs:157-166 | The as-written and corrected decisions differ only for a trip without registrations |
| ClientsService.AdmittedAsWrittenIsAdmitted | Tutorial8/Tutorial8/Services/ClientsService.cs:157-189 | A registration the code as written admits is for a trip that already has registrations, and the intended check admits it too |
| ClientsService.RegisterKeepsCapacity | Tutorial8/Tutorial8/Services/ClientsService.cs:157-166 | An admitted registration never takes its trip above MaxPeople, so every trip stays within capacity |
| ClientsService.RegisterKeepsPairsUnique | Tutorial8/Tutorial8/Services/ClientsService.cs:174-188 | A registration is inserted only for an unregistered pair with no server fault, so (IdClient, IdTrip) stays unique |
| ClientsService.FullTripReportedBeforeDuplicate | Tutorial8/Tutorial8/Services/ClientsService.cs:135-188 | Checks run client, trip, capacity, insert: an already-registered client on a full trip gets MaxPeopleReached, not ClientAlreadyRegistered, under both decisions (as written, a full trip with no registrations, MaxPeople ≤ 0, gives the null-scalar failure instead) |
| ClientsService.RegisterTwice | Tutorial8/Tutorial8/Services/ClientsService.cs:157-188 | Registering the same pair again is refused, by the intended and the as-written decision alike: as a duplicate, or as MaxPeopleReached when the first call filled the trip |
| ClientsService.LastPlaceTaken | Tutorial8/Tutorial8/Services/ClientsService.cs:157-189 | Taking the last place brings the count to MaxPeople, and every later client is refused with MaxPeopleReached. The intended check admits the call. As written it is admitted when MaxPeople ≥ 2, and for MaxPeople 1 (the last place is the first) it fails on the null scalar |
| ClientsService.RemoveAbsentPair | Tutorial8/Tutorial8/Services/ClientsService.cs:236-240 | Deleting an unregistered pair affects no row and leaves the table unchanged |
| ClientsService.DeleteTwice | Tutorial8/Tutorial8/Services/ClientsService.cs:202-203 | After a delete the pair is gone, and a second delete changes nothing |
| ClientsService.DeleteKeepsInvariants | Tutorial8/Tutorial8/Services/ClientsService.cs:202-203 | Deleting keeps the primary key unique and every trip within capacity |
| ClientsService.RegisterThenDelete | Tutorial8/Tutorial8/Services/ClientsService.cs:118-245 | Registering a new pair and deleting it restores the table |
| ClientsService.Database.constructor | Tutorial8/Tutorial8/Services/ClientsService.cs:97-116 | Empty tables with the identity seed at 1, satisfying the store invariant |
| ClientsService.Database.Valid | Tutorial8/Tutorial8/Services/ClientsService.cs:125-189 | Store invariant: the identity seed is at least 1 and exceeds every client id, each (client, trip) pair is registered once and no trip exceeds MaxPeople |
| ClientsService.GetClientTrips | Tutorial8/Tutorial8/Services/ClientsService.cs:12-95 | ClientNotFound exactly for an unknown client; otherwise the fold of the rows the client-trips query yields for that client |
| ClientsService.ReadClientTrips | Tutorial8/Tutorial8/Services/ClientsService.cs:41-94 | The reader loop returns exactly the reference listing ClientTrips, including its BadDateFormat failure when a trip's first row has an unreadable date |
| ClientsService.CreateClient | Tutorial8/Tutorial8/Services/ClientsService.cs:97-116 | Inserts the client under a fresh identity value, returns it, and changes no other client |
| ClientsService.RegisterClientForTrip | Tutorial8/Tutorial8/Services/ClientsService.cs:118-193 | Decides as written: client, trip, the `(int)` cast of the capacity scalar (NullScalar for a trip without registrations), capacity, insert. On admission it appends exactly (id, tripId, today as yyyyMMdd, no payment) and returns the listing; on any rejection the table is unchanged and the first failing check's error is returned; the invariants are kept |
| ClientsService.DeleteClientRegistration | Tutorial8/Tutorial8/Services/ClientsService.cs:195-245 | ClientNotFound, then TripNotFound, with no change; otherwise removes only the (id, tripId) rows and returns the listing, or ClientNotRegistered when none was removed; the invariants are kept |
| ClientsController.DomainPatternMeaning | Tutorial8/Tutorial8/Controllers/ClientsController.cs:16 | `[\w+.]+\w+` matches iff the text has at least 2 characters from `[\w+.]` and ends in a word character |
| ClientsController.AtDomainPatternMeaning | Tutorial8/Tutorial8/Controllers/ClientsController.cs:16 | `@[\w+.]+\w+` matches iff the text is '@' followed by a domain |
| ClientsController.EmailPatternMeaning | Tutorial8/Tutorial8/Controllers/ClientsController.cs:16 | The e-mail pattern matches iff the text is word characters, '@', then at least 2 characters of `[\w+.]` ending in a word character |
| ClientsController.ShapeHasOneAt | Tutorial8/Tutorial8/Controllers/ClientsController.cs:16 | Text of that shape has exactly one '@' |
| ClientsController.EmailHasOneAt | Tutorial8/Tutorial8/Controllers/ClientsController.cs:16 | A matching e-mail contains exactly one '@' |
| ClientsController.TelephonePatternMeaning | Tutorial8/Tutorial8/Controllers/ClientsController.cs:17 | A telephone matches iff it is '+' followed by 10 to 12 digits |
| ClientsController.Matches | Tutorial8/Tutorial8/Controllers/ClientsController.cs:15-18 | By definition: the text matches the anchored pattern exactly; its meaning per pattern is stated in the *PatternMeaning lemmas |
| ClientsController.IsMatch | Tutorial8/Tutorial8/Controllers/ClientsController.cs:15-18 | By definition: Matches, or Matches of the text without a final line feed, as `$` allows; stated in ClientsController.TrailingLineFeedAccepted |
| ClientsController.TrailingLineFeedAccepted | Tutorial8/Tutorial8/Controllers/ClientsController.cs:15 | Because `$` also matches before a final line feed, "Ann\n" passes the name check although its characters do not match |
| ClientsController.SampleEmailMatches | Tutorial8/Tutorial8/Controllers/ClientsController.cs:16 | "ann@mail.pl" matches the e-mail pattern |
| ClientsController.SampleTelephoneMatches | Tutorial8/Tutorial8/Controllers/ClientsController.cs:17 | "+48123456789" matches the telephone pattern |
| ClientsController.ClientWithLineFeedAccepted | Tutorial8/Tutorial8/Controllers/ClientsController.cs:62-83 | A client whose first name ends in a line feed passes all five checks |
| ClientsController.ValidateReportsFirstFailure | Tutorial8/Tutorial8/Controllers/ClientsController.cs:62-83 | Validation passes iff all five fields match; otherwise the message is that of the first failing field in the order first name, last name, e-mail, telephone, PESEL, and all earlier fields pass |
| ClientsController.Validate | Tutorial8/Tutorial8/Controllers/ClientsController.cs:62-83 | By definition the message of the first failing field; stated in ClientsController.ValidateReportsFirstFailure |
| ClientsController.ValidClientFields | Tutorial8/Tutorial8/Controllers/ClientsController.cs:15-18 | A validated client has names of 2 to 32 ASCII letters and a PESEL of exactly 11 digits, up to a final line feed |
| ClientsController.TripsResponse | Tutorial8/Tutorial8/Controllers/ClientsController.cs:38-46 | 200 with the trips on success, 404 exactly for ClientNotFound, every other exception unhandled |
| ClientsController.RegisterResponse | Tutorial8/Tutorial8/Controllers/ClientsController.cs:109-132 | 201 with the trips on success; 404 exactly for ClientNotFound and TripNotFound; 409 exactly for MaxPeopleReached and ClientAlreadyRegistered; any other exception passes through |
| ClientsController.DeleteResponse | Tutorial8/Tutorial8/Controllers/ClientsController.cs:153-169 | 200 with the trips on success; 404 exactly for ClientNotFound, TripNotFound and ClientNotRegistered; any other exception passes through |
| ClientsController.RegisterMessagesDistinguishErrors | Tutorial8/Tutorial8/Controllers/ClientsController.cs:117-132 | The four handled registration exceptions have four different messages |
| ClientsController.GetClientTrips | Tutorial8/Tutorial8/Controllers/ClientsController.cs:36-47 | 404 "Client not found" for an unknown client; otherwise the mapped listing |
| ClientsController.CreateClient | Tutorial8/Tutorial8/Controllers/ClientsController.cs:60-88 | 400 with the first failing field's message and no insert, or 201 carrying the new client's id, inserted exactly once |
| ClientsController.RegisterClientForTrip | Tutorial8/Tutorial8/Controllers/ClientsController.cs:107-133 | The service's as-written table update, with its outcome mapped to 201/404/409, or left unhandled (a server error), as for the null scalar of a trip without registrations |
| ClientsController.DeleteClientRegistration | Tutorial8/Tutorial8/Controllers/ClientsController.cs:151-170 | The service's delete, with its outcome mapped to 200/404 |
| ClientsController.FirstRegistrationIsServerError | Tutorial8/Tutorial8/Controllers/ClientsController.cs:107-133 | As written, registering for a trip with no registrations ends in an unhandled exception, not 201 |

## Left out

- SQL and connection plumbing: connection strings, `SqlConnection`/`SqlCommand`, async/await and
  `SCOPE_IDENTITY`. The tables are fields of `Database`. The reader becomes a `seq` of rows, and the
  identity seed is `Database.nextId`.
- SQL join semantics and row order. The inner joins (which drop trips that have no country) are
  taken as given: `GetTrips` and `GetTripById` receive their rows as input. The client-trips rows
  are computed from the tables in one fixed order, while SQL Server guarantees no order without
  `ORDER BY`.
- Concurrency. The capacity check and the insert are separate commands with no transaction.
  `RegisterKeepsCapacity` and `Database.Valid()` hold for sequential execution only, and the
  check-then-act race is not modelled.
- `DateTime.Now` is the parameter `today`. `DateFrom`/`DateTo` are opaque `Timestamp` values.
- The `ToString`/`ParseExact` string layer is reduced to arithmetic on the digit groups. Cultures
  whose calendar is not Gregorian (where `ToString("yyyyMMdd")` writes another year) are not
  modelled.
- Regular expressions: `\w` and `\d` are ASCII here, while .NET also matches Unicode letters and
  digits with them. Only the constructs of the four patterns are modelled, and `$` before a final
  line feed is included.
- Storage failures are modelled only for the INSERT into Client_Trip (parameter `fault`). Errors of
  the other queries, of the connection, and of casts other than the capacity scalar are not
  modelled.
- Object identity: the shared `CountryDTO` references of `GetTrips`/`GetClientTrips` are modelled by
  value, as equality with the entry named by the first row with that id. Later mutation through
  one shared reference is not expressible.
- ClientsService.CreateClient: does not model Client columns beyond the five posted fields, or
  failures of the insert.
- TripsController.cs only maps a null trip to 404. IClientsService.cs is an interface without
  behaviour. Neither is modelled.
- The files declaring `ClientDTO`, `ClientTripDto` and the exception classes are not part of this
  model. Their shapes are reconstructed from their uses in ClientsService.cs and
  ClientsController.cs.
- `int` overflow: ids, MaxPeople and counts are unbounded integers. The source's 32-bit ints
  cannot overflow at this service's scale.

## Findings

| source | as written | input that shows it | evidently intended | confidence | as-written member | corrected member |
|---|---|---|---|---|---|---|
| Tutorial8/Tutorial8/Services/ClientsService.cs:125-166 | The capacity query counts Client_Trip rows grouped by MaxPeople and filtered on the trip, so a trip with no registration yields no row. `(int)` then casts a null scalar and throws, which the controller does not catch | Any existing client registering for an existing trip with MaxPeople ≥ 1 and no registrations yet | The first client is admitted while COUNT(*) < MaxPeople, with a count of 0 when there are no registrations | not executed | ClientsService.FirstRegistrationAlwaysFails | ClientsService.FirstRegistrationAdmitted |

Because of this, as written no trip can ever get its first registration through the API
(`ClientsService.EmptyTripStaysEmpty`, `ClientsController.FirstRegistrationIsServerError`). The
model keeps the query as written in `ClientsService.RegisterOutcomeAsWritten` and `CapacityScalar`.
The service and controller methods `RegisterClientForTrip` decide by that function, as the code does.
The corrected check is `ClientsService.RegisterOutcome`, and the capacity and uniqueness lemmas are
proved about it. `ClientsService.OutcomesAgreeOnceRegistered` shows that the two decisions differ
only on trips without registrations. `ClientsService.AdmittedAsWrittenIsAdmitted` shows that every
registration admitted as written is admitted by the corrected check, so those lemmas also cover
the code as written.
