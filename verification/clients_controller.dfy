/**
 * ClientsController: the format checks of CreateClient over its four regular
 * expressions, and the translation of service results and exceptions into
 * HTTP responses.
 */
module ClientsController {
  import opened Wrappers
  import opened Dates
  import opened Dtos
  import ClientsService

  // ---------------------------------------------------------------------------
  // The regular expressions
  // ---------------------------------------------------------------------------

  /** The character classes the four patterns use; `\w` and `\d` are taken as ASCII. */
  datatype CharClass =
    | Letter          // [a-zA-Z]
    | Digit           // \d
    | Word            // \w
    | WordPlusDot     // [\w+.]
    | Exactly(c: char)

  predicate IsLetter(ch: char) { 'a' <= ch <= 'z' || 'A' <= ch <= 'Z' }
  predicate IsDigit(ch: char) { '0' <= ch <= '9' }
  predicate IsWordChar(ch: char) { IsLetter(ch) || IsDigit(ch) || ch == '_' }

  predicate InClass(cls: CharClass, ch: char)
  {
    match cls
    case Letter => IsLetter(ch)
    case Digit => IsDigit(ch)
    case Word => IsWordChar(ch)
    case WordPlusDot => IsWordChar(ch) || ch == '+' || ch == '.'
    case Exactly(c) => ch == c
  }

  predicate AllIn(cls: CharClass, s: string)
  {
    forall i :: 0 <= i < |s| ==> InClass(cls, s[i])
  }

  /** A pattern between `^` and `$`: a run of one class (`{min,max}`, `+`) or two patterns in sequence. */
  datatype Pattern =
    | Repeat(cls: CharClass, min: nat, max: Option<nat>)
    | Concat(first: Pattern, second: Pattern)

  /** `s` as a whole is matched by `p`. */
  predicate Matches(p: Pattern, s: string)
    decreases p
  {
    match p
    case Repeat(cls, min, max) => min <= |s| && (max.None? || |s| <= max.value) && AllIn(cls, s)
    case Concat(a, b) => exists k :: 0 <= k <= |s| && Matches(a, s[..k]) && Matches(b, s[k..])
  }

  /** Regex.IsMatch for `^p$`: `$` also matches just before a final line feed. */
  predicate IsMatch(p: Pattern, s: string)
  {
    Matches(p, s) || (|s| > 0 && s[|s| - 1] == '\n' && Matches(p, s[..|s| - 1]))
  }

  function Char(c: char): Pattern { Repeat(Exactly(c), 1, Some(1)) }

  /** `^[a-zA-Z]{2,32}$` */
  const NamePattern: Pattern := Repeat(Letter, 2, Some(32))
  /** `[\w+.]+\w+`, the part after the `@`. */
  const DomainPattern: Pattern := Concat(Repeat(WordPlusDot, 1, None), Repeat(Word, 1, None))
  /** `@[\w+.]+\w+` */
  const AtDomainPattern: Pattern := Concat(Char('@'), DomainPattern)
  /** `^\w+@[\w+.]+\w+$` */
  const EmailPattern: Pattern := Concat(Repeat(Word, 1, None), AtDomainPattern)
  /** `^\+\d{10,12}$` */
  const TelephonePattern: Pattern := Concat(Char('+'), Repeat(Digit, 10, Some(12)))
  /** `^\d{11}$` */
  const PeselPattern: Pattern := Repeat(Digit, 11, Some(11))

  /** What the e-mail pattern admits, stated without patterns: `local@domain` with one `@`. */
  predicate EmailShape(s: string)
  {
    exists a :: 0 < a && a + 2 < |s| && s[a] == '@' && AllIn(Word, s[..a]) && AllIn(WordPlusDot, s[a + 1..])
                && IsWordChar(s[|s| - 1])
  }

  lemma DomainPatternMeaning(d: string)
    ensures Matches(DomainPattern, d) <==> 2 <= |d| && AllIn(WordPlusDot, d) && IsWordChar(d[|d| - 1])
  {
    if Matches(DomainPattern, d) {
      var m :| 0 <= m <= |d| && Matches(Repeat(WordPlusDot, 1, None), d[..m]) && Matches(Repeat(Word, 1, None), d[m..]);
      assert d[|d| - 1] == d[m..][|d| - m - 1];
      forall i | 0 <= i < |d| ensures InClass(WordPlusDot, d[i]) {
        if i < m {
          assert d[i] == d[..m][i];
        } else {
          assert d[i] == d[m..][i - m];
        }
      }
    }
    if 2 <= |d| && AllIn(WordPlusDot, d) && IsWordChar(d[|d| - 1]) {
      var m := |d| - 1;
      assert forall i :: 0 <= i < m ==> d[..m][i] == d[i];
      assert d[m..] == [d[m]];
      assert Matches(Repeat(WordPlusDot, 1, None), d[..m]) && Matches(Repeat(Word, 1, None), d[m..]);
    }
  }

  lemma AtDomainPatternMeaning(r: string)
    ensures Matches(AtDomainPattern, r) <==> 1 <= |r| && r[0] == '@' && Matches(DomainPattern, r[1..])
  {
    if Matches(AtDomainPattern, r) {
      var j :| 0 <= j <= |r| && Matches(Char('@'), r[..j]) && Matches(DomainPattern, r[j..]);
      assert j == 1 && r[..j][0] == r[0];
    }
    if 1 <= |r| && r[0] == '@' && Matches(DomainPattern, r[1..]) {
      assert r[..1] == ['@'];
      assert Matches(Char('@'), r[..1]);
    }
  }

  lemma EmailPatternMeaning(s: string)
    ensures Matches(EmailPattern, s) <==> EmailShape(s)
  {
    if Matches(EmailPattern, s) {
      EmailPatternSound(s);
    }
    if EmailShape(s) {
      EmailPatternComplete(s);
    }
  }

  /** What the email pattern admits has the shape EmailShape describes. */
  lemma EmailPatternSound(s: string)
    requires Matches(EmailPattern, s)
    ensures EmailShape(s)
  {
    var a :| 0 <= a <= |s| && Matches(Repeat(Word, 1, None), s[..a]) && Matches(AtDomainPattern, s[a..]);
    AtDomainPatternMeaning(s[a..]);
    DomainPatternMeaning(s[a..][1..]);
    assert s[a..][1..] == s[a + 1..];
    assert s[a] == s[a..][0];
    assert s[|s| - 1] == s[a + 1..][|s| - a - 2];
  }

  /** Everything of the shape EmailShape describes is admitted by the email pattern. */
  lemma EmailPatternComplete(s: string)
    requires EmailShape(s)
    ensures Matches(EmailPattern, s)
  {
    var a :| 0 < a && a + 2 < |s| && s[a] == '@' && AllIn(Word, s[..a]) && AllIn(WordPlusDot, s[a + 1..])
               && IsWordChar(s[|s| - 1]);
    assert s[a..][1..] == s[a + 1..];
    assert s[a + 1..][|s| - a - 2] == s[|s| - 1];
    DomainPatternMeaning(s[a + 1..]);
    AtDomainPatternMeaning(s[a..]);
    assert Matches(Repeat(Word, 1, None), s[..a]);
  }

  /** An address the pattern admits holds exactly one `@`, which splits it into its two parts. */
  lemma EmailHasOneAt(s: string)
    requires Matches(EmailPattern, s)
    ensures exists a :: 0 <= a < |s| && s[a] == '@'
    ensures forall i, j :: 0 <= i < |s| && 0 <= j < |s| && s[i] == '@' && s[j] == '@' ==> i == j
  {
    EmailPatternMeaning(s);
    ShapeHasOneAt(s);
  }

  lemma ShapeHasOneAt(s: string)
    requires EmailShape(s)
    ensures exists a :: 0 <= a < |s| && s[a] == '@'
    ensures forall i, j :: 0 <= i < |s| && 0 <= j < |s| && s[i] == '@' && s[j] == '@' ==> i == j
  {
    var a :| 0 < a && a + 2 < |s| && s[a] == '@' && AllIn(Word, s[..a]) && AllIn(WordPlusDot, s[a + 1..])
               && IsWordChar(s[|s| - 1]);
    assert forall i :: 0 <= i < a ==> s[..a][i] == s[i];
    assert forall i :: a < i < |s| ==> s[a + 1..][i - a - 1] == s[i];
  }

  lemma TelephonePatternMeaning(s: string)
    ensures Matches(TelephonePattern, s) <==> 11 <= |s| <= 13 && s[0] == '+' && AllIn(Digit, s[1..])
  {
    if Matches(TelephonePattern, s) {
      var k :| 0 <= k <= |s| && Matches(Char('+'), s[..k]) && Matches(Repeat(Digit, 10, Some(12)), s[k..]);
      assert k == 1 && s[..k][0] == s[0];
    }
    if 11 <= |s| <= 13 && s[0] == '+' && AllIn(Digit, s[1..]) {
      assert s[..1] == ['+'];
      assert Matches(Char('+'), s[..1]) && Matches(Repeat(Digit, 10, Some(12)), s[1..]);
    }
  }

  /**
   * Because of `$`, a value with a trailing line feed passes a check its
   * characters do not meet.
   */
  lemma TrailingLineFeedAccepted()
    ensures !Matches(NamePattern, "Ann\n") && IsMatch(NamePattern, "Ann\n")
  {
    assert !InClass(Letter, "Ann\n"[3]);
    assert "Ann\n"[..3] == "Ann";
  }

  /** So a client whose first name ends in a line feed is accepted and stored with it. */
  lemma ClientWithLineFeedAccepted()
    ensures Validate(ClientDTO("Ann\n", "Lee", "ann@mail.pl", "+48123456789", "90010112345")) == None
  {
    assert Matches(NamePattern, "Lee");
    assert Matches(PeselPattern, "90010112345");
    TrailingLineFeedAccepted();
    SampleEmailMatches();
    SampleTelephoneMatches();
  }

  lemma SampleEmailMatches()
    ensures Matches(EmailPattern, "ann@mail.pl")
  {
    var email := "ann@mail.pl";
    assert email[3] == '@' && email[..3] == "ann" && email[4..] == "mail.pl";
    assert EmailShape(email);
    EmailPatternMeaning(email);
  }

  lemma SampleTelephoneMatches()
    ensures Matches(TelephonePattern, "+48123456789")
  {
    TelephonePatternMeaning("+48123456789");
    assert "+48123456789"[1..] == "48123456789";
  }

  // ---------------------------------------------------------------------------
  // CreateClient validation
  // ---------------------------------------------------------------------------

  /** The five checks of CreateClient in the order it makes them. */
  const FieldCount: nat := 5

  function FieldPattern(k: nat): Pattern
    requires k < FieldCount
  {
    if k <= 1 then NamePattern
    else if k == 2 then EmailPattern
    else if k == 3 then TelephonePattern
    else PeselPattern
  }

  function FieldValue(c: ClientDTO, k: nat): string
    requires k < FieldCount
  {
    [c.firstName, c.lastName, c.email, c.telephone, c.pesel][k]
  }

  function FieldMessage(k: nat): string
    requires k < FieldCount
  {
    ["Invalid first name format", "Invalid last name format", "Invalid email format",
     "Invalid telephone format", "Invalid pesel format"][k]
  }

  predicate FieldValid(c: ClientDTO, k: nat)
    requires k < FieldCount
  {
    IsMatch(FieldPattern(k), FieldValue(c, k))
  }

  /**
   * The message of the first field whose check fails, or None when all pass:
   * every field is checked, and only the first failure is reported.
   */
  function Validate(c: ClientDTO): (err: Option<string>)
  {
    if !IsMatch(NamePattern, c.firstName) then Some("Invalid first name format")
    else if !IsMatch(NamePattern, c.lastName) then Some("Invalid last name format")
    else if !IsMatch(EmailPattern, c.email) then Some("Invalid email format")
    else if !IsMatch(TelephonePattern, c.telephone) then Some("Invalid telephone format")
    else if !IsMatch(PeselPattern, c.pesel) then Some("Invalid pesel format")
    else None
  }

  lemma ValidateReportsFirstFailure(c: ClientDTO)
    ensures Validate(c).None? <==> forall k :: 0 <= k < FieldCount ==> FieldValid(c, k)
    ensures Validate(c).Some? ==>
              exists k :: 0 <= k < FieldCount && !FieldValid(c, k) && Validate(c).value == FieldMessage(k) &&
                          forall j :: 0 <= j < k ==> FieldValid(c, j)
  {
    assert FieldValue(c, 0) == c.firstName && FieldValue(c, 1) == c.lastName && FieldValue(c, 2) == c.email;
    assert FieldValue(c, 3) == c.telephone && FieldValue(c, 4) == c.pesel;
    var k := if !FieldValid(c, 0) then 0 else if !FieldValid(c, 1) then 1 else if !FieldValid(c, 2) then 2
             else if !FieldValid(c, 3) then 3 else 4;
    if Validate(c).Some? {
      assert !FieldValid(c, k) && Validate(c).value == FieldMessage(k);
      assert forall j :: 0 <= j < k ==> FieldValid(c, j);
    }
  }

  /** A client that passes validation has names of 2 to 32 letters and an 11-digit PESEL (up to a final line feed). */
  lemma ValidClientFields(c: ClientDTO)
    requires Validate(c).None?
    ensures var pesel := if |c.pesel| == 12 then c.pesel[..11] else c.pesel;
            |pesel| == 11 && AllIn(Digit, pesel)
    ensures forall k :: 0 <= k <= 1 ==>
              var name := FieldValue(c, k);
              var core := if |name| > 0 && name[|name| - 1] == '\n' then name[..|name| - 1] else name;
              2 <= |core| <= 32 && AllIn(Letter, core)
  {
    assert FieldValid(c, 0) && FieldValid(c, 1) && FieldValid(c, 4);
    PeselAccepted(c.pesel);
    forall k | 0 <= k <= 1
      ensures var name := FieldValue(c, k);
              var core := if |name| > 0 && name[|name| - 1] == '\n' then name[..|name| - 1] else name;
              2 <= |core| <= 32 && AllIn(Letter, core)
    {
      NameAccepted(FieldValue(c, k));
    }
  }

  /** A name the check accepts is 2 to 32 letters, up to a final line feed. */
  lemma NameAccepted(name: string)
    requires IsMatch(NamePattern, name)
    ensures var core := if |name| > 0 && name[|name| - 1] == '\n' then name[..|name| - 1] else name;
            2 <= |core| <= 32 && AllIn(Letter, core)
  {
  }

  /** A PESEL the check accepts is 11 digits, up to a final line feed. */
  lemma PeselAccepted(pesel: string)
    requires IsMatch(PeselPattern, pesel)
    ensures var digits := if |pesel| == 12 then pesel[..11] else pesel;
            |digits| == 11 && AllIn(Digit, digits)
  {
    if |pesel| == 12 {
      assert !InClass(Digit, pesel[11]);
    }
  }

  // ---------------------------------------------------------------------------
  // Responses
  // ---------------------------------------------------------------------------

  /** An action's response: a status with a value or with `{ message }`, or an exception left unhandled. */
  datatype ActionResult<T> =
    | ObjectResult(status: int, value: T)
    | MessageResult(status: int, message: string)
    | Unhandled(error: ClientsService.ServiceError)

  /** GET api/clients/{id}/trips: 200 with the trips, 404 for an unknown client. */
  function TripsResponse(r: Result<seq<ClientTripDto>, ClientsService.ServiceError>): (res: ActionResult<seq<ClientTripDto>>)
    ensures r.Ok? <==> res.ObjectResult?
    ensures r.Ok? ==> res == ObjectResult(200, r.value)
    ensures res.MessageResult? <==> r == Err(ClientsService.ClientNotFound)
    ensures res.MessageResult? ==> res.status == 404
    ensures res.Unhandled? <==> r.Err? && r.error != ClientsService.ClientNotFound
  {
    match r
    case Ok(trips) => ObjectResult(200, trips)
    case Err(ClientNotFound) => MessageResult(404, "Client not found")
    case Err(e) => Unhandled(e)
  }

  /** PUT api/clients/{id}/trips/{tripId}: 201 with the trips, 404 or 409 for the four handled exceptions. */
  function RegisterResponse(r: Result<seq<ClientTripDto>, ClientsService.ServiceError>): (res: ActionResult<seq<ClientTripDto>>)
    ensures r.Ok? <==> res.ObjectResult?
    ensures r.Ok? ==> res == ObjectResult(201, r.value)
    ensures res.MessageResult? && res.status == 404 <==>
              r == Err(ClientsService.ClientNotFound) || r == Err(ClientsService.TripNotFound)
    ensures res.MessageResult? && res.status == 409 <==>
              r == Err(ClientsService.MaxPeopleReached) || r == Err(ClientsService.ClientAlreadyRegistered)
    ensures res.MessageResult? ==> res.status == 404 || res.status == 409
    ensures res.Unhandled? ==> r == Err(res.error)
  {
    match r
    case Ok(trips) => ObjectResult(201, trips)
    case Err(ClientNotFound) => MessageResult(404, "Client not found")
    case Err(TripNotFound) => MessageResult(404, "Trip not found")
    case Err(MaxPeopleReached) => MessageResult(409, "No slots available for provided trip")
    case Err(ClientAlreadyRegistered) => MessageResult(409, "Client is already registered for provided trip")
    case Err(e) => Unhandled(e)
  }

  /** DELETE api/clients/{id}/trips/{tripId}: 200 with the trips, 404 for the three handled exceptions. */
  function DeleteResponse(r: Result<seq<ClientTripDto>, ClientsService.ServiceError>): (res: ActionResult<seq<ClientTripDto>>)
    ensures r.Ok? <==> res.ObjectResult?
    ensures r.Ok? ==> res == ObjectResult(200, r.value)
    ensures res.MessageResult? <==>
              r == Err(ClientsService.ClientNotFound) || r == Err(ClientsService.TripNotFound) ||
              r == Err(ClientsService.ClientNotRegistered)
    ensures res.MessageResult? ==> res.status == 404
    ensures res.Unhandled? ==> r == Err(res.error)
  {
    match r
    case Ok(trips) => ObjectResult(200, trips)
    case Err(ClientNotFound) => MessageResult(404, "Client not found")
    case Err(TripNotFound) => MessageResult(404, "Trip not found")
    case Err(ClientNotRegistered) => MessageResult(404, "Client is not registered for provided trip")
    case Err(e) => Unhandled(e)
  }

  /** Each handled exception of the registration action has a message of its own. */
  lemma RegisterMessagesDistinguishErrors(e1: ClientsService.ServiceError, e2: ClientsService.ServiceError)
    requires RegisterResponse(Err(e1)).MessageResult? && RegisterResponse(Err(e2)).MessageResult?
    requires RegisterResponse(Err(e1)).message == RegisterResponse(Err(e2)).message
    ensures e1 == e2
  {
  }

  // ---------------------------------------------------------------------------
  // The actions
  // ---------------------------------------------------------------------------

  /** GetClientTrips (ClientsController.cs:36-47). */
  method GetClientTrips(db: ClientsService.Database, id: int) returns (res: ActionResult<seq<ClientTripDto>>)
    ensures id !in db.clients ==> res == MessageResult(404, "Client not found")
    ensures id in db.clients ==> res == TripsResponse(ClientsService.ClientTrips(db.Rows(id)))
  {
    var trips := ClientsService.GetClientTrips(db, id);
    res := TripsResponse(trips);
  }

  /** CreateClient (ClientsController.cs:60-88): 400 with the first failing check, else 201 with the new id. */
  method CreateClient(db: ClientsService.Database, client: ClientDTO) returns (res: ActionResult<int>)
    modifies db`clients, db`nextId
    ensures Validate(client).Some? ==>
              res == MessageResult(400, Validate(client).value) &&
              db.clients == old(db.clients) && db.nextId == old(db.nextId)
    ensures Validate(client).None? ==>
              res == ObjectResult(201, old(db.nextId)) && db.clients == old(db.clients)[old(db.nextId) := client]
    ensures old(db.Valid()) ==> db.Valid()
  {
    var err := Validate(client);
    if err.Some? {
      return MessageResult(400, err.value);
    }
    var id := ClientsService.CreateClient(db, client);
    res := ObjectResult(201, id);
  }

  /** RegisterClientForTrip (ClientsController.cs:107-133). */
  method RegisterClientForTrip(db: ClientsService.Database, id: int, tripId: int, today: Date, fault: Option<int>)
      returns (res: ActionResult<seq<ClientTripDto>>)
    requires IsValid(today)
    modifies db`registrations
    ensures var outcome := ClientsService.RegisterOutcomeAsWritten(db.clients.Keys, db.trips, old(db.registrations), id, tripId, fault);
            if outcome.Inserted? then
              db.registrations == old(db.registrations) + [ClientsService.Registration(id, tripId, Encode(today), None)] &&
              res == RegisterResponse(ClientsService.ClientTrips(db.Rows(id)))
            else
              db.registrations == old(db.registrations) && res == RegisterResponse(Err(outcome.error))
    ensures old(db.Valid()) ==> db.Valid()
  {
    var trips := ClientsService.RegisterClientForTrip(db, id, tripId, today, fault);
    res := RegisterResponse(trips);
  }

  /** DeleteClientRegistration (ClientsController.cs:151-170). */
  method DeleteClientRegistration(db: ClientsService.Database, id: int, tripId: int)
      returns (res: ActionResult<seq<ClientTripDto>>)
    modifies db`registrations
    ensures id !in db.clients ==> res == MessageResult(404, "Client not found")
    ensures id in db.clients && tripId !in db.trips ==> res == MessageResult(404, "Trip not found")
    ensures id in db.clients && tripId in db.trips ==>
              db.registrations == ClientsService.RemovePair(old(db.registrations), id, tripId) &&
              res == if ClientsService.Registered(old(db.registrations), id, tripId)
                     then DeleteResponse(ClientsService.ClientTrips(db.Rows(id)))
                     else MessageResult(404, "Client is not registered for provided trip")
    ensures (id !in db.clients || tripId !in db.trips) ==> db.registrations == old(db.registrations)
    ensures old(db.Valid()) ==> db.Valid()
  {
    var trips := ClientsService.DeleteClientRegistration(db, id, tripId);
    res := DeleteResponse(trips);
  }

  /**
   * As written, registering anyone for a trip that nobody has joined yet ends
   * in an unhandled exception (a server error) rather than 201.
   */
  lemma FirstRegistrationIsServerError(clients: set<int>, trips: map<int, ClientsService.TripRecord>,
                                       regs: seq<ClientsService.Registration>, c: int, t: int, fault: Option<int>)
    requires c in clients && t in trips && ClientsService.RegCount(regs, t) == 0
    ensures var outcome := ClientsService.RegisterOutcomeAsWritten(clients, trips, regs, c, t, fault);
            outcome.Rejected? && RegisterResponse(Err(outcome.error)) == Unhandled(ClientsService.NullScalar)
  {
    ClientsService.FirstRegistrationAlwaysFails(clients, trips, regs, c, t, fault);
  }
}
