/** The first-generation Flask application (src/app.py): a table of
    registrations keyed by email address, the confirmation they are asked
    for, the `verify` route, the generator of addresses read from the sheet,
    and the mailer command that sends from it. */
module FlaskApp {
  import opened Wrappers
  import opened Strings
  import opened Google

  /** The registration table: email address -> `verified`. The address is
      the primary key, so there is at most one row per address. */
  type Db = map<string, bool>

  /** What `confirm_registration` is given as token: a string from the URL,
      or the literal `True` the `confirm` command passes. */
  datatype Token = TokenText(text: string) | Bypass

  /** `Registration.verification_token`: the digest of the address followed
      by the secret key. */
  function VerificationToken(email: string, secret: string, digest: string -> string): string {
    digest(email + secret)
  }

  /** `confirm_registration(email, token)`: the result and the table
      afterwards. */
  function ConfirmRegistration(db: Db, email: string, token: Token, secret: string, digest: string -> string): (r: (bool, Db))
    ensures r.0 <==> email in db && !db[email]
                     && (token == Bypass || token == TokenText(VerificationToken(email, secret, digest)))
    ensures r.0 ==> r.1 == db[email := true]
    ensures !r.0 ==> r.1 == db
  {
    // `.one()` raises unless exactly one unverified row has the address
    if email !in db || db[email] then (false, db)
    else if token == Bypass || token == TokenText(VerificationToken(email, secret, digest)) then (true, db[email := true])
    else (false, db)
  }

  /** The number of verified registrations. */
  function VerifiedCount(db: Db): nat {
    |set e | e in db && db[e]|
  }

  /** A confirmation touches one registration at most, never unverifies
      anyone and never adds or removes a registration; a successful one adds
      exactly one to the verified. */
  lemma ConfirmOnlyVerifies(db: Db, email: string, token: Token, secret: string, digest: string -> string)
    ensures var db' := ConfirmRegistration(db, email, token, secret, digest).1;
      db'.Keys == db.Keys
      && (forall e :: e in db && e != email ==> db'[e] == db[e])
      && (forall e :: e in db && db[e] ==> db'[e])
    ensures ConfirmRegistration(db, email, token, secret, digest).0 ==>
      VerifiedCount(ConfirmRegistration(db, email, token, secret, digest).1) == VerifiedCount(db) + 1
  {
    var (ok, db') := ConfirmRegistration(db, email, token, secret, digest);
    if ok {
      var before := set e | e in db && db[e];
      var after := set e | e in db' && db'[e];
      assert after == before + {email};
      assert email !in before;
    }
  }

  /** A second confirmation of the same address fails and changes nothing,
      whatever token it carries. */
  lemma ConfirmOnce(db: Db, email: string, token: Token, token2: Token, secret: string, digest: string -> string)
    requires ConfirmRegistration(db, email, token, secret, digest).0
    ensures var db' := ConfirmRegistration(db, email, token, secret, digest).1;
      ConfirmRegistration(db', email, token2, secret, digest) == (false, db')
  {
  }

  /** The `confirm` command confirms any unverified registration. */
  lemma BypassConfirmsUnverified(db: Db, email: string, secret: string, digest: string -> string)
    requires email in db && !db[email]
    ensures ConfirmRegistration(db, email, Bypass, secret, digest) == (true, db[email := true])
  {
  }

  datatype Page = VerifiedPage | UnverifiedPage

  /** The `/verify/<email>/<token>` route: the token is always a string, so
      the bypass is out of reach and only the right digest verifies. */
  function VerifyRoute(db: Db, email: string, token: string, secret: string, digest: string -> string): (r: (Page, Db))
    ensures r.0 == VerifiedPage <==> email in db && !db[email] && token == VerificationToken(email, secret, digest)
    ensures r.0 == VerifiedPage ==> r.1 == db[email := true]
    ensures r.0 == UnverifiedPage ==> r.1 == db
  {
    var (ok, db') := ConfirmRegistration(db, email, TokenText(token), secret, digest);
    (if ok then VerifiedPage else UnverifiedPage, db')
  }

  // ---------------------------------------------------------------------
  // Reading addresses and mailing

  /** How the `emails` generator stopped. */
  datatype EmailsEnd =
    | Exhausted          // a read returned no values
    | EmptyCell(row: int) // `values[0][0]` on an empty result
    | Enough             // the consumer took what it wanted

  /** The range of the address in sheet row `row`: `'list'!<column><row>`. */
  function CellOf(list: string, column: string, row: int): string {
    RangeString(list, column + IntToString(row))
  }

  /** The address cells of column `column` in sheet `list`, by row. */
  function CellsOf(list: string, column: string): int -> string {
    row => CellOf(list, column, row)
  }

  /** A read whose first cell holds `e`. */
  predicate FirstCellIs(values: Option<seq<Row>>, e: string) {
    values.Some? && |values.value| > 0 && |values.value[0]| > 0 && values.value[0][0] == e
  }

  /** The first `demand` values the `emails(...)` generator yields, reading
      one row per value from row `row` (2 in the source); `cells` gives the
      range string of a row (`CellsOf(list, column)` in the source). A
      generator reads only what its consumer asks for, so `demand` is the
      consumer's, not a bound of the model. */
  function Emails(fetch: Fetch, cells: int -> string, row: int, demand: nat): (r: (seq<string>, EmailsEnd))
    ensures |r.0| <= demand
    ensures r.1 == Enough <==> |r.0| == demand
    ensures forall k :: 0 <= k < |r.0| ==> FirstCellIs(fetch(cells(row + k)), r.0[k])
    ensures r.1 == Exhausted ==> fetch(cells(row + |r.0|)) == None
    ensures r.1.EmptyCell? ==> r.1.row == row + |r.0|
    decreases demand
  {
    if demand == 0 then ([], Enough)
    else match fetch(cells(row))
      case None => ([], Exhausted)
      case Some(values) =>
        if values == [] || values[0] == [] then ([], EmptyCell(row))
        else
          var rest := Emails(fetch, cells, row + 1, demand - 1);
          var items := [values[0][0]] + rest.0;
          assert forall k :: 0 < k < |items| ==> items[k] == rest.0[k - 1] && row + k == (row + 1) + (k - 1);
          (items, rest.1)
  }

  /** Asking for more never changes what was already yielded: the values
      form one stream, and each consumer sees a prefix of it. */
  lemma {:induction false} EmailsPrefix(fetch: Fetch, cells: int -> string, row: int, d1: nat, d2: nat)
    requires d1 <= d2
    ensures Emails(fetch, cells, row, d1).0 <= Emails(fetch, cells, row, d2).0
    decreases d1
  {
    if d1 > 0 {
      EmailsPrefix(fetch, cells, row + 1, d1 - 1, d2 - 1);
    }
  }

  /** An SMTP envelope with the message headers it carries. */
  datatype SentMail = SentMail(
    envelopeFrom: string,
    envelopeTo: string,
    subject: string,
    fromHeader: string,
    toHeader: string,
    html: string)

  /** `sendmail`: `debug_to`, when given at all, replaces the envelope
      recipient; the `To` header still names the participant. */
  function SendMail(fromAddress: string, fromName: string, to: string, subject: string, html: string,
                    debugTo: Option<string>): (r: SentMail)
    ensures r.toHeader == to && r.envelopeFrom == fromAddress
    ensures r.envelopeTo == if debugTo.Some? then debugTo.value else to
  {
    SentMail(fromAddress, if debugTo.Some? then debugTo.value else to, subject,
             fromName + " <" + fromAddress + ">", to, html)
  }

  /** `request_registration_confirm`: the loop over `emails(...)` sends to
      the first address and breaks, so the generator is asked for one value.
      The one mail goes to the address in row 2 of the column, whatever the
      rest of the sheet holds; no mail is sent when row 2 has no values, and
      an empty row 2 fails at `values[0][0]`. */
  function RequestRegistrationConfirm(fetch: Fetch, list: string, column: string, fromAddress: string,
                                      fromName: string, subject: string, html: string, debugTo: Option<string>)
    : (r: Result<seq<SentMail>, int>)
    ensures r.Ok? ==> |r.value| <= 1
    ensures fetch(CellOf(list, column, 2)).None? ==> r == Ok([])
    ensures var v := fetch(CellOf(list, column, 2));
      v.Some? && |v.value| > 0 && |v.value[0]| > 0 ==>
        r == Ok([SendMail(fromAddress, fromName, v.value[0][0], subject, html, debugTo)])
        && r.value[0].toHeader == v.value[0][0]
    ensures var v := fetch(CellOf(list, column, 2));
      v.Some? && (v.value == [] || v.value[0] == []) ==> r == Err(2)
  {
    var (first, end) := Emails(fetch, CellsOf(list, column), 2, 1);
    assert first == [] ==> end != Enough;
    if end.EmptyCell? then Err(end.row)
    else if first == [] then Ok([])
    else Ok([SendMail(fromAddress, fromName, first[0], subject, html, debugTo)])
  }
}
