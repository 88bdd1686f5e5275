/** The records of the Django site (events/eventsite/models.py) and the
    per-registration helpers: greeting, full name, verification token and
    link, and the choice list of a question. */
module Models {
  import opened Wrappers
  import opened Strings

  /** One stored answer: the question it answers (by id) and its text. */
  datatype Answer = Answer(question: nat, answer: string)

  /** A question put to registrants; `qtype` is "open" or "close". */
  datatype Question = Question(id: nat, name: string, qtype: string, possibleAnswers: seq<string>)

  /** A mail template of one mail type ("confirm" or "verify"). */
  datatype MailText = MailText(mailType: string, text: string)

  datatype Event = Event(
    googleTable: string,
    name: string,
    listName: string,
    header: seq<string>,
    skipRows: int,
    fromMail: string,
    questions: seq<Question>,
    successfullyConfirmedUrl: string,
    invalidTokenUrl: string,
    alreadyConfirmedUrl: string)

  /** One imported sheet row: `data` maps internal field names to cell texts. */
  datatype Registration = Registration(
    id: nat,
    row: int,
    data: map<string, string>,
    verified: bool,
    confirmed: bool,
    answers: seq<Answer>)

  /** Python `dict.get(key)`. */
  function Get(data: map<string, string>, key: string): (r: Option<string>)
    ensures r.Some? <==> key in data
    ensures r.Some? ==> r.value == data[key]
  {
    if key in data then Some(data[key]) else None
  }

  /** `"%s %s" % (a, b)` with either side possibly `None`. */
  function SpacedPair(a: Option<string>, b: Option<string>): (r: string)
    ensures |r| == |PyStr(a)| + 1 + |PyStr(b)|
    ensures r[..|PyStr(a)|] == PyStr(a) && r[|PyStr(a)|] == ' ' && r[|PyStr(a)| + 1..] == PyStr(b)
  {
    PyStr(a) + " " + PyStr(b)
  }

  /** `Registration.full_name`: first name, a space, last name. */
  function FullName(reg: Registration): (r: string)
    ensures var first := PyStr(Get(reg.data, "first_name"));
      |r| > |first| && r[..|first|] == first && r[|first|] == ' '
      && r[|first| + 1..] == PyStr(Get(reg.data, "last_name"))
  {
    SpacedPair(Get(reg.data, "first_name"), Get(reg.data, "last_name"))
  }

  /** The full name tells the names apart: when neither first name holds a
      space, two registrations get the same full name exactly when their
      first names and their last names agree. */
  lemma FullNameInjective(a: Registration, b: Registration)
    requires forall k :: 0 <= k < |PyStr(Get(a.data, "first_name"))| ==> PyStr(Get(a.data, "first_name"))[k] != ' '
    requires forall k :: 0 <= k < |PyStr(Get(b.data, "first_name"))| ==> PyStr(Get(b.data, "first_name"))[k] != ' '
    ensures FullName(a) == FullName(b) <==>
      PyStr(Get(a.data, "first_name")) == PyStr(Get(b.data, "first_name"))
      && PyStr(Get(a.data, "last_name")) == PyStr(Get(b.data, "last_name"))
  {
    var fa, fb := PyStr(Get(a.data, "first_name")), PyStr(Get(b.data, "first_name"));
    if FullName(a) == FullName(b) {
      var r := FullName(a);
      if |fa| < |fb| {
        assert false;
      } else if |fb| < |fa| {
        assert false;
      }
    }
  }

  const MaleSalutation: string := "Vážený pane "
  const FemaleSalutation: string := "Vážená paní "

  /** `Registration.greeting`: a salutation chosen by the "sex" field ("Muž"
      or, spelled without the caron, "Zena") followed by the last name; any
      other value, or no value, gives `None`. */
  function Greeting(reg: Registration): (r: Option<string>)
    ensures r.Some? <==> Get(reg.data, "sex") in {Some("Muž"), Some("Zena")}
  {
    var sex := Get(reg.data, "sex");
    if sex == Some("Muž") then Some(MaleSalutation + PyStr(Get(reg.data, "last_name")) + ",")
    else if sex == Some("Zena") then Some(FemaleSalutation + PyStr(Get(reg.data, "last_name")) + ",")
    else None
  }

  /** A greeting addresses the registrant by last name, and its salutation
      tells which of the two recognised values the "sex" field held. */
  lemma GreetingAddressesLastName(reg: Registration)
    requires Greeting(reg).Some?
    ensures var g := Greeting(reg).value;
      var n := |MaleSalutation|;
      |g| == n + |PyStr(Get(reg.data, "last_name"))| + 1
      && g[n..|g| - 1] == PyStr(Get(reg.data, "last_name")) && g[|g| - 1] == ','
      && (g[..n] == MaleSalutation <==> Get(reg.data, "sex") == Some("Muž"))
      && (g[..n] == FemaleSalutation <==> Get(reg.data, "sex") == Some("Zena"))
  {
    var g := Greeting(reg).value;
    var last := PyStr(Get(reg.data, "last_name"));
    assert |FemaleSalutation| == |MaleSalutation| && MaleSalutation != FemaleSalutation by {
      assert MaleSalutation[5] != FemaleSalutation[5];
    }
    if Get(reg.data, "sex") == Some("Muž") {
      assert g == MaleSalutation + last + ",";
    } else {
      assert g == FemaleSalutation + last + ",";
    }
  }

  /** `Registration.verify_token`: the digest of the email followed by the
      site's secret key; `None` stands for the `AttributeError` of a
      registration without an "email" field. */
  function VerifyToken(reg: Registration, secret: string, digest: string -> string): (r: Option<string>)
    ensures r.Some? <==> "email" in reg.data
  {
    match Get(reg.data, "email")
    case Some(email) => Some(digest(email + secret))
    case None => None
  }

  /** The token depends on nothing but the email address (and the secret):
      two registrations with the same address share it. */
  lemma TokenDependsOnlyOnEmail(a: Registration, b: Registration, secret: string, digest: string -> string)
    requires Get(a.data, "email") == Get(b.data, "email")
    ensures VerifyToken(a, secret, digest) == VerifyToken(b, secret, digest)
  {
  }

  const VerifyLinkPrefix: string := "https://events.wikimedia.cz/verify/"

  /** `Registration.verify_link`: `…/verify/<id>/<token>`. */
  function VerifyLink(reg: Registration, secret: string, digest: string -> string): (r: Option<string>)
    ensures r.Some? <==> VerifyToken(reg, secret, digest).Some?
  {
    match VerifyToken(reg, secret, digest)
    case Some(token) => Some(VerifyLinkPrefix + NatToString(reg.id) + "/" + token)
    case None => None
  }

  /** The position of the first '/' in `s`, if any. */
  function FirstSlash(s: string): (r: Option<nat>)
    ensures r.Some? ==> r.value < |s| && s[r.value] == '/'
    ensures r.Some? ==> forall k :: 0 <= k < r.value ==> s[k] != '/'
    ensures r.None? ==> forall k :: 0 <= k < |s| ==> s[k] != '/'
    decreases |s|
  {
    if s == [] then None
    else if s[0] == '/' then Some(0)
    else match FirstSlash(s[1..])
      case Some(q) => Some(q + 1)
      case None => None
  }

  /** Reads the `<id>/<token>` path segments of a verification link the way
      the site's `verify/<id>/<token>` route matches them. */
  function ParseVerifyLink(link: string): Option<(nat, string)> {
    var n := |VerifyLinkPrefix|;
    if |link| < n || link[..n] != VerifyLinkPrefix then None
    else
      var rest := link[n..];
      match FirstSlash(rest)
      case None => None
      case Some(q) =>
        if q == 0 || !AllDigits(rest[..q]) then None
        else Some((DigitsValue(rest[..q]), rest[q + 1..]))
  }

  /** A verification link leads back to the registration's id and token,
      provided the token has no '/' (an MD5 hex digest has none). */
  lemma VerifyLinkRoundTrip(reg: Registration, secret: string, digest: string -> string)
    requires VerifyToken(reg, secret, digest).Some?
    requires forall k :: 0 <= k < |VerifyToken(reg, secret, digest).value| ==> VerifyToken(reg, secret, digest).value[k] != '/'
    ensures ParseVerifyLink(VerifyLink(reg, secret, digest).value) == Some((reg.id, VerifyToken(reg, secret, digest).value))
  {
    var token := VerifyToken(reg, secret, digest).value;
    var digits := NatToString(reg.id);
    var link := VerifyLink(reg, secret, digest).value;
    var rest := digits + "/" + token;
    assert link == VerifyLinkPrefix + rest;
    assert link[..|VerifyLinkPrefix|] == VerifyLinkPrefix;
    assert link[|VerifyLinkPrefix|..] == rest;
    assert forall k :: 0 <= k < |digits| ==> rest[k] == digits[k] && rest[k] != '/';
    var q := FirstSlash(rest);
    assert rest[|digits|] == '/';
    assert q == Some(|digits|);
    assert rest[..|digits|] == digits;
    assert rest[|digits| + 1..] == token;
    DigitsOfNatToString(reg.id);
  }

  /** The key of the `i`-th possible answer: `"answer_%s" % i`. */
  function ChoiceKey(i: nat): string {
    "answer_" + NatToString(i)
  }

  /** `Question.get_choices`: one `(answer_i, text)` pair per possible answer,
      in order. */
  function GetChoices(q: Question): (r: seq<(string, string)>)
    ensures |r| == |q.possibleAnswers|
    ensures forall i :: 0 <= i < |r| ==> r[i] == (ChoiceKey(i), q.possibleAnswers[i])
  {
    seq(|q.possibleAnswers|, i requires 0 <= i < |q.possibleAnswers| => (ChoiceKey(i), q.possibleAnswers[i]))
  }

  /** The choice keys of one question are pairwise distinct. */
  lemma ChoiceKeysDistinct(q: Question, i: nat, j: nat)
    requires i < |q.possibleAnswers| && j < |q.possibleAnswers| && i != j
    ensures GetChoices(q)[i].0 != GetChoices(q)[j].0
  {
    if ChoiceKey(i) == ChoiceKey(j) {
      assert ChoiceKey(i)[7..] == NatToString(i);
      assert ChoiceKey(j)[7..] == NatToString(j);
      IntToStringInjective(i, j);
    }
  }
}
