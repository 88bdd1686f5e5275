/** The registrant-facing views of the Django site
    (events/eventsite/views.py): the questions form -- which fields it
    shows and how `save` turns the submitted values into stored answers --
    and the `verify` decision. */
module Views {
  import opened Wrappers
  import opened Strings
  import opened Models

  // ---------------------------------------------------------------------
  // The questions form

  /** The meal question's name exactly as the source spells it (an encoding
      slip of "Volba jídla": the two characters √ and ≠ in place of í). */
  const MealQuestion: string := "Volba j\U{221A}\U{2260}dla"

  datatype FormField =
    | CharField                                  // an open question
    | ChoiceField(choices: seq<(string, string)>) // a closed question

  /** Whether the form shows `q` to the registrant, and with what field:
      the meal question is hidden from whoever declined lunch, and a
      question of any type other than "open" and "close" gets no field. */
  function FieldFor(q: Question, reg: Registration): Option<FormField> {
    if q.name == MealQuestion && Get(reg.data, "lunch") == Some("Ne") then None
    else if q.qtype == "open" then Some(CharField)
    else if q.qtype == "close" then Some(ChoiceField(GetChoices(q)))
    else None
  }

  /** The form's ordered field dictionary. */
  type Fields = seq<(string, FormField)>

  predicate DistinctNames(fields: Fields) {
    forall a, b :: 0 <= a < b < |fields| ==> fields[a].0 != fields[b].0
  }

  function Lookup(fields: Fields, name: string): (r: Option<FormField>)
    ensures r.Some? <==> exists k :: 0 <= k < |fields| && fields[k].0 == name
    ensures r.Some? && DistinctNames(fields) ==> forall k :: 0 <= k < |fields| && fields[k].0 == name ==> fields[k].1 == r.value
    decreases |fields|
  {
    if fields == [] then None
    else if fields[0].0 == name then Some(fields[0].1)
    else Lookup(fields[1..], name)
  }

  /** `self.fields[name] = field`: a new name is appended; an existing one
      keeps its place and takes the new field. */
  function SetField(fields: Fields, name: string, field: FormField): (r: Fields)
    requires DistinctNames(fields)
    ensures DistinctNames(r)
    ensures Lookup(r, name) == Some(field)
    ensures forall n :: n != name ==> Lookup(r, n) == Lookup(fields, n)
    ensures Lookup(fields, name).None? ==> r == fields + [(name, field)]
    ensures Lookup(fields, name).Some? ==> |r| == |fields|
    ensures forall k :: 0 <= k < |fields| ==> r[k].0 == fields[k].0
    decreases |fields|
  {
    if fields == [] then [(name, field)]
    else if fields[0].0 == name then [(name, field)] + fields[1..]
    else
      var rest := SetField(fields[1..], name, field);
      SetFieldBehindHead(fields, name, field, rest);
      [fields[0]] + rest
  }

  /** The recursive case of `SetField`: what the call on the tail gives,
      the head carried in front of it gives for the whole. */
  lemma SetFieldBehindHead(fields: Fields, name: string, field: FormField, rest: Fields)
    requires DistinctNames(fields) && fields != [] && fields[0].0 != name
    requires DistinctNames(rest)
    requires Lookup(rest, name) == Some(field)
    requires forall n :: n != name ==> Lookup(rest, n) == Lookup(fields[1..], n)
    requires Lookup(fields[1..], name).None? ==> rest == fields[1..] + [(name, field)]
    requires Lookup(fields[1..], name).Some? ==> |rest| == |fields| - 1
    requires forall k :: 0 <= k < |fields| - 1 ==> rest[k].0 == fields[k + 1].0
    ensures var r := [fields[0]] + rest;
      DistinctNames(r)
      && Lookup(r, name) == Some(field)
      && (forall n :: n != name ==> Lookup(r, n) == Lookup(fields, n))
      && (Lookup(fields, name).None? ==> r == fields + [(name, field)])
      && (Lookup(fields, name).Some? ==> |r| == |fields|)
      && (forall k :: 0 <= k < |fields| ==> r[k].0 == fields[k].0)
  {
    var r := [fields[0]] + rest;
    assert r[1..] == rest;
    assert fields == [fields[0]] + fields[1..];
    HeadNameStaysDistinct(fields, name, field, rest, Lookup(fields[1..], name).None?);
  }

  /** The tail after `SetField` never repeats the head's name: it keeps the
      tail's names and at most appends `name`. */
  lemma HeadNameStaysDistinct(fields: Fields, name: string, field: FormField, rest: Fields, appended: bool)
    requires DistinctNames(fields) && fields != [] && fields[0].0 != name
    requires DistinctNames(rest)
    requires appended ==> rest == fields[1..] + [(name, field)]
    requires !appended ==> |rest| == |fields| - 1
    requires forall k :: 0 <= k < |fields| - 1 ==> rest[k].0 == fields[k + 1].0
    ensures DistinctNames([fields[0]] + rest)
    ensures forall k :: 0 <= k < |fields| ==> ([fields[0]] + rest)[k].0 == fields[k].0
  {
    var r := [fields[0]] + rest;
    forall k | 0 <= k < |rest| ensures rest[k].0 != fields[0].0 {
      if k < |fields| - 1 {
        assert rest[k].0 == fields[k + 1].0;
      } else {
        assert rest[k] == (name, field);
      }
    }
    forall a, b | 0 <= a < b < |r| ensures r[a].0 != r[b].0 {
      if a == 0 {
        assert r[b] == rest[b - 1];
      } else {
        assert r[a] == rest[a - 1] && r[b] == rest[b - 1];
      }
    }
  }

  /** `QuestionsForm.__init__`: the event's questions in order, each setting
      its field if it is shown. */
  function FormFields(questions: seq<Question>, reg: Registration): (r: Fields)
    ensures DistinctNames(r)
    decreases |questions|
  {
    if questions == [] then []
    else
      var earlier := FormFields(questions[..|questions| - 1], reg);
      var q := questions[|questions| - 1];
      match FieldFor(q, reg)
      case None => earlier
      case Some(f) => SetField(earlier, q.name, f)
  }

  /** Reference reading of the form: the field of a name is that of the last
      shown question carrying it. */
  function LastShown(questions: seq<Question>, reg: Registration, name: string): Option<FormField>
    decreases |questions|
  {
    if questions == [] then None
    else
      var q := questions[|questions| - 1];
      if q.name == name && FieldFor(q, reg).Some? then FieldFor(q, reg)
      else LastShown(questions[..|questions| - 1], reg, name)
  }

  /** The form has a field for `name` exactly when a shown question has that
      name, and the field is the one the last such question asks for. */
  lemma {:induction false} FormFieldsLastQuestionWins(questions: seq<Question>, reg: Registration, name: string)
    ensures Lookup(FormFields(questions, reg), name) == LastShown(questions, reg, name)
    decreases |questions|
  {
    if questions != [] {
      FormFieldsLastQuestionWins(questions[..|questions| - 1], reg, name);
    }
  }

  /** Who declined lunch never sees the meal question; open questions become
      text fields and closed ones choice fields listing `get_choices`. */
  lemma FormShowsQuestion(questions: seq<Question>, reg: Registration, k: nat)
    requires k < |questions|
    requires forall m :: k < m < |questions| ==> questions[m].name != questions[k].name
    ensures var q := questions[k];
      var f := Lookup(FormFields(questions, reg), q.name);
      (q.name == MealQuestion && Get(reg.data, "lunch") == Some("Ne") ==> f == LastShown(questions[..k], reg, q.name))
      && (!(q.name == MealQuestion && Get(reg.data, "lunch") == Some("Ne")) ==>
           (q.qtype == "open" ==> f == Some(CharField))
           && (q.qtype == "close" ==> f == Some(ChoiceField(GetChoices(q)))))
  {
    FormFieldsLastQuestionWins(questions, reg, questions[k].name);
    LastShownSkipsLater(questions, reg, questions[k].name, k);
    var pre := questions[..k + 1];
    assert pre[|pre| - 1] == questions[k];
    assert pre[..|pre| - 1] == questions[..k];
  }

  /** Questions after position `k` with other names do not matter. */
  lemma {:induction false} LastShownSkipsLater(questions: seq<Question>, reg: Registration, name: string, k: nat)
    requires k < |questions| && questions[k].name == name
    requires forall m :: k < m < |questions| ==> questions[m].name != name
    ensures LastShown(questions, reg, name) == LastShown(questions[..k + 1], reg, name)
    decreases |questions|
  {
    if |questions| > k + 1 {
      var init := questions[..|questions| - 1];
      assert init[..k + 1] == questions[..k + 1];
      LastShownSkipsLater(init, reg, name, k);
    } else {
      assert questions[..k + 1] == questions;
    }
  }

  // ---------------------------------------------------------------------
  // Saving the answers

  /** Python list indexing, negative indices counting from the end; `None`
      stands for the `IndexError`. */
  function PyIndex<T>(s: seq<T>, n: int): (r: Option<T>)
    ensures r.Some? <==> -|s| <= n < |s|
    ensures 0 <= n < |s| ==> r == Some(s[n])
    ensures -|s| <= n < 0 ==> r == Some(s[|s| + n])
  {
    if 0 <= n < |s| then Some(s[n])
    else if -|s| <= n < 0 then Some(s[|s| + n])
    else None
  }

  datatype SaveError =
    | QuestionNotFound(name: string)    // `Question.objects.get` finds none
    | QuestionAmbiguous(name: string)   // ... or finds several
    | NotANumber(value: string)         // `int()` raises ValueError
    | NoSuchAnswer(value: string)       // the index raises IndexError

  /** `possible_answers[int(value.replace('answer_', ''))]`. */
  function DecodeChoice(q: Question, value: string): (r: Result<string, SaveError>)
    ensures r.Ok? ==> r.value in q.possibleAnswers
  {
    match ParseInt(ReplaceAll(value, "answer_", ""))
    case None => Err(NotANumber(value))
    case Some(n) =>
      match PyIndex(q.possibleAnswers, n)
      case None => Err(NoSuchAnswer(value))
      case Some(a) => Ok(a)
  }

  /** The choice key of a possible answer decodes back to that answer: what
      the registrant picks is what is stored. */
  lemma ChoiceRoundTrip(q: Question, i: nat)
    requires i < |q.possibleAnswers|
    ensures DecodeChoice(q, GetChoices(q)[i].0) == Ok(q.possibleAnswers[i])
  {
    ReplacePrefixOfDigits("answer_", NatToString(i));
    ParseNatToString(i);
  }

  /** The questions (among all of them, not only the event's) with a name. */
  function Named(all: seq<Question>, name: string): (r: seq<Question>)
    ensures forall q :: q in r <==> q in all && q.name == name
    decreases |all|
  {
    if all == [] then []
    else (if all[0].name == name then [all[0]] else []) + Named(all[1..], name)
  }

  /** `Question.objects.get(name=...)`. */
  function GetQuestion(all: seq<Question>, name: string): (r: Result<Question, SaveError>)
    ensures r.Ok? ==> r.value in all && r.value.name == name
    ensures r.Ok? <==> |Named(all, name)| == 1
  {
    var found := Named(all, name);
    if |found| == 0 then Err(QuestionNotFound(name))
    else if |found| > 1 then Err(QuestionAmbiguous(name))
    else Ok(found[0])
  }

  /** The position of the first stored answer to question `qid`. */
  function FirstAnswerTo(answers: seq<Answer>, qid: nat): (r: Option<nat>)
    ensures r.Some? ==> r.value < |answers| && answers[r.value].question == qid
    ensures r.Some? ==> forall k :: 0 <= k < r.value ==> answers[k].question != qid
    ensures r.None? <==> forall k :: 0 <= k < |answers| ==> answers[k].question != qid
    decreases |answers|
  {
    if answers == [] then None
    else if answers[0].question == qid then Some(0)
    else match FirstAnswerTo(answers[1..], qid)
      case Some(k) => Some(k + 1)
      case None => None
  }

  /** The create-or-update of one answer: without an answer to the question
      one is added; otherwise the first one is overwritten and the number of
      answers stays the same. */
  function Upsert(answers: seq<Answer>, qid: nat, text: string): (r: seq<Answer>)
    ensures FirstAnswerTo(answers, qid).None? ==> r == answers + [Answer(qid, text)]
    ensures FirstAnswerTo(answers, qid).Some? ==>
      var k := FirstAnswerTo(answers, qid).value;
      |r| == |answers| && r[k] == Answer(qid, text)
      && forall m :: 0 <= m < |answers| && m != k ==> r[m] == answers[m]
  {
    match FirstAnswerTo(answers, qid)
    case None => answers + [Answer(qid, text)]
    case Some(k) => answers[k := Answer(qid, text)]
  }

  /** At most one stored answer per question. */
  predicate OneAnswerPerQuestion(answers: seq<Answer>) {
    forall a, b :: 0 <= a < b < |answers| ==> answers[a].question != answers[b].question
  }

  /** The upsert keeps at most one answer per question, and afterwards the
      answer to the question is the new text. */
  lemma UpsertKeepsOnePerQuestion(answers: seq<Answer>, qid: nat, text: string)
    ensures OneAnswerPerQuestion(answers) ==> OneAnswerPerQuestion(Upsert(answers, qid, text))
    ensures var r := Upsert(answers, qid, text);
      FirstAnswerTo(r, qid).Some? && r[FirstAnswerTo(r, qid).value].answer == text
  {
    var r := Upsert(answers, qid, text);
    match FirstAnswerTo(answers, qid)
    case None =>
      assert r[|answers|] == Answer(qid, text);
    case Some(k) =>
      assert r[k] == Answer(qid, text);
  }

  /** `QuestionsForm.save` as written: each cleaned (question name, value)
      pair, in field order, is looked up among all questions and its value
      decoded as a choice key -- for open questions too. Answers written
      before a failure stay written; the failure is returned alongside. */
  function Save(all: seq<Question>, cleaned: seq<(string, string)>, answers: seq<Answer>): (r: (seq<Answer>, Option<SaveError>))
    ensures r.1.None? ==> |answers| <= |r.0| <= |answers| + |cleaned|
    ensures OneAnswerPerQuestion(answers) ==> OneAnswerPerQuestion(r.0)
    decreases |cleaned|
  {
    if cleaned == [] then (answers, None)
    else
      var (name, value) := cleaned[0];
      match GetQuestion(all, name)
      case Err(e) => (answers, Some(e))
      case Ok(q) =>
        match DecodeChoice(q, value)
        case Err(e) => (answers, Some(e))
        case Ok(a) =>
          UpsertKeepsOnePerQuestion(answers, q.id, a);
          Save(all, cleaned[1..], Upsert(answers, q.id, a))
  }

  /** What the registrant picks is what `save` stores: submitting the choice
      key of possible answer `i` for a question leaves that possible answer
      as the question's one stored answer. */
  lemma SaveStoresChoice(q: Question, all: seq<Question>, i: nat, answers: seq<Answer>)
    requires i < |q.possibleAnswers| && Named(all, q.name) == [q]
    requires OneAnswerPerQuestion(answers)
    ensures var r := Save(all, [(q.name, GetChoices(q)[i].0)], answers);
      r.1.None? && OneAnswerPerQuestion(r.0)
      && FirstAnswerTo(r.0, q.id).Some? && r.0[FirstAnswerTo(r.0, q.id).value].answer == q.possibleAnswers[i]
  {
    ChoiceRoundTrip(q, i);
    UpsertKeepsOnePerQuestion(answers, q.id, q.possibleAnswers[i]);
    assert [(q.name, GetChoices(q)[i].0)][1..] == [];
  }

  /** A free-text answer to an open question is not a choice key, so `save`
      as written fails on it: an open question named "Poznámka" answered
      "ahoj" raises at `int()`. */
  lemma OpenAnswerFailsAsWritten(answers: seq<Answer>)
    ensures var q := Question(1, "Poznámka", "open", []);
      Save([q], [("Poznámka", "ahoj")], answers) == (answers, Some(NotANumber("ahoj")))
  {
    var q := Question(1, "Poznámka", "open", []);
    assert Named([q], "Poznámka") == [q];
    assert ReplaceAll("ahoj", "answer_", "") == "ahoj";
    assert !AllDigits("ahoj") by { assert !IsDigit("ahoj"[0]); }
  }

  /** The answer a question's submitted value stands for, as the form
      evidently means it: the text itself for an open question, the chosen
      possible answer for a closed one. */
  function IntendedAnswer(q: Question, value: string): (r: Result<string, SaveError>)
    ensures q.qtype == "open" ==> r == Ok(value)
    ensures q.qtype != "open" ==> r == DecodeChoice(q, value)
  {
    if q.qtype == "open" then Ok(value) else DecodeChoice(q, value)
  }

  /** `save` with open answers stored as typed. */
  function SaveIntended(all: seq<Question>, cleaned: seq<(string, string)>, answers: seq<Answer>): (r: (seq<Answer>, Option<SaveError>))
    ensures r.1.None? ==> |answers| <= |r.0| <= |answers| + |cleaned|
    ensures OneAnswerPerQuestion(answers) ==> OneAnswerPerQuestion(r.0)
    decreases |cleaned|
  {
    if cleaned == [] then (answers, None)
    else
      var (name, value) := cleaned[0];
      match GetQuestion(all, name)
      case Err(e) => (answers, Some(e))
      case Ok(q) =>
        match IntendedAnswer(q, value)
        case Err(e) => (answers, Some(e))
        case Ok(a) =>
          UpsertKeepsOnePerQuestion(answers, q.id, a);
          SaveIntended(all, cleaned[1..], Upsert(answers, q.id, a))
  }

  /** With open answers stored as typed, an open question's answer is saved:
      a single submitted value lands as the answer to its question. */
  lemma SaveIntendedStoresOpenAnswer(q: Question, all: seq<Question>, value: string, answers: seq<Answer>)
    requires q.qtype == "open" && Named(all, q.name) == [q]
    requires OneAnswerPerQuestion(answers)
    ensures var r := SaveIntended(all, [(q.name, value)], answers);
      r.1.None? && OneAnswerPerQuestion(r.0)
      && FirstAnswerTo(r.0, q.id).Some? && r.0[FirstAnswerTo(r.0, q.id).value].answer == value
  {
    UpsertKeepsOnePerQuestion(answers, q.id, value);
    assert [(q.name, value)][1..] == [];
  }

  /** The two saves agree on closed questions: the fix changes nothing but
      the handling of open ones. */
  lemma {:induction false} SavesAgreeOnClosedQuestions(all: seq<Question>, cleaned: seq<(string, string)>, answers: seq<Answer>)
    requires forall q :: q in all ==> q.qtype != "open"
    ensures SaveIntended(all, cleaned, answers) == Save(all, cleaned, answers)
    decreases |cleaned|
  {
    if cleaned != [] {
      var (name, value) := cleaned[0];
      match GetQuestion(all, name)
      case Err(e) =>
      case Ok(q) =>
        match DecodeChoice(q, value)
        case Err(e) =>
        case Ok(a) => SavesAgreeOnClosedQuestions(all, cleaned[1..], Upsert(answers, q.id, a));
    }
  }

  // ---------------------------------------------------------------------
  // Verification

  datatype Response =
    | RedirectToAnswer(id: nat, token: string) // the `answer` page of the registration
    | Redirect(url: string)

  datatype VerifyError = MissingEmail // `verify_token` of a registration without "email"

  /** `verify(request, id, token)` for the registration `from_token` found:
      unanswered questions first, then an earlier verification, then the
      token. Returns the registration afterwards and the response. */
  function Verify(event: Event, reg: Registration, token: string, secret: string, digest: string -> string)
    : (r: Result<(Registration, Response), VerifyError>)
    ensures |event.questions| != |reg.answers| ==> r == Ok((reg, RedirectToAnswer(reg.id, token)))
    ensures |event.questions| == |reg.answers| && reg.verified ==> r == Ok((reg, Redirect(event.alreadyConfirmedUrl)))
    ensures r.Err? <==> |event.questions| == |reg.answers| && !reg.verified && "email" !in reg.data
    ensures r.Ok? ==> r.value.0 == reg || r.value.0 == reg.(verified := true)
    ensures r.Ok? && r.value.0 != reg <==>
      |event.questions| == |reg.answers| && !reg.verified && VerifyToken(reg, secret, digest) == Some(token)
    ensures r.Ok? && r.value.0 != reg ==> r.value.1 == Redirect(event.successfullyConfirmedUrl)
  {
    if |event.questions| != |reg.answers| then Ok((reg, RedirectToAnswer(reg.id, token)))
    else if reg.verified then Ok((reg, Redirect(event.alreadyConfirmedUrl)))
    else match VerifyToken(reg, secret, digest)
      case None => Err(MissingEmail)
      case Some(t) =>
        if t == token then Ok((reg.(verified := true), Redirect(event.successfullyConfirmedUrl)))
        else Ok((reg, Redirect(event.invalidTokenUrl)))
  }

  /** Verifying twice is verifying once: the second visit finds the
      registration verified and only redirects to the "already confirmed"
      page, whatever the token. */
  lemma VerifyIdempotent(event: Event, reg: Registration, token: string, token2: string, secret: string, digest: string -> string)
    requires Verify(event, reg, token, secret, digest).Ok?
    requires |event.questions| == |reg.answers|
    requires Verify(event, reg, token, secret, digest).value.0.verified
    ensures var reg' := Verify(event, reg, token, secret, digest).value.0;
      Verify(event, reg', token2, secret, digest) == Ok((reg', Redirect(event.alreadyConfirmedUrl)))
  {
  }

  /** A wrong token changes nothing and leads to the "invalid token" page. */
  lemma WrongTokenChangesNothing(event: Event, reg: Registration, token: string, secret: string, digest: string -> string)
    requires |event.questions| == |reg.answers| && !reg.verified
    requires "email" in reg.data && VerifyToken(reg, secret, digest) != Some(token)
    ensures Verify(event, reg, token, secret, digest) == Ok((reg, Redirect(event.invalidTokenUrl)))
  {
  }
}
