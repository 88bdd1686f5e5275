/** The mail merge of the Django site (events/eventsite/models.py
    `Event.mail_participants`): pick the event's template of the given mail
    type, find the first registration that is not skipped, build its
    template context and address, and -- for a "confirm" mail -- mark it
    confirmed. The `break` at the end of the loop body means at most one
    mail per call. Rendering and sending are left abstract: a mail carries
    the template text and the context it would be rendered with. */
module MailMerge {
  import opened Wrappers
  import opened Strings
  import opened Models

  /** One outgoing mail as handed to the mass-mail helper. */
  datatype Mail = Mail(
    subject: string,
    template: string,
    context: map<string, Option<string>>,
    fromMail: string,
    recipients: seq<string>)

  datatype MailError =
    | NoMailText                // `mailtext_set.get` finds no template
    | SeveralMailTexts          // `mailtext_set.get` finds more than one
    | MissingEmail(regId: nat)  // `verify_token` of a registration without "email"
    | UnknownMailType           // `subjects[mail_type]` for a type other than verify/confirm

  /** The templates of the event with the given type. */
  function TextsOfType(texts: seq<MailText>, mailType: string): (r: seq<MailText>)
    ensures forall t :: t in r <==> t in texts && t.mailType == mailType
    decreases |texts|
  {
    if texts == [] then []
    else (if texts[0].mailType == mailType then [texts[0]] else []) + TextsOfType(texts[1..], mailType)
  }

  /** The loop's `continue` test. It compares with "verified", a type no
      template has, so verified registrations are never skipped. */
  predicate Skipped(reg: Registration, mailType: string) {
    (mailType == "confirm" && reg.confirmed) || (mailType == "verified" && reg.verified)
  }

  /** The subject line of each known mail type; `None` stands for the
      `KeyError` of any other type. */
  function Subject(eventName: string, mailType: string): (r: Option<string>)
    ensures r.Some? <==> mailType in {"verify", "confirm"}
  {
    if mailType == "verify" then Some("[" + eventName + "] " + eventName + " se blíží, plánujete se zúčastnit?")
    else if mailType == "confirm" then Some("[" + eventName + "] Potvrzení registrace")
    else None
  }

  /** The position of the first registration at or after `i` that is not
      skipped. */
  function FirstToMail(regs: seq<Registration>, mailType: string, i: nat): (r: Option<nat>)
    requires i <= |regs|
    ensures r.Some? ==> i <= r.value < |regs| && !Skipped(regs[r.value], mailType)
    ensures r.Some? ==> forall k :: i <= k < r.value ==> Skipped(regs[k], mailType)
    ensures r.None? ==> forall k :: i <= k < |regs| ==> Skipped(regs[k], mailType)
    decreases |regs| - i
  {
    if i == |regs| then None
    else if !Skipped(regs[i], mailType) then Some(i)
    else FirstToMail(regs, mailType, i + 1)
  }

  /** `c_dict`: "greeting" and "verify_link" first, then every data field,
      which wins on a clash. */
  function MailContext(reg: Registration, link: Option<string>): (r: map<string, Option<string>>)
    ensures r.Keys == reg.data.Keys + {"greeting", "verify_link"}
    ensures forall key :: key in reg.data ==> r[key] == Some(reg.data[key])
    ensures "greeting" !in reg.data ==> r["greeting"] == Greeting(reg)
    ensures "verify_link" !in reg.data ==> r["verify_link"] == link
  {
    map["greeting" := Greeting(reg), "verify_link" := link]
      + map key | key in reg.data :: Some(reg.data[key])
  }

  /** `actual_mail`: a non-empty `debug_to` redirects every mail. */
  function Recipient(reg: Registration, debugTo: Option<string>): Option<string> {
    if debugTo.Some? && debugTo.value != "" then debugTo else Get(reg.data, "email")
  }

  /** `Event.mail_participants(mail_type, debug_to)` over the event's
      templates and registrations; returns the mails passed to the sender and
      the registrations afterwards. */
  function MailParticipants(event: Event, texts: seq<MailText>, regs: seq<Registration>, mailType: string,
                            debugTo: Option<string>, secret: string, digest: string -> string)
    : (r: Result<(seq<Mail>, seq<Registration>), MailError>)
    ensures r == Err(NoMailText) <==> |TextsOfType(texts, mailType)| == 0
    ensures r == Err(SeveralMailTexts) <==> |TextsOfType(texts, mailType)| > 1
    ensures r.Ok? ==> |r.value.0| <= 1 && |r.value.1| == |regs|
    ensures r.Ok? && r.value.0 == [] ==> r.value.1 == regs
    ensures r.Ok? ==> (r.value.0 == [] <==> forall k :: 0 <= k < |regs| ==> Skipped(regs[k], mailType))
  {
    var candidates := TextsOfType(texts, mailType);
    if |candidates| == 0 then Err(NoMailText)
    else if |candidates| > 1 then Err(SeveralMailTexts)
    else match FirstToMail(regs, mailType, 0)
      case None => Ok(([], regs))
      case Some(k) =>
        var reg := regs[k];
        match VerifyLink(reg, secret, digest)
        case None => Err(MissingEmail(reg.id))
        case Some(link) =>
          match Subject(event.name, mailType)
          case None => Err(UnknownMailType)
          case Some(subject) =>
            // the email is present, or `verify_link` would have failed
            var to := Recipient(reg, debugTo).GetOr("");
            var mail := Mail(subject, candidates[0].text, MailContext(reg, Some(link)), event.fromMail, [to]);
            var regs' := if mailType == "confirm" then regs[k := reg.(confirmed := true)] else regs;
            Ok(([mail], regs'))
  }

  /** The one mail goes to the first registration that is not skipped: its
      context is that registration's, its recipient the non-empty `debug_to`
      or else the registration's email, and only a "confirm" mail changes
      anything -- that registration's `confirmed` flag. */
  lemma MailGoesToFirstUnskipped(event: Event, texts: seq<MailText>, regs: seq<Registration>, mailType: string,
                                 debugTo: Option<string>, secret: string, digest: string -> string, k: nat)
    requires |TextsOfType(texts, mailType)| == 1
    requires k < |regs| && !Skipped(regs[k], mailType)
    requires forall m :: 0 <= m < k ==> Skipped(regs[m], mailType)
    requires "email" in regs[k].data && mailType in {"verify", "confirm"}
    ensures var r := MailParticipants(event, texts, regs, mailType, debugTo, secret, digest);
      r.Ok? && |r.value.0| == 1
      && var mail := r.value.0[0];
      mail.subject == Subject(event.name, mailType).value
      && mail.fromMail == event.fromMail
      && mail.context == MailContext(regs[k], VerifyLink(regs[k], secret, digest))
      && mail.recipients == [if debugTo.Some? && debugTo.value != "" then debugTo.value else regs[k].data["email"]]
      && (forall m :: 0 <= m < |regs| && m != k ==> r.value.1[m] == regs[m])
      && r.value.1[k] == regs[k].(confirmed := regs[k].confirmed || mailType == "confirm")
  {
    assert FirstToMail(regs, mailType, 0) == Some(k) by {
      FirstToMailIsFirst(regs, mailType, 0, k);
    }
  }

  lemma {:induction false} FirstToMailIsFirst(regs: seq<Registration>, mailType: string, i: nat, k: nat)
    requires i <= k < |regs| && !Skipped(regs[k], mailType)
    requires forall m :: i <= m < k ==> Skipped(regs[m], mailType)
    ensures FirstToMail(regs, mailType, i) == Some(k)
    decreases k - i
  {
    if i < k {
      FirstToMailIsFirst(regs, mailType, i + 1, k);
    }
  }

  /** A registration without an address stops the merge when its turn
      comes, before any mail is produced. */
  lemma MissingEmailStopsMerge(event: Event, texts: seq<MailText>, regs: seq<Registration>, mailType: string,
                               debugTo: Option<string>, secret: string, digest: string -> string, k: nat)
    requires |TextsOfType(texts, mailType)| == 1
    requires k < |regs| && !Skipped(regs[k], mailType)
    requires forall m :: 0 <= m < k ==> Skipped(regs[m], mailType)
    requires "email" !in regs[k].data
    ensures MailParticipants(event, texts, regs, mailType, debugTo, secret, digest) == Err(MissingEmail(regs[k].id))
  {
    FirstToMailIsFirst(regs, mailType, 0, k);
  }

  /** A "verify" mail skips no one: the skip test names the type "verified",
      so even a registration already verified is mailed again. */
  lemma VerifyMailIgnoresVerified(regs: seq<Registration>)
    requires |regs| > 0
    ensures FirstToMail(regs, "verify", 0) == Some(0)
  {
  }

  /** Repeated "confirm" merges walk down the registrations: after a mail to
      registration `k`, that registration is skipped from then on, so the next
      call mails a later one (or no one). */
  lemma ConfirmMergeProgresses(event: Event, texts: seq<MailText>, regs: seq<Registration>,
                               debugTo: Option<string>, secret: string, digest: string -> string, k: nat)
    requires |TextsOfType(texts, "confirm")| == 1
    requires FirstToMail(regs, "confirm", 0) == Some(k)
    requires MailParticipants(event, texts, regs, "confirm", debugTo, secret, digest).Ok?
    ensures var regs' := MailParticipants(event, texts, regs, "confirm", debugTo, secret, digest).value.1;
      |regs'| == |regs| && regs'[k].confirmed
      && (FirstToMail(regs', "confirm", 0).None? || FirstToMail(regs', "confirm", 0).value > k)
  {
    var regs' := MailParticipants(event, texts, regs, "confirm", debugTo, secret, digest).value.1;
    assert regs' == regs[k := regs[k].(confirmed := true)];
    assert forall m :: 0 <= m <= k ==> Skipped(regs'[m], "confirm");
  }
}
