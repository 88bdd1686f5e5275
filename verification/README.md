# wikimedia-cz-events in Dafny

A model of the event-registration tooling of Wikimedia Czech Republic. Registrations arrive through a
Google Form and land in a spreadsheet. A Django site imports the sheet rows as registrations,
mails participants and lets them verify their registration and answer the event's questions.
A management command lays out name badges nine to a page. An older Flask application keeps a
table of registrations keyed by e-mail address. It confirms them, reads addresses from the sheet,
and writes a participant's confirmation back into a cell.

The model covers the data handling between the external services:

- `Google` (google.dfy): the form's `column_map` from Czech column labels to internal field names,
  and the quoted range string of every sheet read.
- `Pull` (pull.dfy): `Event.pull`. The old registrations are dropped, the header is read again, the
  rows are read in pages of 31 and each row is zipped against the header. The "confirmed" flag is
  carried over by row number.
- `Models` (models.dfy): the records, the greeting, the full name, the verification token and link,
  and the choice list of a question.
- `MailMerge` (mail_merge.dfy): `Event.mail_participants`. It picks the first registration that is
  not skipped, builds the template context and the recipient, and marks a "confirm" mail's
  registration as confirmed.
- `Views` (views.py → views.dfy): the questions form's fields, `QuestionsForm.save` with its answer
  upsert, and the `verify` decision.
- `FlaskApp` (flask_app.dfy): `confirm_registration` with its command-line bypass, the `verify` route,
  the `emails` generator, `sendmail` and `request_registration_confirm`.
- `ColumnLetters` (column_letters.dfy): `get_letter` as written, and the intended column-letter
  conversion, proved to be a bijection.
- `SheetExport` (sheet_export.dfy): `confirm_participant`, which finds the participant's row and the
  "Potvrzen?" column and writes "Y" or "N" into that one cell.
- `Badges` (badges.dfy): the badge command up to the conversion service. It covers the stable sort
  by "last_name first_name", the opt-out filter, the nine-slot fill and the padding to eighteen
  name fields.
- `Strings` and `Wrappers`: Python's `str()`, `int()`, `str.replace` and `"%s" % None`, and
  `Option`/`Result`.

Every read of the spreadsheet is a parameter `fetch: string -> Option<seq<seq<string>>>`. It maps a
range string to the response's `values` entry. The MD5 digest is a parameter
`digest: string -> string`, compared only for equality. Error paths of the source become `Result`
or `Option` values. Examples are a missing template, a missing "email" field, an unknown mail type,
`int()` on a non-number and an index past the end.

Behaviours of the code that the model keeps:

- `Event.pull` drops the registrations before it reads the header. A sheet without a header row
  then fails at `[0]` with every registration gone, instead of aborting before any change
  (`Pull.Pull`, outcome `HeaderMissing`).
- The stored header is replaced by the fetched one whenever they differ. It is not kept on drift.
- A cell under a label that `column_map` does not know is dropped, not passed through. A repeated
  field does not only drop its own cell. Because the header index is not advanced, it also drops
  every later cell of the row (`Pull.RepeatStopsRow`).
- A page is 31 rows (`A{n}:T{n+30}`).
- `confirm_participant` writes "Y"/"N". A label missing from the header is formatted as "None"
  into the range rather than raising. A sought label in column AA makes `get_letter` raise and
  the export write nothing (`SheetExport.ConfirmParticipant`, error `NoLetter`; see Findings).
- The mail merge's skip test compares the mail type with "verified", a type no template has. So
  "verify" mails skip nobody (`MailMerge.VerifyMailIgnoresVerified`).
- The form compares the question name with "Volba j√≠dla", an encoding slip of "Volba jídla".
  The model keeps the literal.
- Django treats `debug_to` as a truth value, so an empty string is ignored. Flask tests it with
  `is not None`.

## Model

| member | source | states |
|---|---|---|
| Strings.ParseInt | events/eventsite/views.py:47 | `int()` succeeds exactly on a non-empty digit string, optionally after one `+` or `-`, gives it its signed decimal value, and fails (`None`, the ValueError) on every other string, text such as "ahoj" included |
| Strings.ParseIntToString | events/eventsite/views.py:47 | `int(str(i)) == i` for every integer, negative ones included |
| Strings.ReplaceAll | events/eventsite/views.py:47 | `str.replace` leaves a string without an occurrence of the pattern unchanged |
| Strings.ReplacePrefixOfDigits | events/eventsite/views.py:47 | removing "answer_" from "answer_" followed by digits leaves exactly the digits |
| Models.FullName | events/eventsite/models.py:142-143 | the full name is the first name, one space, the last name ("None" for a missing one) |
| Models.FullNameInjective | events/eventsite/models.py:142-143 | when no first name holds a space, two full names are equal exactly when both first and last names are |
| Models.Greeting | events/eventsite/models.py:145-149 | a greeting exists exactly when "sex" is "Muž" or "Zena" |
| Models.GreetingAddressesLastName | events/eventsite/models.py:145-149 | the greeting is a salutation, the last name and a comma; the "pane" salutation appears iff "sex" is "Muž", the "paní" one iff it is "Zena" |
| Models.VerifyToken | events/eventsite/models.py:154-155 | the token exists exactly when the registration has an "email" field |
| Models.TokenDependsOnlyOnEmail | events/eventsite/models.py:154-155 | two registrations with the same address have the same token |
| Models.VerifyLink | events/eventsite/models.py:151-152 | a verification link exists exactly when the token does |
| Models.VerifyLinkRoundTrip | events/eventsite/models.py:151-152 | for a token without `/`, the `<id>/<token>` segments of the link read back as the registration's id and token |
| Models.ChoiceKeysDistinct | events/eventsite/models.py:29-33 | the choice keys of one question are pairwise different |
| Google.DictOf | events/eventsite/google.py:11-30 | the keys of a dict literal are exactly its labels |
| Google.LabelsDistinct | events/eventsite/google.py:11-30 | the 18 labels of `column_map` are pairwise different |
| Google.FieldNamesDistinct | events/eventsite/google.py:11-30 | the 18 internal field names are pairwise different |
| Google.ColumnMapAt | events/eventsite/google.py:11-30 | each label maps to the field name written next to it |
| Google.ColumnMapFields | events/eventsite/google.py:13-26 | the e-mail, verification, badge-name, name, sex and lunch labels map to "email", "verified", "display_on_card", "first_name", "last_name", "sex" and "lunch" |
| Google.ColumnMapDistinct | events/eventsite/google.py:11-30 | two different labels never give the same field |
| Google.ColumnMapShape | events/eventsite/google.py:11-30 | the map has 18 entries and is injective |
| Google.RangeStringParts | events/eventsite/google.py:60-61 | a range string is a quote, the sheet name, a quote, `!`, the range |
| Google.RangeRoundTrip | events/eventsite/google.py:60-61 | a range string determines the sheet name and the range it was built from, for a range without quotes and whatever quotes the name holds |
| Pull.ReadLength | events/eventsite/models.py:114-124 | how many cells of a row are read normally: up to the end of the row, the end of the header, or the first repeated field |
| Pull.ReadCellsStuck | events/eventsite/models.py:120-122 | once the loop meets a label whose field is filled, no later cell of the row is stored |
| Pull.FieldsValues | events/eventsite/models.py:117-124 | in the normally read prefix, each field holds the cell under its label |
| Pull.RowDataCharacterised | events/eventsite/models.py:114-124 | a row's data has exactly the fields of the mapped labels among the cells read, each holding the cell under its label; no cell past the header or under an unmapped label appears |
| Pull.DistinctLabelsReadAll | events/eventsite/models.py:117-124 | with an injective label map and no repeated label, the row is read to the end of the header or the row |
| Pull.DistinctLabelsReadWholeRow | events/eventsite/models.py:117-124 | the same for `column_map` itself |
| Pull.RepeatStopsRow | events/eventsite/models.py:120-124 | labels A, B, A, C store only the first two cells: the first value of a repeated field is kept and the rest of the row is dropped |
| Pull.ReadPages | events/eventsite/models.py:109-113 | the pages read start where the previous page's rows ended, each page is what the fetch returned for its range, and a completed read ends at a fetch that returned `None` |
| Pull.NumberedRowsConsecutive | events/eventsite/models.py:109-128 | row numbers rise by exactly one per returned row, empty rows included, with no gap between pages |
| Pull.Pull | events/eventsite/models.py:91-128 | without a header row, no registration is left; otherwise the header is replaced and the k-th registration has row `2 + skip_rows + k`, is not verified, and is confirmed iff a registration of that row was confirmed before; there is one registration per row the page loop read, carrying that row's data |
| Pull.PulledMeansEndOfData | events/eventsite/models.py:110-113 | a completed import stopped because the read after its last row returned `None` |
| MailMerge.TextsOfType | events/eventsite/models.py:66 | the event's templates of the requested type |
| MailMerge.Subject | events/eventsite/models.py:61-64 | a subject exists exactly for "verify" and "confirm" |
| MailMerge.FirstToMail | events/eventsite/models.py:67-69 | the first registration the loop does not skip, and every one before it is skipped |
| MailMerge.MailContext | events/eventsite/models.py:70-75 | the context has "greeting", "verify_link" and every data key; data values win on a clash |
| MailMerge.MailParticipants | events/eventsite/models.py:60-89 | no template or several fail; at most one mail; no mail exactly when every registration is skipped, and then nothing changes |
| MailMerge.MailGoesToFirstUnskipped | events/eventsite/models.py:67-88 | the one mail goes to the first registration not skipped, with its context, to a non-empty `debug_to` or else its address; only a "confirm" mail changes anything, that registration's `confirmed` |
| MailMerge.FirstToMailIsFirst | events/eventsite/models.py:67-69 | the loop stops at a registration not skipped when all before it are skipped |
| MailMerge.MissingEmailStopsMerge | events/eventsite/models.py:67-72 | a selected registration without an address fails the merge before any mail |
| MailMerge.VerifyMailIgnoresVerified | events/eventsite/models.py:68 | a "verify" merge skips nobody, verified registrations included |
| MailMerge.ConfirmMergeProgresses | events/eventsite/models.py:84-88 | after a "confirm" mail to registration k, the next merge mails a later registration or none |
| Views.SetField | events/eventsite/views.py:40-42 | assigning a form field replaces the field of an existing name in place or appends a new name; other names keep their fields |
| Views.FormFields | events/eventsite/views.py:36-42 | the form's field names are distinct |
| Views.FormFieldsLastQuestionWins | events/eventsite/views.py:36-42 | a name has a field exactly when a shown question has it, and it is the last such question's field |
| Views.FormShowsQuestion | events/eventsite/views.py:36-42 | the meal question is hidden from whoever declined lunch; open questions become text fields, closed ones choice fields listing `get_choices` |
| Views.DecodeChoice | events/eventsite/views.py:47 | a decoded value is one of the question's possible answers |
| Views.ChoiceRoundTrip | events/eventsite/views.py:47 | the key `answer_i` decodes to `possible_answers[i]` |
| Views.Named | events/eventsite/views.py:46 | exactly the questions with the given name |
| Views.GetQuestion | events/eventsite/views.py:46 | the lookup succeeds exactly when one question has the name |
| Views.FirstAnswerTo | events/eventsite/views.py:48 | the position of the first stored answer to the question, or none |
| Views.Upsert | events/eventsite/views.py:48-53 | without an answer to the question one is appended; otherwise the first one is overwritten and nothing else changes |
| Views.UpsertKeepsOnePerQuestion | events/eventsite/views.py:48-53 | at most one answer per question is kept, and afterwards the question's answer is the new text |
| Views.Save | events/eventsite/views.py:44-53 | a save without error adds at most one answer per submitted value, and a save keeps answers at most one per question |
| Views.SaveStoresChoice | events/eventsite/views.py:44-53 | submitting the choice key of possible answer i for a question succeeds and leaves possible answer i as that question's one stored answer |
| Views.OpenAnswerFailsAsWritten | events/eventsite/views.py:47 | a free-text answer to an open question fails at `int()` and stores nothing |
| Views.SaveIntended | events/eventsite/views.py:44-53 | the corrected save adds at most one answer per submitted value and keeps answers at most one per question |
| Views.SaveIntendedStoresOpenAnswer | events/eventsite/views.py:44-53 | the corrected save stores an open answer as typed |
| Views.SavesAgreeOnClosedQuestions | events/eventsite/views.py:44-53 | on closed questions the corrected save equals the save as written |
| Views.Verify | events/eventsite/views.py:56-67 | unanswered questions redirect to the answer page first; a verified registration goes to the "already confirmed" URL; only a matching token verifies and goes to the success URL; a missing address fails |
| Views.VerifyIdempotent | events/eventsite/views.py:60-65 | a second visit after verification changes nothing and redirects to the "already confirmed" URL |
| Views.WrongTokenChangesNothing | events/eventsite/views.py:62-67 | a wrong token changes nothing and redirects to the invalid-token URL |
| FlaskApp.ConfirmRegistration | src/app.py:142-152 | a confirmation succeeds iff the address has an unverified row and the token is the bypass or the digest of address and secret; success sets that row verified, failure changes nothing |
| FlaskApp.ConfirmOnlyVerifies | src/app.py:142-152 | a confirmation adds or removes no row, touches no other row, unverifies nobody, and a successful one adds exactly one verified row |
| FlaskApp.ConfirmOnce | src/app.py:143-146 | a second confirmation of the same address fails and changes nothing, whatever its token |
| FlaskApp.BypassConfirmsUnverified | src/app.py:147-150 | the `confirm` command's bypass confirms any unverified row |
| FlaskApp.VerifyRoute | src/app.py:175-181 | the route shows the verified page iff the row was unverified and the token is the digest; then the row is verified, else nothing changes |
| FlaskApp.Emails | src/app.py:99-106 | the k-th address yielded is the first cell read at row `2 + k`; the generator stops at the first read without values |
| FlaskApp.EmailsPrefix | src/app.py:99-106 | asking for more addresses never changes those already yielded |
| FlaskApp.SendMail | src/app.py:108-120 | the envelope goes to `debug_to` when given, else to the participant; the `To` header always names the participant |
| FlaskApp.RequestRegistrationConfirm | src/app.py:135-140 | at most one mail is sent, and it goes to the address in row 2 whatever the rest of the sheet holds; no mail when row 2 has no values; an empty row 2 fails |
| ColumnLetters.ReduceIndex | src/googleapi.py:53-56 | the subtraction loop leaves a remainder of at most 26 and counts the 26s taken away |
| ColumnLetters.GetLetter | src/googleapi.py:52-61 | `get_letter` returns exactly for indices below 26, or below 702 and not a multiple of 26, and then gives the intended letters (one or two) |
| ColumnLetters.GetLetterMissesMultiplesOf26 | src/googleapi.py:52-61 | `get_letter(26)` and `get_letter(52)` fail where the columns are "AA" and "BA"; 27 gives "AB" and 701 gives "ZZ" |
| ColumnLetters.GetLetterAgrees | src/googleapi.py:52-61 | wherever `get_letter` returns, it agrees with the intended conversion |
| ColumnLetters.ColumnLetter | src/googleapi.py:52-61 | the intended name of a column is a non-empty string of capitals |
| ColumnLetters.ColumnNumberOfLetter | src/googleapi.py:52-61 | decoding the name of index i gives i + 1 |
| ColumnLetters.LetterOfColumnNumber | src/googleapi.py:52-61 | every non-empty capital string is the name of the index it decodes to |
| ColumnLetters.ColumnLetterLength | src/googleapi.py:52-61 | names have one letter exactly below 26 and two exactly from 26 to 701 |
| SheetExport.LastIndexOf | src/googleapi.py:71-76 | the column of a label is its last position in the header |
| SheetExport.FindParticipant | src/googleapi.py:78-83 | the participant's row is 2 + the first matching position; none when no row matches; an empty row before a match fails |
| SheetExport.FindParticipantFirstMatch | src/googleapi.py:78-83 | the scan stops at the first matching row |
| SheetExport.FindParticipantNoMatch | src/googleapi.py:78-83 | the scan finds nothing when no filled row matches |
| SheetExport.HeaderColumns | src/googleapi.py:71-76 | the header loop fails exactly when `get_letter` cannot name some position carrying a sought label, and then at the first such position; otherwise it finds the columns of the labels' last positions by the corrected conversion |
| SheetExport.ExportWith | src/googleapi.py:77-95 | once the columns are known, the email column is read from its range, the value written is "Y" or "N", and only an empty email row fails |
| SheetExport.ConfirmParticipant | src/googleapi.py:64-95 | without a header row the export fails; with one, it fails for want of a letter exactly when `get_letter` cannot name a sought column; otherwise the email column is read from the label's column, the participant is found in it, and "Y" or "N" is written to the "Potvrzen?" column of the participant's row |
| SheetExport.ConfirmParticipantIntended | src/googleapi.py:64-95 | the export with corrected column letters fails only without a header row or on an empty email row, never for want of a letter |
| SheetExport.ExportsAgreeWhereLettersExist | src/googleapi.py:71-76 | wherever `get_letter` names every sought column, the export as written and the corrected one give the same result |
| SheetExport.ColumnAAHeaderColumns | src/googleapi.py:71-76 | a header with "Potvrzen?" in column AA stops the loop at `get_letter(26)`, where the corrected conversion names column AA |
| SheetExport.ConfirmedInColumnAAFails | src/googleapi.py:64-95 | with "Potvrzen?" in column AA the export as written fails at `get_letter(26)` with nothing written |
| SheetExport.ExportToFirstRow | src/googleapi.py:77-95 | an address in the first row of the email column gets its write in sheet row 2 of the given column |
| SheetExport.ConfirmedInColumnAAIntended | src/googleapi.py:64-95 | on the same header the corrected export writes the participant's cell `AA2` |
| SheetExport.ConfirmParticipantWritesParticipantCell | src/googleapi.py:71-95 | when `get_letter` names the sought columns, the write is the single cell of the "Potvrzen?" column in the participant's row, and its letter decodes back to the column |
| SheetExport.UnknownParticipantWritesNoneRow | src/googleapi.py:78-95 | when `get_letter` names the sought columns, an address not in the sheet still gets a write, to a range whose row reads "None" |
| SheetExport.CellRangeNoRow | src/googleapi.py:85 | without a row, both ends of the range read "None" where the row goes |
| Badges.StrLessIrreflexive | events/eventsite/management/commands/generate_badges.py:24 | no string sorts before itself |
| Badges.StrLessTransitive | events/eventsite/management/commands/generate_badges.py:24 | string order is transitive |
| Badges.StrLessTotal | events/eventsite/management/commands/generate_badges.py:24 | of two different strings exactly one sorts first |
| Badges.Insert | events/eventsite/management/commands/generate_badges.py:24 | insertion adds exactly the one entry |
| Badges.InsertSorted | events/eventsite/management/commands/generate_badges.py:24 | insertion keeps a sorted list sorted |
| Badges.SortByName | events/eventsite/management/commands/generate_badges.py:24 | the sort is a permutation |
| Badges.SortByNameSorted | events/eventsite/management/commands/generate_badges.py:24 | the result is ordered by name |
| Badges.InsertNamed | events/eventsite/management/commands/generate_badges.py:24 | an inserted entry lands in front of the entries sharing its name |
| Badges.SortIsStable | events/eventsite/management/commands/generate_badges.py:24 | entries with the same name keep their order |
| Badges.RegsSort | events/eventsite/management/commands/generate_badges.py:24 | sorting keeps the registrations, counted with multiplicity |
| Badges.Ordered | events/eventsite/management/commands/generate_badges.py:20-24 | the ordering holds every registration exactly once |
| Badges.Placed | events/eventsite/management/commands/generate_badges.py:38-39 | only registrations that did not decline a badge are placed |
| Badges.PlacedExactlyBadgeHolders | events/eventsite/management/commands/generate_badges.py:38-39 | the placed registrations are exactly those without an opt-out, in the order given |
| Badges.SlotKeysDistinct | events/eventsite/management/commands/generate_badges.py:40-41 | slot keys differ from each other and from the header keys |
| Badges.PageHeader | events/eventsite/management/commands/generate_badges.py:33-37 | a fresh page has exactly the keys "subtopic", "event" and "year" |
| Badges.OpenPage | events/eventsite/management/commands/generate_badges.py:31-37 | opening a page keeps every page's header and slots |
| Badges.FillSlot | events/eventsite/management/commands/generate_badges.py:40-42 | filling slot i + 1 puts the next placement there and leaves every other slot as it was |
| Badges.PlaceBadge | events/eventsite/management/commands/generate_badges.py:40-44 | a placed badge advances the slot counter and moves to the next page after the ninth slot |
| Badges.FillStep | events/eventsite/management/commands/generate_badges.py:31-44 | an iteration opens a page iff the counter is at 0 or 9, and advances the counter only for a badge |
| Badges.FillOne | events/eventsite/management/commands/generate_badges.py:31-44 | an iteration as written keeps every placement in its slot and counts pages as `FillStep` does |
| Badges.FillPages | events/eventsite/management/commands/generate_badges.py:26-44 | the n-th placement sits on page n / 9 in slot n % 9 + 1; pages have headers and no other keys; the page count is what the loop opens |
| Badges.BlankPagesAsWritten | events/eventsite/management/commands/generate_badges.py:31-39 | two opt-outs ahead of one badge give three pages for one badge |
| Badges.FillOneIntended | events/eventsite/management/commands/generate_badges.py:31-44 | the corrected iteration keeps every placement in its slot and opens a page only for a badge placed on it |
| Badges.FillPagesIntended | events/eventsite/management/commands/generate_badges.py:26-44 | the corrected loop places as the original does and opens exactly the pages the placements need |
| Badges.Pad | events/eventsite/management/commands/generate_badges.py:50-53 | padding adds every missing name key as " " and keeps filled keys |
| Badges.PaddedPage | events/eventsite/management/commands/generate_badges.py:45-53 | a padded page has its header and all eighteen name keys, nothing else, and blank slots past the placements |
| Badges.PadPages | events/eventsite/management/commands/generate_badges.py:45-53 | every page keeps its header and its badges, has exactly the header and the eighteen name keys, and is blank in every slot past the placements |
| Badges.BadgePages | events/eventsite/management/commands/generate_badges.py:20-53 | one page is sent per page the loop opens, blank pages from opt-outs included; each badge is in its slot, and each page has the header, all eighteen name keys and blanks past the placements |
| Badges.BadgePagesIntended | events/eventsite/management/commands/generate_badges.py:20-53 | with the corrected loop the same pages are sent, but no more than the badges need |

## Left out

- Google Sheets API and OAuth (`get_credentials`, `get_google_service`, `discovery.build`, `.execute()`): every read is the parameter `fetch`; a failing call (network, authorisation) is not modelled.
- MD5 (RFC 1321) in `verify_token` and `verification_token`: a parameter `digest`, compared only for equality.
- Django ORM and Flask-SQLAlchemy persistence: registrations are a sequence or a map, returned as the new state; `save`, `delete` and `.one()` are their effect on that value.
- FlaskApp.ConfirmRegistration: the source adds the row to the session but never commits it; the model treats the update as stored. Without a commit, `verified = True` is not persisted, so a second visit with the right token finds the row still unverified and shows `verified.html` again. Only given a stored update does a second visit show `unverified.html`, because `confirm_registration` looks only at unverified rows (`FlaskApp.ConfirmOnce`).
- Template rendering, SMTP and `send_mass_html_mail`: a mail carries the template text and its context; no text is rendered and nothing is sent.
- CloudConvert, the PDF files and the final combine step of the badge command: pages stop at the dictionaries sent for conversion.
- `Registration.from_token`, `big_name` and `small_name` are not part of this model; the registration found, and the two name functions, are parameters. Today's year is a parameter too.
- Framework wiring: admin, URL routes, the `answer` view, `index`, the `mail_participants` and `generate_creds` commands, `list_registrations`, Flask and CLI option parsing.
- Django form validation (`is_valid`, `cleaned_data`): `save` receives the cleaned (name, value) pairs.
- Concurrency (`threaded=True`): everything runs in sequence.
- Pull.ReadPages: the page loop runs while pages keep coming, so the model reads at most `fuel` pages and reports `PagingCut` when they run out.
- FlaskApp.Emails: a generator yields only as many values as its consumer takes; `demand` is the consumer's count, and the loop over an endless column is not modelled.
- Strings.ParseInt: surrounding whitespace, `_` separators and non-ASCII digits, which Python's `int()` also accepts, are not modelled. Choice keys never hold them, but a free-text answer can (see Findings): `Views.Save` then reports `NotANumber` for a value such as "1_0" that Python would parse and look up as an index.
- Badges.Ordered: states that every registration is kept once; the order and stability are stated about `SortByName`, which it applies.
- Database ids of new registrations are chosen by the database; `Pull.Pull` takes the first one as `nextId`.
- `Question.objects.get` searches all questions, not only the event's; the model passes them all in.
- `__str__` methods and the `header != self.header` test before the save (the header ends equal to the fetched one either way).

## Findings

| source | as written | input that shows it | evidently intended | confidence | as-written member | corrected member |
|---|---|---|---|---|---|---|
| src/googleapi.py:54 | the loop subtracts 26 only while the index is greater than 26, then indexes `ascii_uppercase` with what is left | index 26 (the 27th column) leaves 26 and `ascii_uppercase[26]` raises; 52, 78 … too | bijective base 26: 26 is "AA", 52 is "BA" | high; not executed | ColumnLetters.GetLetterMissesMultiplesOf26 | ColumnLetters.LetterOfColumnNumber |
| events/eventsite/views.py:47 | every submitted value is decoded as an `answer_N` choice key, open questions included | an open question answered "ahoj": `int("ahoj")` raises ValueError | an open question's text is stored as typed | medium; not executed | Views.OpenAnswerFailsAsWritten | Views.SaveIntendedStoresOpenAnswer |
| events/eventsite/management/commands/generate_badges.py:31-39 | a page is opened when the slot counter is 0, before the opt-out test | two registrations that declined a badge ahead of one that did not: three pages, two printed blank | a page only for a badge that goes on it | medium; not executed | Badges.BlankPagesAsWritten | Badges.FillPagesIntended |
