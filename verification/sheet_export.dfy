/** Writing a participant's confirmation back to the sheet
    (src/googleapi.py `confirm_participant`).

    The header row is read, the email column and the "Potvrzen?" column are
    located by label, the email column is scanned for the participant's
    address, and one cell -- that participant's "Potvrzen?" cell -- is
    overwritten with "Y" or "N". As written, the column letters come from
    `get_letter`, so a label at index 26 of the A..AZ header (column AA)
    makes the export fail; `ConfirmParticipantIntended` uses the corrected
    conversion `ColumnLetter` and writes that column. */
module SheetExport {
  import opened Wrappers
  import opened Strings
  import opened Google
  import opened ColumnLetters

  const EmailLabel: string := "E-mailová adresa"
  const ConfirmedLabel: string := "Potvrzen?"

  /** A one-cell update request: its range and the values written there. */
  datatype CellUpdate = CellUpdate(range: string, values: seq<seq<string>>)

  /** What the export read and the update it sends. */
  datatype Export = Export(emailsRange: string, update: CellUpdate)

  datatype ExportError =
    | NoHeaderRow              // `.get('values', [])[0]` on an empty result
    | EmptyEmailCell(row: int) // `emails[i][0]` on an empty row of the email column
    | NoLetter(index: nat)     // `get_letter(i)` raises IndexError

  /** The position of the last occurrence of `x` in `s`: the header loop has
      no `break`, so a later column with the same label wins. */
  function LastIndexOf(s: seq<string>, x: string): (r: Option<nat>)
    ensures r.Some? ==> r.value < |s| && s[r.value] == x
    ensures r.Some? ==> forall k :: r.value < k < |s| ==> s[k] != x
    ensures r.None? <==> x !in s
    decreases |s|
  {
    if s == [] then None
    else if s[|s| - 1] == x then Some(|s| - 1)
    else LastIndexOf(s[..|s| - 1], x)
  }

  /** The letter of the column labelled `columnLabel`, or `None` (formatted as
      "None") when no header cell carries it, by the corrected conversion. */
  function LabelColumn(header: seq<string>, columnLabel: string): Option<string> {
    match LastIndexOf(header, columnLabel)
    case Some(i) => Some(ColumnLetter(i))
    case None => None
  }

  /** A header cell the loop converts to a letter. */
  predicate Sought(cell: string) {
    cell == EmailLabel || cell == ConfirmedLabel
  }

  /** `get_letter` returns at every position that carries a sought label. */
  predicate LettersDefined(header: seq<string>) {
    forall k :: 0 <= k < |header| && Sought(header[k]) ==> GetLetter(k).Some?
  }

  /** `get_letter` names the sought columns of a header exactly when it
      names those before the last position and, if sought, the last one. */
  lemma LettersDefinedLast(header: seq<string>)
    requires header != []
    ensures LettersDefined(header) <==>
      LettersDefined(header[..|header| - 1])
      && (Sought(header[|header| - 1]) ==> GetLetter(|header| - 1).Some?)
  {
    var n := |header| - 1;
    assert forall k :: 0 <= k < n ==> header[..n][k] == header[k];
  }

  /** The header loop as written, after it has visited every position of
      `header`: each position carrying a sought label calls `get_letter`, a
      later match overwrites an earlier one, and the first call that raises
      ends the export. Where it returns, it finds the columns the corrected
      conversion finds. */
  function HeaderColumns(header: seq<string>): (r: Result<(Option<string>, Option<string>), ExportError>)
    ensures r.Ok? <==> LettersDefined(header)
    ensures r.Err? ==>
      r.error.NoLetter? && r.error.index < |header|
      && Sought(header[r.error.index]) && GetLetter(r.error.index).None?
      && forall k :: 0 <= k < r.error.index && Sought(header[k]) ==> GetLetter(k).Some?
    ensures r.Ok? ==> r.value == (LabelColumn(header, EmailLabel), LabelColumn(header, ConfirmedLabel))
    decreases |header|
  {
    if header == [] then Ok((None, None))
    else
      var n := |header| - 1;
      assert forall k :: 0 <= k < n ==> header[..n][k] == header[k];
      LettersDefinedLast(header);
      match HeaderColumns(header[..n])
      case Err(e) => Err(e)
      case Ok(columns) =>
        if !Sought(header[n]) then Ok(columns)
        else
          match GetLetter(n)
          case None => Err(NoLetter(n))
          case Some(letter) =>
            Ok((if header[n] == EmailLabel then Some(letter) else columns.0,
                if header[n] == ConfirmedLabel then Some(letter) else columns.1))
  }

  /** The `A1` range of the email column, rows 2 to 300 (sheet name unquoted). */
  function EmailsRange(sheet: string, column: Option<string>): string {
    sheet + "!" + PyStr(column) + "2:" + PyStr(column) + "300"
  }

  /** The one-cell range `sheet!{col}{row}:{col}{row}`; a missing column or
      row prints as "None". */
  function CellRange(sheet: string, column: Option<string>, row: Option<int>): string {
    var r := PyStr(match row case Some(n) => Some(IntToString(n)) case None => None);
    sheet + "!" + PyStr(column) + r + ":" + PyStr(column) + r
  }

  /** The scan of the email column from row 2 with `break` on the first
      match: the sheet row of the first cell equal to `mail`, `None` when no
      cell matches, or the error an empty row raises before a match. */
  function FindParticipant(emails: seq<Row>, mail: string, i: nat): (r: Result<Option<int>, ExportError>)
    requires i <= |emails|
    ensures r == Ok(None) ==>
      forall j :: i <= j < |emails| ==> |emails[j]| > 0 && emails[j][0] != mail
    ensures r.Ok? && r.value.Some? ==>
      var j := r.value.value - 2;
      i <= j < |emails| && |emails[j]| > 0 && emails[j][0] == mail
      && forall k :: i <= k < j ==> |emails[k]| > 0 && emails[k][0] != mail
    ensures r.Err? ==>
      r.error.EmptyEmailCell? &&
      var j := r.error.row - 2;
      i <= j < |emails| && emails[j] == []
      && forall k :: i <= k < j ==> |emails[k]| > 0 && emails[k][0] != mail
    decreases |emails| - i
  {
    if i == |emails| then Ok(None)
    else if emails[i] == [] then Err(EmptyEmailCell(i + 2))
    else if emails[i][0] == mail then Ok(Some(i + 2))
    else FindParticipant(emails, mail, i + 1)
  }

  /** The scan stops at the first matching row when no empty row precedes it. */
  lemma {:induction false} FindParticipantFirstMatch(emails: seq<Row>, mail: string, i: nat, j: nat)
    requires i <= j < |emails| && |emails[j]| > 0 && emails[j][0] == mail
    requires forall k :: i <= k < j ==> |emails[k]| > 0 && emails[k][0] != mail
    ensures FindParticipant(emails, mail, i) == Ok(Some(j + 2))
    decreases j - i
  {
    if i < j {
      FindParticipantFirstMatch(emails, mail, i + 1, j);
    }
  }

  /** The scan finds nothing when every row is filled and none matches. */
  lemma {:induction false} FindParticipantNoMatch(emails: seq<Row>, mail: string, i: nat)
    requires i <= |emails|
    requires forall k :: i <= k < |emails| ==> |emails[k]| > 0 && emails[k][0] != mail
    ensures FindParticipant(emails, mail, i) == Ok(None)
    decreases |emails| - i
  {
    if i < |emails| {
      FindParticipantNoMatch(emails, mail, i + 1);
    }
  }

  /** The export once the header row is known: read the email column, find
      the participant, write "Y" or "N" into its "Potvrzen?" cell. */
  function ExportWith(fetch: Fetch, mail: string, confirmed: bool, sheet: string,
                      emailColumn: Option<string>, confirmedColumn: Option<string>): (r: Result<Export, ExportError>)
    ensures r.Ok? ==> r.value.update.values == [[if confirmed then "Y" else "N"]]
    ensures r.Ok? ==> r.value.emailsRange == EmailsRange(sheet, emailColumn)
    ensures r.Err? ==> r.error.EmptyEmailCell?
  {
    var emailsRange := EmailsRange(sheet, emailColumn);
    var emails := fetch(emailsRange).GetOr([]);
    match FindParticipant(emails, mail, 0)
    case Err(e) => Err(e)
    case Ok(participantRow) =>
      var range := CellRange(sheet, confirmedColumn, participantRow);
      Ok(Export(emailsRange, CellUpdate(range, [[if confirmed then "Y" else "N"]])))
  }

  /** The range the header row is read from. */
  function HeaderRange(sheet: string): string {
    sheet + "!A1:AZ1"
  }

  /** `confirm_participant(table_id, mail, confirmed, sheet)` as written, with
      the table's reads given by `fetch` (`sheet` is "Účastníci" when the
      caller omits it): it fails without a header row, and
      fails at the first sought label `get_letter` cannot name. */
  function ConfirmParticipant(fetch: Fetch, mail: string, confirmed: bool, sheet: string): (r: Result<Export, ExportError>)
    ensures r == Err(NoHeaderRow) <==> fetch(HeaderRange(sheet)).GetOr([]) == []
    ensures fetch(HeaderRange(sheet)).GetOr([]) != [] ==>
      var header := fetch(HeaderRange(sheet)).value[0];
      (r.Err? && r.error.NoLetter? <==> !LettersDefined(header))
    ensures r.Ok? ==> r.value.update.values == [[if confirmed then "Y" else "N"]]
    ensures r.Ok? ==>
      var header := fetch(HeaderRange(sheet)).value[0];
      r.value.emailsRange == EmailsRange(sheet, LabelColumn(header, EmailLabel))
    ensures r.Ok? ==>
      var header := fetch(HeaderRange(sheet)).value[0];
      var found := FindParticipant(fetch(r.value.emailsRange).GetOr([]), mail, 0);
      found.Ok? && r.value.update.range == CellRange(sheet, LabelColumn(header, ConfirmedLabel), found.value)
  {
    var headerRows := fetch(HeaderRange(sheet)).GetOr([]);
    if headerRows == [] then Err(NoHeaderRow)
    else
      match HeaderColumns(headerRows[0])
      case Err(e) => Err(e)
      case Ok(columns) => ExportWith(fetch, mail, confirmed, sheet, columns.0, columns.1)
  }

  /** `confirm_participant` with the corrected column letters: it never fails
      for want of a letter. */
  function ConfirmParticipantIntended(fetch: Fetch, mail: string, confirmed: bool, sheet: string)
    : (r: Result<Export, ExportError>)
    ensures r == Err(NoHeaderRow) <==> fetch(HeaderRange(sheet)).GetOr([]) == []
    ensures r.Err? ==> !r.error.NoLetter?
    ensures r.Ok? ==> r.value.update.values == [[if confirmed then "Y" else "N"]]
    ensures r.Ok? ==>
      var header := fetch(HeaderRange(sheet)).value[0];
      r.value.emailsRange == EmailsRange(sheet, LabelColumn(header, EmailLabel))
  {
    var headerRows := fetch(HeaderRange(sheet)).GetOr([]);
    if headerRows == [] then Err(NoHeaderRow)
    else
      var header := headerRows[0];
      ExportWith(fetch, mail, confirmed, sheet, LabelColumn(header, EmailLabel), LabelColumn(header, ConfirmedLabel))
  }

  /** The export as written and the corrected one do the same wherever
      `get_letter` can name every sought column. */
  lemma ExportsAgreeWhereLettersExist(fetch: Fetch, mail: string, confirmed: bool, sheet: string)
    requires fetch(HeaderRange(sheet)).GetOr([]) != []
    requires LettersDefined(fetch(HeaderRange(sheet)).value[0])
    ensures ConfirmParticipant(fetch, mail, confirmed, sheet) == ConfirmParticipantIntended(fetch, mail, confirmed, sheet)
  {
  }

  /** A header whose only sought label is "Potvrzen?" in column AA. */
  function ColumnAAHeader(): (header: seq<string>)
    ensures |header| == 27 && header[26] == ConfirmedLabel
    ensures forall k :: 0 <= k < 26 ==> header[k] == ""
  {
    seq(26, k => "") + [ConfirmedLabel]
  }

  /** On that header the loop as written stops at `get_letter(26)`, while the
      corrected conversion names column AA and finds no email column. */
  lemma ColumnAAHeaderColumns()
    ensures HeaderColumns(ColumnAAHeader()) == Err(NoLetter(26))
    ensures LabelColumn(ColumnAAHeader(), EmailLabel) == None
    ensures LabelColumn(ColumnAAHeader(), ConfirmedLabel) == Some("AA")
  {
    var header := ColumnAAHeader();
    GetLetterMissesMultiplesOf26();
    assert Sought(header[26]) && GetLetter(26).None?;
    assert !LettersDefined(header);
    assert forall k :: 0 <= k < 26 ==> !Sought(header[k]);
    assert EmailLabel !in header by {
      forall k | 0 <= k < |header| ensures header[k] != EmailLabel {
        if k < 26 { assert header[k] == ""; }
      }
    }
  }

  /** The "Potvrzen?" label in column AA: the export as written fails at
      `get_letter(26)` and writes nothing. */
  lemma ConfirmedInColumnAAFails(fetch: Fetch, mail: string, confirmed: bool, sheet: string)
    requires fetch(HeaderRange(sheet)) == Some([ColumnAAHeader()])
    ensures ConfirmParticipant(fetch, mail, confirmed, sheet) == Err(NoLetter(26))
  {
    ColumnAAHeaderColumns();
  }

  /** With the address first in the email column, the write goes to column
      `column` of sheet row 2. */
  lemma ExportToFirstRow(fetch: Fetch, mail: string, confirmed: bool, sheet: string,
                         emailColumn: Option<string>, column: string)
    requires fetch(EmailsRange(sheet, emailColumn)) == Some([[mail]])
    ensures ExportWith(fetch, mail, confirmed, sheet, emailColumn, Some(column)).Ok?
    ensures ExportWith(fetch, mail, confirmed, sheet, emailColumn, Some(column)).value.update.range
      == sheet + "!" + column + "2:" + column + "2"
  {
    FindParticipantFirstMatch([[mail]], mail, 0, 0);
    assert IntToString(2) == "2";
  }

  /** On the same header the corrected export writes the participant's
      "Potvrzen?" cell in column AA. */
  lemma ConfirmedInColumnAAIntended(fetch: Fetch, mail: string, confirmed: bool, sheet: string)
    requires fetch(HeaderRange(sheet)) == Some([ColumnAAHeader()])
    requires fetch(EmailsRange(sheet, None)) == Some([[mail]])
    ensures ConfirmParticipantIntended(fetch, mail, confirmed, sheet).Ok?
    ensures ConfirmParticipantIntended(fetch, mail, confirmed, sheet).value.update.range == sheet + "!AA2:AA2"
  {
    ColumnAAHeaderColumns();
    ExportToFirstRow(fetch, mail, confirmed, sheet, None, "AA");
  }

  /** The write lands in the participant's "Potvrzen?" cell: when `get_letter`
      names the sought columns, the header has the label (last at position
      `c`), and the email column read back holds `mail` first at position `j`
      with no empty row before it, the single cell written is column `c` of
      sheet row `j + 2`, and its letter decodes back to `c`. */
  lemma ConfirmParticipantWritesParticipantCell(fetch: Fetch, mail: string, confirmed: bool, sheet: string,
                                                c: nat, j: nat)
    requires fetch(HeaderRange(sheet)).GetOr([]) != []
    requires LettersDefined(fetch(HeaderRange(sheet)).value[0])
    requires var header := fetch(HeaderRange(sheet)).value[0];
      LastIndexOf(header, ConfirmedLabel) == Some(c)
    requires var header := fetch(HeaderRange(sheet)).value[0];
      var emails := fetch(EmailsRange(sheet, LabelColumn(header, EmailLabel))).GetOr([]);
      j < |emails| && |emails[j]| > 0 && emails[j][0] == mail
      && forall k :: 0 <= k < j ==> |emails[k]| > 0 && emails[k][0] != mail
    ensures var letter := ColumnLetter(c);
      var row := IntToString(j + 2);
      ConfirmParticipant(fetch, mail, confirmed, sheet).Ok?
      && ConfirmParticipant(fetch, mail, confirmed, sheet).value.update.range
         == sheet + "!" + letter + row + ":" + letter + row
      && ColumnNumber(letter) == c + 1
  {
    var header := fetch(HeaderRange(sheet)).value[0];
    var emails := fetch(EmailsRange(sheet, LabelColumn(header, EmailLabel))).GetOr([]);
    FindParticipantFirstMatch(emails, mail, 0, j);
    ColumnNumberOfLetter(c);
  }

  /** A participant whose address is not in the email column still gets a
      write when `get_letter` names the sought columns: the row formats as
      "None", so the range names no real cell. */
  lemma UnknownParticipantWritesNoneRow(fetch: Fetch, mail: string, confirmed: bool, sheet: string)
    requires fetch(HeaderRange(sheet)).GetOr([]) != []
    requires LettersDefined(fetch(HeaderRange(sheet)).value[0])
    requires var header := fetch(HeaderRange(sheet)).value[0];
      var emails := fetch(EmailsRange(sheet, LabelColumn(header, EmailLabel))).GetOr([]);
      forall k :: 0 <= k < |emails| ==> |emails[k]| > 0 && emails[k][0] != mail
    ensures var header := fetch(HeaderRange(sheet)).value[0];
      var column := PyStr(LabelColumn(header, ConfirmedLabel));
      ConfirmParticipant(fetch, mail, confirmed, sheet)
      == Ok(Export(EmailsRange(sheet, LabelColumn(header, EmailLabel)),
                   CellUpdate(sheet + "!" + column + "None:" + column + "None",
                              [[if confirmed then "Y" else "N"]])))
  {
    var header := fetch(HeaderRange(sheet)).value[0];
    var emails := fetch(EmailsRange(sheet, LabelColumn(header, EmailLabel))).GetOr([]);
    FindParticipantNoMatch(emails, mail, 0);
    CellRangeNoRow(sheet, LabelColumn(header, ConfirmedLabel));
  }

  /** Without a row, both ends of the range read "None" in the row place. */
  lemma CellRangeNoRow(sheet: string, column: Option<string>)
    ensures CellRange(sheet, column, None) == sheet + "!" + PyStr(column) + "None:" + PyStr(column) + "None"
  {
    var c := PyStr(column);
    assert sheet + "!" + c + "None" + ":" + c + "None" == sheet + "!" + c + "None:" + c + "None";
  }
}
