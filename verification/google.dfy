/** The Google Sheets side of the Django site (events/eventsite/google.py):
    the fixed map from the Czech form's column labels to internal field
    names, and the range string every read uses. The API call itself is an
    abstract `Fetch`. */
module Google {
  import opened Wrappers

  /** A sheet row as the API returns it: its cell texts, left to right. */
  type Row = seq<string>

  /** One values read: the range string goes in, and the response's `values`
      entry comes out, or `None` when the response has no `values` key. */
  type Fetch = string -> Option<seq<Row>>

  /** The labels of the columns the rest of the site reads. */
  const FirstNameColumn: string := "Jméno"
  const LastNameColumn: string := "Příjmení"
  const SexColumn: string := "Pohlaví"
  const EmailColumn: string := "E-mailová adresa"
  const DisplayOnCardColumn: string := "Na jmenovce bych chtěl/a mít uvedeno"
  const LunchColumn: string := "Chcete, abychom vám zajistili oběd?"
  const VerifiedColumn: string := "Stav ověření registrace"

  /** The spreadsheet column labels of `column_map`, in the source's order. */
  const ColumnLabels: seq<string> := [
    "Časová značka",
    FirstNameColumn,
    LastNameColumn,
    SexColumn,
    EmailColumn,
    "Uživatelské jméno na Wikipedii",
    DisplayOnCardColumn,
    "Místo, kde žijete",
    "Moje aktivita na Wikipedii",
    "S čím byste z Wikikonference rád/a odcházel/a? Co byste se rád/a dozvěděl/a?",
    "Odebíráte náš newsletter?",
    "Jaké oblasti vás zajímají?",
    LunchColumn,
    "Prostor pro cokoli, co byste nám chtěli sdělit",
    VerifiedColumn,
    "Chcete si objednat WikiTričko?",
    "Velikost",
    "Střih"
  ]

  /** The internal field name of each label, position by position. */
  const ColumnFields: seq<string> := [
    "timestamp", "first_name", "last_name", "sex", "email", "username", "display_on_card", "place", "activity",
    "expectations", "newsletter_bool", "newsletter_topics", "lunch", "other", "verified", "tshirt",
    "tshirt_size", "tshirt_type"
  ]

  /** Pairwise different entries. */
  ghost predicate Distinct(s: seq<string>) {
    forall i, j :: 0 <= i < j < |s| ==> s[i] != s[j]
  }

  lemma ColumnListsLength()
    ensures |ColumnLabels| == |ColumnFields| == 18
  {
  }

  /** Two strings of at least two characters differ when their lengths,
      first characters or next-to-last characters do. */
  predicate Apart(a: string, b: string)
    requires |a| >= 2 && |b| >= 2
  {
    |a| != |b| || a[0] != b[0] || a[|a| - 2] != b[|b| - 2]
  }

  lemma LabelsDistinct()
    ensures Distinct(ColumnLabels)
  {
    forall i, j | 0 <= i < j < |ColumnLabels| ensures ColumnLabels[i] != ColumnLabels[j] {
      assert Apart(ColumnLabels[i], ColumnLabels[j]);
    }
  }

  lemma FieldNamesDistinct()
    ensures Distinct(ColumnFields)
  {
    forall i, j | 0 <= i < j < |ColumnFields| ensures ColumnFields[i] != ColumnFields[j] {
      assert Apart(ColumnFields[i], ColumnFields[j]);
    }
  }

  /** A dictionary display `{k0: v0, k1: v1, ...}`: entry by entry, a later
      key overwriting an earlier one. */
  function DictOf(keys: seq<string>, values: seq<string>): (r: map<string, string>)
    requires |keys| == |values|
    ensures r.Keys == set k | k in keys
    decreases |keys|
  {
    if keys == [] then map[]
    else DictOf(keys[..|keys| - 1], values[..|values| - 1])[keys[|keys| - 1] := values[|values| - 1]]
  }

  /** Without repeated keys, every key maps to its own value. */
  lemma {:induction false} DictOfAt(keys: seq<string>, values: seq<string>, i: nat)
    requires |keys| == |values| && Distinct(keys) && i < |keys|
    ensures DictOf(keys, values)[keys[i]] == values[i]
    decreases |keys|
  {
    var n := |keys| - 1;
    assert DictOf(keys, values) == DictOf(keys[..n], values[..n])[keys[n] := values[n]];
    if i < n {
      assert keys[i] != keys[n];
      assert Distinct(keys[..n]);
      assert keys[..n][i] == keys[i] && values[..n][i] == values[i];
      DictOfAt(keys[..n], values[..n], i);
    }
  }

  /** Without repeated keys, the dictionary has one entry per key. */
  lemma {:induction false} DictOfSize(keys: seq<string>, values: seq<string>)
    requires |keys| == |values| && Distinct(keys)
    ensures |DictOf(keys, values)| == |keys|
    decreases |keys|
  {
    if keys != [] {
      var n := |keys| - 1;
      assert Distinct(keys[..n]);
      DictOfSize(keys[..n], values[..n]);
      assert forall j :: 0 <= j < n ==> keys[..n][j] != keys[n];
      assert keys[n] !in DictOf(keys[..n], values[..n]);
    }
  }

  /** `column_map`: spreadsheet column label -> internal field name. */
  const ColumnMap: map<string, string> := DictOf(ColumnLabels, ColumnFields)

  /** No two labels share an internal field name. */
  ghost predicate Injective(m: map<string, string>) {
    forall a, b :: a in m && b in m && a != b ==> m[a] != m[b]
  }

  /** Each label maps to the field name at its own position. */
  lemma ColumnMapAt(i: nat)
    requires i < 18
    ensures ColumnLabels[i] in ColumnMap && ColumnMap[ColumnLabels[i]] == ColumnFields[i]
  {
    ColumnListsLength();
    LabelsDistinct();
    DictOfAt(ColumnLabels, ColumnFields, i);
  }

  /** The fields the rest of the site reads by name are where the form puts them. */
  lemma ColumnMapFields()
    ensures EmailColumn in ColumnMap && ColumnMap[EmailColumn] == "email"
    ensures VerifiedColumn in ColumnMap && ColumnMap[VerifiedColumn] == "verified"
    ensures DisplayOnCardColumn in ColumnMap && ColumnMap[DisplayOnCardColumn] == "display_on_card"
    ensures FirstNameColumn in ColumnMap && ColumnMap[FirstNameColumn] == "first_name"
    ensures LastNameColumn in ColumnMap && ColumnMap[LastNameColumn] == "last_name"
    ensures SexColumn in ColumnMap && ColumnMap[SexColumn] == "sex"
    ensures LunchColumn in ColumnMap && ColumnMap[LunchColumn] == "lunch"
  {
    ColumnMapAt(1);
    ColumnMapAt(2);
    ColumnMapAt(3);
    ColumnMapAt(4);
    ColumnMapAt(6);
    ColumnMapAt(12);
    ColumnMapAt(14);
  }

  /** Two different labels never name the same field. */
  lemma ColumnMapDistinct(a: string, b: string)
    requires a in ColumnMap && b in ColumnMap && a != b
    ensures ColumnMap[a] != ColumnMap[b]
  {
    ColumnListsLength();
    var i :| 0 <= i < |ColumnLabels| && ColumnLabels[i] == a;
    var j :| 0 <= j < |ColumnLabels| && ColumnLabels[j] == b;
    ColumnMapAt(i);
    ColumnMapAt(j);
    FieldNamesDistinct();
    assert i != j;
    assert i < j ==> ColumnFields[i] != ColumnFields[j];
    assert j < i ==> ColumnFields[j] != ColumnFields[i];
  }

  /** The map has eighteen labels with pairwise distinct field names, so the
      label -> field translation loses nothing. */
  lemma ColumnMapShape()
    ensures |ColumnMap| == 18
    ensures Injective(ColumnMap)
  {
    ColumnListsLength();
    LabelsDistinct();
    DictOfSize(ColumnLabels, ColumnFields);
    forall a, b | a in ColumnMap && b in ColumnMap && a != b
      ensures ColumnMap[a] != ColumnMap[b]
    {
      ColumnMapDistinct(a, b);
    }
  }

  /** The A1 range string of `get_range_from_spreadsheet`: the sheet (list)
      name in single quotes, `!`, then the range. */
  function RangeString(list: string, range: string): string {
    "'" + list + "'!" + range
  }

  /** The layout of a range string: quote, sheet name, quote, `!`, range. */
  lemma RangeStringParts(list: string, range: string)
    ensures var r := RangeString(list, range);
      |r| == |list| + |range| + 3
      && r[0] == '\'' && r[|list| + 1] == '\'' && r[|list| + 2] == '!'
      && r[1..|list| + 1] == list && r[|list| + 3..] == range
  {
  }

  /** The position of the last single quote in `s`, if any. */
  function LastQuote(s: string): (r: Option<nat>)
    ensures r.Some? ==> r.value < |s| && s[r.value] == '\''
    ensures r.Some? ==> forall k :: r.value < k < |s| ==> s[k] != '\''
    ensures r.None? ==> forall k :: 0 <= k < |s| ==> s[k] != '\''
    decreases |s|
  {
    if s == [] then None
    else if s[|s| - 1] == '\'' then Some(|s| - 1)
    else LastQuote(s[..|s| - 1])
  }

  /** Splits a quoted range string back into sheet name and range, reading the
      sheet name up to the last quote. */
  function ParseRange(s: string): Option<(string, string)> {
    if |s| == 0 || s[0] != '\'' then None
    else match LastQuote(s)
      case None => None
      case Some(q) =>
        if q == 0 || q + 1 >= |s| || s[q + 1] != '!' then None
        else Some((s[1..q], s[q + 2..]))
  }

  /** A range string determines the sheet name and the range it was built
      from, whatever quotes the sheet name holds, as long as the range itself
      (an A1 reference) holds none. */
  lemma {:induction false} RangeRoundTrip(list: string, range: string)
    requires forall k :: 0 <= k < |range| ==> range[k] != '\''
    ensures ParseRange(RangeString(list, range)) == Some((list, range))
  {
    var s := RangeString(list, range);
    RangeStringParts(list, range);
    var q := |list| + 1;
    assert forall k :: q < k < |s| ==> s[k] != '\'' by {
      forall k | q < k < |s| ensures s[k] != '\'' {
        if k > q + 1 {
          assert s[k] == s[|list| + 3..][k - (|list| + 3)];
        }
      }
    }
    assert LastQuote(s) == Some(q);
  }
}
