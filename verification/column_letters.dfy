/** Spreadsheet column letters (src/googleapi.py `get_letter`).

    Columns are named in bijective base 26: A..Z, then AA..AZ, BA.., ZZ, AAA..
    `get_letter` computes the name of a 0-based column index with a loop
    that subtracts 26 while the index is *greater than* 26; the index 26
    itself (and every multiple of 26) falls through to `ascii_uppercase[26]`,
    which raises. `GetLetter` models that code as written, and the export
    as written calls it; `ColumnLetter` is the intended conversion. */
module ColumnLetters {
  import opened Wrappers

  /** Python's `string.ascii_uppercase`. */
  const Uppercase: string := "ABCDEFGHIJKLMNOPQRSTUVWXYZ"

  predicate IsColumnName(s: string) {
    forall k :: 0 <= k < |s| ==> 'A' <= s[k] <= 'Z'
  }

  lemma UppercaseIsAlphabet()
    ensures |Uppercase| == 26
    ensures forall d :: 0 <= d < 26 ==> Uppercase[d] as int == 'A' as int + d
  {
  }

  /** The name of the column with 0-based index `index`. */
  function ColumnLetter(index: nat): (r: string)
    ensures |r| >= 1 && IsColumnName(r)
    decreases index
  {
    UppercaseIsAlphabet();
    if index < 26 then [Uppercase[index]]
    else ColumnLetter(index / 26 - 1) + [Uppercase[index % 26]]
  }

  /** The 1-based number of a column name (A = 1, Z = 26, AA = 27). */
  function ColumnNumber(s: string): (n: nat)
    requires IsColumnName(s)
    ensures s != [] ==> n >= 1
    decreases |s|
  {
    if s == [] then 0
    else 26 * ColumnNumber(s[..|s| - 1]) + ((s[|s| - 1] as int) - ('A' as int) + 1)
  }

  /** Decoding a column name gives back the index it was made from. */
  lemma {:induction false} ColumnNumberOfLetter(index: nat)
    ensures ColumnNumber(ColumnLetter(index)) == index + 1
    decreases index
  {
    UppercaseIsAlphabet();
    var s := ColumnLetter(index);
    if index >= 26 {
      ColumnNumberOfLetter(index / 26 - 1);
      assert s[..|s| - 1] == ColumnLetter(index / 26 - 1);
    }
  }

  /** Every non-empty column name is the name of exactly one index. */
  lemma {:induction false} LetterOfColumnNumber(s: string)
    requires |s| >= 1 && IsColumnName(s)
    ensures ColumnLetter(ColumnNumber(s) - 1) == s
    decreases |s|
  {
    if |s| == 1 {
      SingleLetterName(s);
    } else {
      LetterOfColumnNumber(s[..|s| - 1]);
      AppendLetterName(s);
    }
  }

  /** A one-letter name is the name of its letter's offset from 'A'. */
  lemma SingleLetterName(s: string)
    requires |s| == 1 && IsColumnName(s)
    ensures ColumnLetter(ColumnNumber(s) - 1) == s
  {
    var v := LetterOfChar(s[0]);
    assert s[..0] == [];
    assert ColumnNumber(s) - 1 == v;
    assert ColumnLetter(v) == [Uppercase[v]] == s;
  }

  /** If the name `s` without its last letter is the name of column `c - 1`,
      then `s` is the name of column `26 * c + v`, where `v` is the offset of
      its last letter, which is what `ColumnNumber` assigns it. */
  lemma AppendLetterName(s: string)
    requires |s| >= 2 && IsColumnName(s)
    requires ColumnLetter(ColumnNumber(s[..|s| - 1]) - 1) == s[..|s| - 1]
    ensures ColumnLetter(ColumnNumber(s) - 1) == s
  {
    var prev: nat := ColumnNumber(s[..|s| - 1]) - 1;
    var v := LetterOfChar(s[|s| - 1]);
    var n: nat := ColumnNumber(s) - 1;
    assert n == 26 * (prev + 1) + v;
    AppendLetterIndex(s, prev, v, n);
  }

  /** The letter part of `AppendLetterName`, with the column indices given. */
  lemma AppendLetterIndex(s: string, prev: nat, v: int, n: nat)
    requires |s| >= 1 && 0 <= v < 26 && n == 26 * (prev + 1) + v
    requires ColumnLetter(prev) == s[..|s| - 1] && Uppercase[v] == s[|s| - 1]
    ensures ColumnLetter(n) == s
  {
    ColumnLetterStep(prev + 1, v);
    DropLastAppend(s);
  }

  lemma DropLastAppend<T>(s: seq<T>)
    requires |s| >= 1
    ensures s[..|s| - 1] + [s[|s| - 1]] == s
  {
  }

  /** The name of column `26 * c + v` (with `c >= 1`) is the name of column
      `c - 1` followed by the letter of `v`. */
  lemma ColumnLetterStep(c: nat, v: int)
    requires c >= 1 && 0 <= v < 26
    ensures ColumnLetter(26 * c + v) == ColumnLetter(c - 1) + [Uppercase[v]]
  {
    DivMod26(c, v);
  }

  /** Each capital letter is the letter of its own offset from 'A'. */
  lemma LetterOfChar(c: char) returns (v: int)
    requires 'A' <= c <= 'Z'
    ensures v == (c as int) - ('A' as int)
    ensures 0 <= v < 26 && Uppercase[v] == c
  {
    UppercaseIsAlphabet();
    v := (c as int) - ('A' as int);
  }

  /** Base-26 digit split: `26 * c + v` has quotient `c` and remainder `v`. */
  lemma DivMod26(c: nat, v: int)
    requires 0 <= v < 26
    ensures (26 * c + v) / 26 == c && (26 * c + v) % 26 == v
  {
  }

  /** One or two letters exactly for the first 702 columns (A..ZZ). */
  lemma {:induction false} ColumnLetterLength(index: nat)
    ensures |ColumnLetter(index)| == 1 <==> index < 26
    ensures |ColumnLetter(index)| == 2 <==> 26 <= index < 702
  {
    if index >= 26 {
      var hi := index / 26 - 1;
      assert |ColumnLetter(index)| == |ColumnLetter(hi)| + 1;
      if hi >= 26 {
        assert |ColumnLetter(hi)| >= 2 by {
          assert |ColumnLetter(hi)| == |ColumnLetter(hi / 26 - 1)| + 1;
        }
      }
    }
  }

  /** The `while index > len(ascii_uppercase)` loop of `get_letter`: the
      index left over and the final `overflow` counter. */
  function ReduceIndex(index: nat, overflow: int): (r: (nat, int))
    ensures r.0 + 26 * (r.1 - overflow) == index
    ensures r.0 <= 26 && r.1 >= overflow
    ensures index > 26 ==> r.0 >= 1 && r.1 > overflow
    ensures index <= 26 ==> r == (index, overflow)
    decreases index
  {
    if index > |Uppercase| then ReduceIndex(index - |Uppercase|, overflow + 1) else (index, overflow)
  }

  /** `get_letter(index)` as written: `None` stands for the `IndexError`
      raised by `ascii_uppercase[overflow]` or `ascii_uppercase[index]`. */
  function GetLetter(index: nat): (r: Option<string>)
    ensures r.Some? <==> index < 26 || (index < 702 && index % 26 != 0)
    ensures r.Some? ==> r.value == ColumnLetter(index) && 1 <= |r.value| <= 2
  {
    UppercaseIsAlphabet();
    var (rest, overflow) := ReduceIndex(index, -1);
    if overflow != -1 && overflow >= |Uppercase| then None
    else if rest >= |Uppercase| then None
    else
      assert index > 26 ==> rest == index % 26 && overflow == index / 26 - 1;
      Some((if overflow != -1 then [Uppercase[overflow]] else []) + [Uppercase[rest]])
  }

  /** The discrepancy: the column after Z is index 26, which `get_letter`
      cannot name, while the intended conversion gives "AA"; likewise
      index 52 ("BA"). */
  lemma GetLetterMissesMultiplesOf26()
    ensures GetLetter(26).None? && ColumnLetter(26) == "AA"
    ensures GetLetter(52).None? && ColumnLetter(52) == "BA"
    ensures GetLetter(27) == Some("AB") && GetLetter(701) == Some("ZZ")
  {
    assert ColumnLetter(0) == "A" && ColumnLetter(1) == "B";
    assert ColumnLetter(25) == "Z";
    assert ColumnLetter(27) == ColumnLetter(0) + "B" == "AB";
    assert ColumnLetter(701) == ColumnLetter(25) + "Z" == "ZZ";
    assert GetLetter(27).Some? && GetLetter(701).Some?;
  }

  /** Wherever `get_letter` returns, it agrees with the intended conversion,
      so a model that uses `ColumnLetter` only differs from the source where
      the source raises. */
  lemma GetLetterAgrees(index: nat)
    requires GetLetter(index).Some?
    ensures GetLetter(index) == Some(ColumnLetter(index))
    ensures ColumnNumber(GetLetter(index).value) == index + 1
  {
    ColumnNumberOfLetter(index);
  }
}
