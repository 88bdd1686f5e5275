/** The pure part of the badge generator
    (events/eventsite/management/commands/generate_badges.py `handle`):
    registrations are ordered by "last_name first_name", those who asked for
    no badge are dropped, the rest fill nine slots per page, and every page
    is padded to all eighteen name fields. The printed names (`big_name`,
    `small_name`) and today's year come in as parameters. */
module Badges {
  import opened Wrappers
  import opened Strings
  import opened Models

  // ---------------------------------------------------------------------
  // Ordering

  /** Python's `<` on strings: lexicographic by code point, a proper prefix
      first. */
  predicate StrLess(a: string, b: string)
    decreases |a|
  {
    if |a| == 0 then |b| > 0
    else if |b| == 0 then false
    else if a[0] != b[0] then a[0] < b[0]
    else StrLess(a[1..], b[1..])
  }

  lemma {:induction false} StrLessIrreflexive(a: string)
    ensures !StrLess(a, a)
    decreases |a|
  {
    if |a| > 0 {
      StrLessIrreflexive(a[1..]);
    }
  }

  lemma {:induction false} StrLessTransitive(a: string, b: string, c: string)
    requires StrLess(a, b) && StrLess(b, c)
    ensures StrLess(a, c)
    decreases |a|
  {
    if |a| > 0 && |b| > 0 && |c| > 0 && a[0] == b[0] && b[0] == c[0] {
      StrLessTransitive(a[1..], b[1..], c[1..]);
    }
  }

  lemma {:induction false} StrLessTotal(a: string, b: string)
    requires a != b
    ensures StrLess(a, b) || StrLess(b, a)
    ensures !(StrLess(a, b) && StrLess(b, a))
    decreases |a|
  {
    if |a| > 0 && |b| > 0 && a[0] == b[0] {
      assert a == [a[0]] + a[1..] && b == [b[0]] + b[1..];
      StrLessTotal(a[1..], b[1..]);
    }
  }

  /** One item of `ordering_data`: the registration (standing for its id,
      which `Registration.objects.get` turns back into it) and its sort name
      `"%s %s" % (last_name, first_name)`. */
  datatype Entry = Entry(reg: Registration, name: string)

  function EntryOf(reg: Registration): (e: Entry)
    ensures e.reg == reg
  {
    Entry(reg, SpacedPair(Get(reg.data, "last_name"), Get(reg.data, "first_name")))
  }

  predicate NameLe(a: Entry, b: Entry) {
    a.name == b.name || StrLess(a.name, b.name)
  }

  predicate SortedByName(s: seq<Entry>) {
    forall a, b :: 0 <= a < b < |s| ==> NameLe(s[a], s[b])
  }

  /** Puts `x` in front of the first entry whose name is not smaller. */
  function Insert(x: Entry, s: seq<Entry>): (r: seq<Entry>)
    ensures multiset(r) == multiset(s) + multiset{x}
    ensures |r| == |s| + 1
    decreases |s|
  {
    if s == [] || !StrLess(s[0].name, x.name) then [x] + s
    else
      assert s == [s[0]] + s[1..];
      [s[0]] + Insert(x, s[1..])
  }

  /** `x` goes before every entry whose name is not smaller than its own. */
  lemma LeadsSorted(x: Entry, s: seq<Entry>)
    requires SortedByName(s)
    requires s != [] ==> NameLe(x, s[0])
    ensures SortedByName([x] + s)
  {
    var r := [x] + s;
    forall a, b | 0 <= a < b < |r| ensures NameLe(r[a], r[b]) {
      if a == 0 {
        assert r[b] == s[b - 1];
        if b > 1 && x.name != s[0].name && s[0].name != s[b - 1].name {
          StrLessTransitive(x.name, s[0].name, s[b - 1].name);
        }
      } else {
        assert r[a] == s[a - 1] && r[b] == s[b - 1];
      }
    }
  }

  lemma {:induction false} InsertSorted(x: Entry, s: seq<Entry>)
    requires SortedByName(s)
    ensures SortedByName(Insert(x, s))
    ensures Insert(x, s) != [] && (Insert(x, s)[0] == x || (s != [] && Insert(x, s)[0] == s[0]))
    decreases |s|
  {
    if s == [] || !StrLess(s[0].name, x.name) {
      if s != [] && s[0].name != x.name {
        StrLessTotal(s[0].name, x.name);
      }
      LeadsSorted(x, s);
    } else {
      assert SortedByName(s[1..]) by {
        forall a, b | 0 <= a < b < |s[1..]| ensures NameLe(s[1..][a], s[1..][b]) {
          assert s[1..][a] == s[a + 1] && s[1..][b] == s[b + 1];
        }
      }
      InsertSorted(x, s[1..]);
      var t := Insert(x, s[1..]);
      if t[0] == x {
        assert NameLe(s[0], x) by { assert StrLess(s[0].name, x.name); }
      } else {
        assert NameLe(s[0], s[1]);
      }
      LeadsSorted(s[0], t);
    }
  }

  /** `sorted(ordering_data.items(), key=itemgetter(1))`: a stable sort by
      name. */
  function SortByName(s: seq<Entry>): (r: seq<Entry>)
    ensures multiset(r) == multiset(s) && |r| == |s|
    decreases |s|
  {
    if s == [] then []
    else
      assert s == [s[0]] + s[1..];
      Insert(s[0], SortByName(s[1..]))
  }

  lemma {:induction false} SortByNameSorted(s: seq<Entry>)
    ensures SortedByName(SortByName(s))
    decreases |s|
  {
    if s != [] {
      SortByNameSorted(s[1..]);
      InsertSorted(s[0], SortByName(s[1..]));
    }
  }

  /** The entries with name `k`, in order. */
  function SameName(s: seq<Entry>, k: string): seq<Entry>
    decreases |s|
  {
    if s == [] then [] else (if s[0].name == k then [s[0]] else []) + SameName(s[1..], k)
  }

  /** An inserted entry passes only entries with strictly smaller names, so
      it lands in front of every entry that shares its name. */
  lemma {:induction false} InsertNamed(x: Entry, s: seq<Entry>, k: string)
    ensures SameName(Insert(x, s), k) == (if x.name == k then [x] else []) + SameName(s, k)
    decreases |s|
  {
    if s == [] || !StrLess(s[0].name, x.name) {
      assert ([x] + s)[1..] == s;
    } else {
      InsertNamed(x, s[1..], k);
      assert ([s[0]] + Insert(x, s[1..]))[1..] == Insert(x, s[1..]);
      if x.name == k && s[0].name == k {
        StrLessIrreflexive(k);
      }
    }
  }

  /** The sort is stable: the entries of any one name keep their order. */
  lemma {:induction false} SortIsStable(s: seq<Entry>, k: string)
    ensures SameName(SortByName(s), k) == SameName(s, k)
    decreases |s|
  {
    if s != [] {
      SortIsStable(s[1..], k);
      InsertNamed(s[0], SortByName(s[1..]), k);
    }
  }

  // ---------------------------------------------------------------------
  // Filling pages

  const OptOut: string := "nepřeji si mít žádnou visačku"

  /** Whoever left "display_on_card" empty or declined a badge gets none. */
  predicate NoBadge(reg: Registration) {
    Get(reg.data, "display_on_card") == Some("") || Get(reg.data, "display_on_card") == Some(OptOut)
  }

  /** The registrations that get a badge, in order. */
  function Placed(s: seq<Registration>): (r: seq<Registration>)
    ensures |r| <= |s|
    ensures forall x :: x in r ==> x in s && !NoBadge(x)
    decreases |s|
  {
    if s == [] then []
    else Placed(s[..|s| - 1]) + (if NoBadge(s[|s| - 1]) then [] else [s[|s| - 1]])
  }

  const Subtopic: string := "Wikimedia Česká republika"

  /** `"big_name_%s" % k` and `"small_name_%s" % k`. */
  function BigKey(k: nat): string { "big_name_" + NatToString(k) }
  function SmallKey(k: nat): string { "small_name_" + NatToString(k) }

  /** The keys every page starts with. */
  const HeaderKeys: set<string> := {"subtopic", "event", "year"}

  /** A slot key is none of the header keys, and different slots have
      different keys. */
  lemma SlotKeysDistinct(a: nat, b: nat)
    ensures BigKey(a) != SmallKey(b)
    ensures BigKey(a) !in HeaderKeys && SmallKey(a) !in HeaderKeys
    ensures a != b ==> BigKey(a) != BigKey(b) && SmallKey(a) != SmallKey(b)
  {
    assert BigKey(a)[0] == 'b' && SmallKey(b)[0] == 's';
    assert SmallKey(a)[1] == 'm' && "subtopic"[1] == 'u';
    assert BigKey(a)[9..] == NatToString(a) && BigKey(b)[9..] == NatToString(b);
    assert SmallKey(a)[11..] == NatToString(a) && SmallKey(b)[11..] == NatToString(b);
    if NatToString(a) == NatToString(b) {
      IntToStringInjective(a, b);
    }
  }

  /** A fresh page dictionary. */
  function PageHeader(eventName: string, year: nat): (r: map<string, string>)
    ensures r.Keys == HeaderKeys
  {
    map["subtopic" := Subtopic, "event" := eventName, "year" := NatToString(year)]
  }

  predicate HasHeader(page: map<string, string>, eventName: string, year: nat) {
    "subtopic" in page && page["subtopic"] == Subtopic
    && "event" in page && page["event"] == eventName
    && "year" in page && page["year"] == NatToString(year)
  }

  predicate HeadersOk(pages: seq<map<string, string>>, eventName: string, year: nat) {
    forall p :: 0 <= p < |pages| ==> HasHeader(pages[p], eventName, year)
  }

  /** Slot `k` of `page` shows the names of `r`. */
  predicate SlotHolds(page: map<string, string>, k: nat, r: Registration,
                      big: Registration -> string, small: Registration -> string) {
    BigKey(k) in page && page[BigKey(k)] == big(r) && SmallKey(k) in page && page[SmallKey(k)] == small(r)
  }

  /** Whether placement `9 * p + k - 1` sits in slot `k` of page `p`. */
  predicate SlotFilled(pages: seq<map<string, string>>, placed: seq<Registration>, p: nat, k: nat,
                       big: Registration -> string, small: Registration -> string) {
    1 <= k <= 9 && 9 * p + k <= |placed| ==> p < |pages| && SlotHolds(pages[p], k, placed[9 * p + k - 1], big, small)
  }

  /** The `n`-th placement sits on page `n / 9` in slot `n % 9 + 1`. */
  ghost predicate SlotsHold(pages: seq<map<string, string>>, placed: seq<Registration>,
                      big: Registration -> string, small: Registration -> string) {
    forall p: nat, k: nat :: SlotFilled(pages, placed, p, k, big, small)
  }

  /** `key` is a header key or the key of a slot of page `p` filled among
      the first `filled` placements. */
  ghost predicate PageKey(key: string, p: nat, filled: nat) {
    key in HeaderKeys || exists k :: 1 <= k <= 9 && 9 * p + k <= filled && (key == BigKey(k) || key == SmallKey(k))
  }

  ghost predicate OnlyFilledSlots(pages: seq<map<string, string>>, filled: nat) {
    forall p, key :: 0 <= p < |pages| && key in pages[p] ==> PageKey(key, p, filled)
  }

  /** What the fill loop keeps: every page has its header, every placement
      sits in its slot, and no page has any other key. */
  ghost predicate PagesOk(pages: seq<map<string, string>>, placed: seq<Registration>, eventName: string, year: nat,
                          big: Registration -> string, small: Registration -> string) {
    HeadersOk(pages, eventName, year) && SlotsHold(pages, placed, big, small) && OnlyFilledSlots(pages, |placed|)
  }

  /** Opening a page keeps what the pages hold. */
  lemma OpenPage(pages: seq<map<string, string>>, placed: seq<Registration>, eventName: string, year: nat,
                 big: Registration -> string, small: Registration -> string)
    requires PagesOk(pages, placed, eventName, year, big, small)
    ensures PagesOk(pages + [PageHeader(eventName, year)], placed, eventName, year, big, small)
  {
    var pages' := pages + [PageHeader(eventName, year)];
    forall p: nat, k: nat ensures SlotFilled(pages', placed, p, k, big, small) {
      assert SlotFilled(pages, placed, p, k, big, small);
      if p < |pages| {
        assert pages'[p] == pages[p];
      }
    }
    forall p, key | 0 <= p < |pages'| && key in pages'[p] ensures PageKey(key, p, |placed|) {
      if p < |pages| {
        assert pages'[p] == pages[p];
      }
    }
  }

  /** Filling slot `i + 1` of the current page with the next placement. */
  lemma FillSlot(pages: seq<map<string, string>>, placed: seq<Registration>, r: Registration, page: nat, i: nat,
                 eventName: string, year: nat, big: Registration -> string, small: Registration -> string)
    requires i < 9 && |placed| == 9 * page + i && page < |pages|
    requires PagesOk(pages, placed, eventName, year, big, small)
    ensures PagesOk(pages[page := pages[page][BigKey(i + 1) := big(r)][SmallKey(i + 1) := small(r)]],
                    placed + [r], eventName, year, big, small)
  {
    var pages' := pages[page := pages[page][BigKey(i + 1) := big(r)][SmallKey(i + 1) := small(r)]];
    var placed' := placed + [r];
    SlotKeysDistinct(i + 1, i + 1);
    forall p | 0 <= p < |pages'| ensures HasHeader(pages'[p], eventName, year) {
      assert HasHeader(pages[p], eventName, year);
    }
    forall p: nat, k: nat ensures SlotFilled(pages', placed', p, k, big, small) {
      if 1 <= k <= 9 && 9 * p + k <= |placed'| {
        if p == page && k == i + 1 {
          assert placed'[9 * p + k - 1] == r;
        } else {
          assert p < page || (p == page && k < i + 1);
          assert SlotFilled(pages, placed, p, k, big, small);
          assert placed'[9 * p + k - 1] == placed[9 * p + k - 1];
          SlotKeysDistinct(k, i + 1);
          SlotKeysDistinct(i + 1, k);
        }
      }
    }
    forall p, key | 0 <= p < |pages'| && key in pages'[p] ensures PageKey(key, p, |placed'|) {
      if p == page && (key == BigKey(i + 1) || key == SmallKey(i + 1)) {
        assert 9 * p + (i + 1) <= |placed'|;
      } else {
        assert key in pages[p] && PageKey(key, p, |placed|);
      }
    }
  }

  /** The slot counter never exceeds 9, so `i % 9 == 0` tests for the first
      or the last slot. */
  lemma NinthSlot(i: nat)
    requires i <= 9
    ensures i % 9 == 0 <==> i == 0 || i == 9
  {
  }

  /** The body of the fill loop for a registration that gets a badge: its
      names go into slot `i + 1` of the current page, and the ninth slot
      moves on to the next page. */
  method PlaceBadge(pages: seq<map<string, string>>, page: nat, i: nat, r: Registration, ghost placed: seq<Registration>,
                    eventName: string, year: nat, big: Registration -> string, small: Registration -> string)
    returns (pages': seq<map<string, string>>, page': nat, i': nat)
    requires i < 9 && |placed| == 9 * page + i && page < |pages|
    requires PagesOk(pages, placed, eventName, year, big, small)
    ensures PagesOk(pages', placed + [r], eventName, year, big, small) && |pages'| == |pages|
    ensures i' == i + 1 && page' <= |pages'|
    ensures |placed| + 1 == 9 * page' + (if i' == 9 then 0 else i')
    ensures i' != 9 ==> page' < |pages'|
  {
    FillSlot(pages, placed, r, page, i, eventName, year, big, small);
    pages' := pages[page := pages[page][BigKey(i + 1) := big(r)][SmallKey(i + 1) := small(r)]];
    i' := i + 1;
    page' := page;
    NinthSlot(i');
    if i' % 9 == 0 && i' != 0 {
      page' := page + 1;
    }
  }

  /** One iteration of the fill loop as written, on the number of pages
      opened and the slot counter: the page test runs before the opt-out
      test. */
  function FillStep(st: (nat, nat), reg: Registration): (r: (nat, nat))
    requires st.1 <= 9
    ensures r.1 <= 9
    ensures r.0 == st.0 + (if st.1 == 0 || st.1 == 9 then 1 else 0)
    ensures r.1 == (if st.1 == 9 then 0 else st.1) + (if NoBadge(reg) then 0 else 1)
  {
    NinthSlot(st.1);
    var count := if st.1 % 9 == 0 then st.0 + 1 else st.0;
    var i := if st.1 % 9 == 0 then 0 else st.1;
    (count, if NoBadge(reg) then i else i + 1)
  }

  /** Pages opened and the slot counter once the fill loop has run over `s`. */
  function FillState(s: seq<Registration>): (r: (nat, nat))
    ensures r.1 <= 9
    decreases |s|
  {
    if s == [] then (0, 0) else FillStep(FillState(s[..|s| - 1]), s[|s| - 1])
  }

  /** The fill loop of `handle` over the sorted registrations, as written.
      The `n`-th registration with a badge lands on page `n / 9`, slot
      `n % 9 + 1`. A page is opened whenever the slot counter is at 0 at
      the top of an iteration, even when that registration is then skipped,
      so pages can outnumber the filled ones; those keep only the header. */
  method FillPages(sorted: seq<Registration>, eventName: string, year: nat,
                   big: Registration -> string, small: Registration -> string)
    returns (pages: seq<map<string, string>>)
    ensures |Placed(sorted)| <= 9 * |pages| && |pages| <= |sorted|
    ensures |pages| == FillState(sorted).0
    ensures HeadersOk(pages, eventName, year)
    ensures SlotsHold(pages, Placed(sorted), big, small)
    ensures OnlyFilledSlots(pages, |Placed(sorted)|)
  {
    var i := 0;
    var page := 0;
    pages := [];
    ghost var placed: seq<Registration> := [];
    for idx := 0 to |sorted|
      invariant placed == Placed(sorted[..idx])
      invariant 0 <= i <= 9 && |placed| == 9 * page + (if i == 9 then 0 else i)
      invariant page <= |pages| <= idx
      invariant i != 0 && i != 9 ==> page < |pages|
      invariant (|pages|, i) == FillState(sorted[..idx])
      invariant PagesOk(pages, placed, eventName, year, big, small)
    {
      PlacedStep(sorted, idx);
      pages, page, i := FillOne(pages, page, i, sorted[idx], placed, eventName, year, big, small);
      if !NoBadge(sorted[idx]) {
        placed := placed + [sorted[idx]];
      }
    }
    assert sorted[..|sorted|] == sorted;
  }

  /** One iteration of the fill loop as written: open a page when the slot
      counter is at 0 (or 9), then skip an opt-out or place the badge. */
  method FillOne(pages: seq<map<string, string>>, page: nat, i: nat, r: Registration, ghost placed: seq<Registration>,
                 eventName: string, year: nat, big: Registration -> string, small: Registration -> string)
    returns (pages': seq<map<string, string>>, page': nat, i': nat)
    requires i <= 9 && |placed| == 9 * page + (if i == 9 then 0 else i)
    requires page <= |pages| && (i != 0 && i != 9 ==> page < |pages|)
    requires PagesOk(pages, placed, eventName, year, big, small)
    ensures (|pages'|, i') == FillStep((|pages|, i), r)
    ensures var placed' := if NoBadge(r) then placed else placed + [r];
      |placed'| == 9 * page' + (if i' == 9 then 0 else i')
      && page' <= |pages'| && (i' != 0 && i' != 9 ==> page' < |pages'|)
      && PagesOk(pages', placed', eventName, year, big, small)
  {
    pages', page', i' := pages, page, i;
    NinthSlot(i);
    if i % 9 == 0 {
      i' := 0;
      OpenPage(pages, placed, eventName, year, big, small);
      pages' := pages + [PageHeader(eventName, year)];
    }
    if !NoBadge(r) {
      pages', page', i' := PlaceBadge(pages', page', i', r, placed, eventName, year, big, small);
    }
  }

  lemma PlacedStep(s: seq<Registration>, n: nat)
    requires n < |s|
    ensures NoBadge(s[n]) ==> Placed(s[..n + 1]) == Placed(s[..n])
    ensures !NoBadge(s[n]) ==> Placed(s[..n + 1]) == Placed(s[..n]) + [s[n]]
    ensures FillState(s[..n + 1]) == FillStep(FillState(s[..n]), s[n])
  {
    assert s[..n + 1][..n] == s[..n];
  }

  /** Two registrations that declined a badge ahead of one that did not:
      the loop as written opens a page for each of the three, and the two
      pages beyond the first keep only the header and are printed blank. */
  lemma BlankPagesAsWritten()
    ensures var d := Registration(1, 2, map["display_on_card" := ""], false, false, []);
      var n := Registration(2, 3, map["display_on_card" := "Jana"], false, false, []);
      Placed([d, d, n]) == [n] && FillState([d, d, n]).0 == 3
  {
    var d := Registration(1, 2, map["display_on_card" := ""], false, false, []);
    var n := Registration(2, 3, map["display_on_card" := "Jana"], false, false, []);
    assert NoBadge(d) && !NoBadge(n);
    var s := [d, d, n];
    assert s[..2][..1] == [d] && s[..2] == [d, d] && s[..1] == [d] && s[..0] == [];
    assert FillState([d]) == (1, 0);
    assert FillState([d, d]) == (2, 0);
    assert Placed([d, d]) == [];
  }

  /** The fill loop with the opt-out test ahead of the page test, so that a
      page is opened only for a badge that goes on it: the pages are exactly
      as many as the placements need. */
  method FillPagesIntended(sorted: seq<Registration>, eventName: string, year: nat,
                           big: Registration -> string, small: Registration -> string)
    returns (pages: seq<map<string, string>>)
    ensures |Placed(sorted)| <= 9 * |pages| < |Placed(sorted)| + 9
    ensures HeadersOk(pages, eventName, year)
    ensures SlotsHold(pages, Placed(sorted), big, small)
    ensures OnlyFilledSlots(pages, |Placed(sorted)|)
  {
    var i := 0;
    var page := 0;
    pages := [];
    ghost var placed: seq<Registration> := [];
    for idx := 0 to |sorted|
      invariant placed == Placed(sorted[..idx])
      invariant 0 <= i <= 9 && |placed| == 9 * page + (if i == 9 then 0 else i)
      invariant |pages| == (if i == 0 || i == 9 then page else page + 1)
      invariant PagesOk(pages, placed, eventName, year, big, small)
    {
      PlacedStep(sorted, idx);
      pages, page, i := FillOneIntended(pages, page, i, sorted[idx], placed, eventName, year, big, small);
      if !NoBadge(sorted[idx]) {
        placed := placed + [sorted[idx]];
      }
    }
    assert sorted[..|sorted|] == sorted;
  }

  /** The corrected iteration: an opt-out is skipped first, and a page is
      opened only for a badge, when the previous page is full or there is
      none. */
  method FillOneIntended(pages: seq<map<string, string>>, page: nat, i: nat, r: Registration,
                         ghost placed: seq<Registration>, eventName: string, year: nat,
                         big: Registration -> string, small: Registration -> string)
    returns (pages': seq<map<string, string>>, page': nat, i': nat)
    requires i <= 9 && |placed| == 9 * page + (if i == 9 then 0 else i)
    requires |pages| == (if i == 0 || i == 9 then page else page + 1)
    requires PagesOk(pages, placed, eventName, year, big, small)
    ensures var placed' := if NoBadge(r) then placed else placed + [r];
      i' <= 9 && |placed'| == 9 * page' + (if i' == 9 then 0 else i')
      && |pages'| == (if i' == 0 || i' == 9 then page' else page' + 1)
      && PagesOk(pages', placed', eventName, year, big, small)
  {
    pages', page', i' := pages, page, i;
    if NoBadge(r) {
      return;
    }
    NinthSlot(i);
    if i % 9 == 0 {
      i' := 0;
      OpenPage(pages, placed, eventName, year, big, small);
      pages' := pages + [PageHeader(eventName, year)];
    }
    pages', page', i' := PlaceBadge(pages', page', i', r, placed, eventName, year, big, small);
  }

  /** The eighteen template fields of a page. */
  function NameKeys(): (r: set<string>)
    ensures forall k :: 1 <= k <= 9 ==> BigKey(k) in r && SmallKey(k) in r
    ensures forall key :: key in r ==> exists k :: 1 <= k <= 9 && (key == BigKey(k) || key == SmallKey(k))
  {
    (set k | 1 <= k <= 9 :: BigKey(k)) + (set k | 1 <= k <= 9 :: SmallKey(k))
  }

  /** The padding loop: every name field a page lacks is set to a single
      space; filled fields keep their names. */
  function Pad(page: map<string, string>): (r: map<string, string>)
    ensures r.Keys == page.Keys + NameKeys()
    ensures forall key :: key in page ==> r[key] == page[key]
    ensures forall key :: key in NameKeys() && key !in page ==> r[key] == " "
  {
    page + map key | key in NameKeys() && key !in page :: " "
  }

  /** The registrations of a list of entries, in order. */
  function Regs(s: seq<Entry>): (r: seq<Registration>)
    ensures |r| == |s|
    decreases |s|
  {
    if s == [] then [] else [s[0].reg] + Regs(s[1..])
  }

  /** Each registration keyed by its ordering name, in order. */
  function Entries(regs: seq<Registration>): (r: seq<Entry>)
    ensures Regs(r) == regs
    decreases |regs|
  {
    if regs == [] then []
    else
      var r := [EntryOf(regs[0])] + Entries(regs[1..]);
      assert r[1..] == Entries(regs[1..]);
      r
  }

  /** Inserting an entry adds its registration and nothing else. */
  lemma {:induction false} RegsInsert(x: Entry, s: seq<Entry>)
    ensures multiset(Regs(Insert(x, s))) == multiset(Regs(s)) + multiset{x.reg}
    decreases |s|
  {
    if s == [] || !StrLess(s[0].name, x.name) {
      assert ([x] + s)[1..] == s;
    } else {
      RegsInsert(x, s[1..]);
      assert ([s[0]] + Insert(x, s[1..]))[1..] == Insert(x, s[1..]);
    }
  }

  /** Sorting keeps the registrations, counted with multiplicity. */
  lemma {:induction false} RegsSort(s: seq<Entry>)
    ensures multiset(Regs(SortByName(s))) == multiset(Regs(s))
    decreases |s|
  {
    if s != [] {
      RegsSort(s[1..]);
      RegsInsert(s[0], SortByName(s[1..]));
    }
  }

  /** `ordering_data` sorted by name, as registrations: every registration,
      once. */
  function Ordered(regs: seq<Registration>): (r: seq<Registration>)
    ensures |r| == |regs|
    ensures multiset(r) == multiset(regs)
  {
    var entries := Entries(regs);
    RegsSort(entries);
    Regs(SortByName(entries))
  }

  /** A padded page: the header and all eighteen name fields, nothing else;
      the slots of placements `9 * p .. 9 * p + 8` show their names, the
      others a blank. */
  lemma PaddedPage(pages: seq<map<string, string>>, placed: seq<Registration>, p: nat, eventName: string,
                   year: nat, big: Registration -> string, small: Registration -> string)
    requires p < |pages|
    requires HeadersOk(pages, eventName, year) && OnlyFilledSlots(pages, |placed|)
    ensures HasHeader(Pad(pages[p]), eventName, year)
    ensures Pad(pages[p]).Keys == HeaderKeys + NameKeys()
    ensures forall k :: 1 <= k <= 9 && |placed| < 9 * p + k ==>
      Pad(pages[p])[BigKey(k)] == " " && Pad(pages[p])[SmallKey(k)] == " "
  {
    assert HasHeader(pages[p], eventName, year);
    SlotKeysDistinct(0, 0);
    forall key | key in pages[p] ensures key in HeaderKeys + NameKeys() {
      assert PageKey(key, p, |placed|);
    }
    forall k | 1 <= k <= 9 && |placed| < 9 * p + k
      ensures BigKey(k) !in pages[p] && SmallKey(k) !in pages[p]
    {
      if BigKey(k) in pages[p] || SmallKey(k) in pages[p] {
        var key := if BigKey(k) in pages[p] then BigKey(k) else SmallKey(k);
        assert PageKey(key, p, |placed|);
        SlotKeysDistinct(k, k);
        var j :| 1 <= j <= 9 && 9 * p + j <= |placed| && (key == BigKey(j) || key == SmallKey(j));
        SlotKeysDistinct(j, k);
        SlotKeysDistinct(k, j);
      }
    }
  }

  /** The padding loop over every page: each page keeps its header and its
      slots, gains all eighteen name fields, and shows a blank in every slot
      past the placements. */
  method PadPages(filled: seq<map<string, string>>, ghost placed: seq<Registration>, eventName: string, year: nat,
                  big: Registration -> string, small: Registration -> string)
    returns (pages: seq<map<string, string>>)
    requires HeadersOk(filled, eventName, year) && SlotsHold(filled, placed, big, small)
    requires OnlyFilledSlots(filled, |placed|)
    ensures |pages| == |filled|
    ensures SlotsHold(pages, placed, big, small)
    ensures forall p :: 0 <= p < |pages| ==>
      HasHeader(pages[p], eventName, year) && pages[p].Keys == HeaderKeys + NameKeys()
    ensures forall p, k :: 0 <= p < |pages| && 1 <= k <= 9 && |placed| < 9 * p + k ==>
      BigKey(k) in pages[p] && pages[p][BigKey(k)] == " "
      && SmallKey(k) in pages[p] && pages[p][SmallKey(k)] == " "
  {
    pages := seq(|filled|, p requires 0 <= p < |filled| => Pad(filled[p]));
    forall p | 0 <= p < |pages|
      ensures HasHeader(pages[p], eventName, year) && pages[p].Keys == HeaderKeys + NameKeys()
      ensures forall k :: 1 <= k <= 9 && |placed| < 9 * p + k ==>
        BigKey(k) in pages[p] && pages[p][BigKey(k)] == " "
        && SmallKey(k) in pages[p] && pages[p][SmallKey(k)] == " "
    {
      PaddedPage(filled, placed, p, eventName, year, big, small);
    }
    forall p: nat, k: nat ensures SlotFilled(pages, placed, p, k, big, small) {
      assert SlotFilled(filled, placed, p, k, big, small);
    }
  }

  /** `handle` up to the conversion calls, as written: the page dictionaries
      sent to the templating service, one per page the fill loop opened --
      blank pages from opt-outs included -- each with its header, its badges
      in their slots and a blank in every other name field. */
  method BadgePages(regs: seq<Registration>, eventName: string, year: nat,
                    big: Registration -> string, small: Registration -> string)
    returns (pages: seq<map<string, string>>)
    ensures var placed := Placed(Ordered(regs));
      |placed| <= 9 * |pages| && |pages| <= |regs|
      && |pages| == FillState(Ordered(regs)).0
      && SlotsHold(pages, placed, big, small)
      && (forall p :: 0 <= p < |pages| ==>
            HasHeader(pages[p], eventName, year) && pages[p].Keys == HeaderKeys + NameKeys())
      && (forall p, k :: 0 <= p < |pages| && 1 <= k <= 9 && |placed| < 9 * p + k ==>
            BigKey(k) in pages[p] && pages[p][BigKey(k)] == " "
            && SmallKey(k) in pages[p] && pages[p][SmallKey(k)] == " ")
  {
    var sorted := Ordered(regs);
    var filled := FillPages(sorted, eventName, year, big, small);
    pages := PadPages(filled, Placed(sorted), eventName, year, big, small);
  }

  /** `handle` with the corrected fill loop: the same pages, but no page is
      sent that the badges do not need. */
  method BadgePagesIntended(regs: seq<Registration>, eventName: string, year: nat,
                            big: Registration -> string, small: Registration -> string)
    returns (pages: seq<map<string, string>>)
    ensures var placed := Placed(Ordered(regs));
      |placed| <= 9 * |pages| < |placed| + 9
      && SlotsHold(pages, placed, big, small)
      && (forall p :: 0 <= p < |pages| ==>
            HasHeader(pages[p], eventName, year) && pages[p].Keys == HeaderKeys + NameKeys())
      && (forall p, k :: 0 <= p < |pages| && 1 <= k <= 9 && |placed| < 9 * p + k ==>
            BigKey(k) in pages[p] && pages[p][BigKey(k)] == " "
            && SmallKey(k) in pages[p] && pages[p][SmallKey(k)] == " ")
  {
    var sorted := Ordered(regs);
    var filled := FillPagesIntended(sorted, eventName, year, big, small);
    pages := PadPages(filled, Placed(sorted), eventName, year, big, small);
  }

  /** Nobody who declined a badge is printed, and everybody else is, once:
      the placed registrations are exactly those without an opt-out, in
      the sorted order. */
  lemma {:induction false} PlacedExactlyBadgeHolders(s: seq<Registration>)
    ensures multiset(Placed(s)) == multiset(FilterBadge(s))
    ensures Placed(s) == FilterBadge(s)
    decreases |s|
  {
    if s != [] {
      PlacedExactlyBadgeHolders(s[..|s| - 1]);
      FilterBadgeSnoc(s[..|s| - 1], s[|s| - 1]);
      assert s == s[..|s| - 1] + [s[|s| - 1]];
    }
  }

  /** Reference filter, written front to back. */
  function FilterBadge(s: seq<Registration>): seq<Registration>
    decreases |s|
  {
    if s == [] then [] else (if NoBadge(s[0]) then [] else [s[0]]) + FilterBadge(s[1..])
  }

  lemma {:induction false} FilterBadgeSnoc(s: seq<Registration>, x: Registration)
    ensures FilterBadge(s + [x]) == FilterBadge(s) + (if NoBadge(x) then [] else [x])
    decreases |s|
  {
    if s == [] {
      assert [x][1..] == [];
    } else {
      assert (s + [x])[1..] == s[1..] + [x];
      FilterBadgeSnoc(s[1..], x);
    }
  }
}
