/**
 * The view handler: exact-match filters, the free-text job-title search and
 * the dropdown lists (server.js, lines 90-133).
 */
module RowFilter {
  import opened Wrappers
  import opened Seqs
  import opened Text
  import opened JsValues
  import opened SheetExtractor
  import opened ParsedData

  /** The query parameters the view reads; `None` is an absent parameter. */
  datatype Query = Query(
    finalStatus: Option<string>,
    country: Option<string>,
    qaStatus: Option<string>,
    jobTitles: Option<string>)

  /** What the view renders: the table, the dropdown lists and the echoed criteria. */
  datatype Page = Page(
    headers: seq<string>,
    rows: seq<Record>,
    finalStatusList: seq<Value>,
    countryList: seq<Value>,
    qaStatusList: seq<Value>,
    selected: Query)

  /** `r[field]`: a missing key reads as `undefined`. */
  function FieldOf(r: Record, field: string): Value {
    if field in r then r[field] else Undefined
  }

  // ---------------------------------------------------------------- exact match

  /** A criterion filters only when it is present, non-empty and not `'All'`. */
  predicate Selects(c: Option<string>) {
    c.Some? && c.value != "" && c.value != "All"
  }

  /** `r => r[field] === value`. */
  function FieldIs(field: string, value: string): Record -> bool {
    r => FieldOf(r, field) == Str(value)
  }

  /** `rows.filter(r => r[field] === value)`. */
  function ExactFilter(rows: seq<Record>, field: string, value: string): seq<Record> {
    Filter(rows, FieldIs(field, value))
  }

  /** The rows kept by an exact-match filter are, in order, those whose field is exactly the string `value`. */
  lemma ExactFilterSpec(rows: seq<Record>, field: string, value: string)
    ensures IsSubsequence(ExactFilter(rows, field, value), rows)
    ensures forall r :: r in ExactFilter(rows, field, value) <==> r in rows && FieldOf(r, field) == Str(value)
    ensures forall r ::
      multiset(ExactFilter(rows, field, value))[r] == if FieldOf(r, field) == Str(value) then multiset(rows)[r] else 0
  {
    FilterIsSubsequence(rows, FieldIs(field, value));
    forall r
      ensures r in ExactFilter(rows, field, value) <==> r in rows && FieldOf(r, field) == Str(value)
      ensures
        multiset(ExactFilter(rows, field, value))[r] == if FieldOf(r, field) == Str(value) then multiset(rows)[r] else 0
    {
      FilterMembership(rows, FieldIs(field, value), r);
      FilterMultiset(rows, FieldIs(field, value), r);
    }
  }

  /** Two exact-match filters give the same rows in either order. */
  lemma ExactFiltersCommute(rows: seq<Record>, f1: string, v1: string, f2: string, v2: string)
    ensures ExactFilter(ExactFilter(rows, f1, v1), f2, v2) == ExactFilter(ExactFilter(rows, f2, v2), f1, v1)
  {
    FilterCommutes(rows, FieldIs(f1, v1), FieldIs(f2, v2));
  }

  /** One `if (c && c !== 'All')` step of the view handler. */
  function Narrow(rows: seq<Record>, field: string, c: Option<string>): seq<Record> {
    if Selects(c) then ExactFilter(rows, field, c.value) else rows
  }

  // ---------------------------------------------------------------- text search

  /** A search term: non-empty, trimmed, lower case, free of separators. */
  predicate IsTerm(t: string) {
    t != "" && IsTrimmed(t) && HasNoUpper(t) && HasNoSeparator(t)
  }

  /** `.map(t => t.trim().toLowerCase()).filter(Boolean)`. */
  function CleanTerms(pieces: seq<string>): seq<string> {
    if pieces == [] then []
    else
      var t := Lower(Trim(pieces[0]));
      (if t == "" then [] else [t]) + CleanTerms(pieces[1..])
  }

  /** Pieces free of separators clean up into search terms. */
  lemma {:induction false} CleanTermsAreTerms(pieces: seq<string>)
    requires forall k :: 0 <= k < |pieces| ==> HasNoSeparator(pieces[k])
    ensures forall k :: 0 <= k < |CleanTerms(pieces)| ==> IsTerm(CleanTerms(pieces)[k])
  {
    if pieces != [] {
      CleanTermsAreTerms(pieces[1..]);
      TrimLowerIsTerm(pieces[0]);
    }
  }

  lemma TrimLowerIsTerm(piece: string)
    requires HasNoSeparator(piece)
    ensures var t := Lower(Trim(piece)); t == "" || IsTerm(t)
  {
    var m := Trim(piece);
    TrimKeepsNoSeparator(piece);
    LowerKeepsTerm(m);
  }

  lemma TrimKeepsNoSeparator(s: string)
    requires HasNoSeparator(s)
    ensures HasNoSeparator(Trim(s))
  {
    var t := TrimStart(s);
    assert t == s[|s| - |t|..];
    assert Trim(s) == TrimEnd(t);
  }

  lemma LowerKeepsTerm(m: string)
    requires IsTrimmed(m) && HasNoSeparator(m)
    ensures Lower(m) == "" || IsTerm(Lower(m))
  {
    var l := Lower(m);
    LowerAt(m);
    forall k | 0 <= k < |m|
      ensures !IsSeparatorChar(l[k]) && (IsSpace(l[k]) <==> IsSpace(m[k]))
    {
      assert l[k] == LowerChar(m[k]);
      assert m[k] in m;
    }
  }

  /** The search terms of the free-text input (server.js, lines 108-111). */
  function Terms(input: string): seq<string> {
    CleanTerms(Split(input))
  }

  /** Every term is non-empty, trimmed, lower case and free of separators. */
  lemma TermsAreTerms(input: string)
    ensures forall k :: 0 <= k < |Terms(input)| ==> IsTerm(Terms(input)[k])
  {
    SplitPiecesHaveNoSeparator(input);
    CleanTermsAreTerms(Split(input));
  }

  /** Clean terms pass through trimming and lower-casing untouched. */
  lemma {:induction false} CleanTermsOfTerms(terms: seq<string>)
    requires forall k :: 0 <= k < |terms| ==> IsTerm(terms[k])
    ensures CleanTerms(terms) == terms
  {
    if terms != [] {
      var t := terms[0];
      assert IsTerm(t);
      TrimTrimmed(t);
      LowerNoUpper(t);
      assert Lower(Trim(t)) == t;
      CleanTermsOfTerms(terms[1..]);
      assert CleanTerms(terms) == [t] + CleanTerms(terms[1..]);
    }
  }

  /** Typing a list of terms back separated by commas yields that list. */
  lemma TermsOfJoined(terms: seq<string>)
    requires forall k :: 0 <= k < |terms| ==> IsTerm(terms[k])
    ensures Terms(Join(terms, ",")) == terms
  {
    if terms == [] {
      assert Split("") == [""];
      assert Trim("") == "";
    } else {
      SplitJoin(terms);
      CleanTermsOfTerms(terms);
    }
  }

  /** The search input filters only when present and not all white space. */
  predicate SearchRequested(input: Option<string>) {
    input.Some? && input.value != "" && Trim(input.value) != ""
  }

  lemma SearchRequestedIffNotBlank(input: string)
    ensures SearchRequested(Some(input)) <==> !IsBlank(input)
  {
    TrimEmptyIffBlank(input);
  }

  /** `terms.some(t => hay.includes(t))`. */
  predicate SomeTermIn(hay: string, terms: seq<string>) {
    terms != [] && (Contains(hay, terms[0]) || SomeTermIn(hay, terms[1..]))
  }

  lemma {:induction false} SomeTermInIffExists(hay: string, terms: seq<string>)
    ensures SomeTermIn(hay, terms) <==> exists k :: 0 <= k < |terms| && Contains(hay, terms[k])
  {
    if terms != [] {
      SomeTermInIffExists(hay, terms[1..]);
      if !Contains(hay, terms[0]) && exists k :: 0 <= k < |terms| && Contains(hay, terms[k]) {
        var k :| 0 <= k < |terms| && Contains(hay, terms[k]);
        assert terms[1..][k - 1] == terms[k];
      }
    }
  }

  /** The lower-cased job title of a row, as `toString().toLowerCase()` gives it. */
  function LowerTitle(r: Record): string {
    Lower(JsString(FieldOf(r, "Job_Title")))
  }

  /** The row has a truthy job title whose lower-cased form contains some term. */
  predicate TitleMatches(r: Record, terms: seq<string>) {
    Truthy(FieldOf(r, "Job_Title")) && SomeTermIn(LowerTitle(r), terms)
  }

  /** OR across terms: a row matches exactly when its lower-cased title contains at least one term. */
  lemma TitleMatchesIffSomeTerm(r: Record, terms: seq<string>)
    ensures TitleMatches(r, terms) <==>
      Truthy(FieldOf(r, "Job_Title")) && exists k :: 0 <= k < |terms| && Contains(LowerTitle(r), terms[k])
  {
    SomeTermInIffExists(LowerTitle(r), terms);
  }

  function TitleMatchesAny(terms: seq<string>): Record -> bool {
    r => TitleMatches(r, terms)
  }

  /** The job-title filter (server.js, lines 113-118). */
  function TextFilter(rows: seq<Record>, terms: seq<string>): seq<Record> {
    Filter(rows, TitleMatchesAny(terms))
  }

  /** The `if (Job_Titles && Job_Titles.trim() !== '')` step of the view handler. */
  function Search(rows: seq<Record>, input: Option<string>): seq<Record> {
    if SearchRequested(input) then TextFilter(rows, Terms(input.value)) else rows
  }

  /** A non-blank input that yields no terms removes every row. */
  lemma NoTermsRemovesAll(rows: seq<Record>, input: string)
    requires SearchRequested(Some(input)) && Terms(input) == []
    ensures Search(rows, Some(input)) == []
  {
    assert Search(rows, Some(input)) == Filter(rows, TitleMatchesAny([]));
    forall i | 0 <= i < |rows|
      ensures !TitleMatchesAny([])(rows[i])
    {
    }
    FilterRejectsAll(rows, TitleMatchesAny([]));
  }

  /** The input ", ," is not blank but has no terms. */
  lemma CommasOnlyHasNoTerms()
    ensures SearchRequested(Some(", ,")) && Terms(", ,") == []
  {
    assert Split(", ,") == ["", " ", ""] by {
      assert ","[1..] == "";
      assert Split(",") == ["", ""];
      assert " ,"[1..] == ",";
      assert [' '] + "" == " ";
      assert Split(" ,") == [" ", ""];
      assert ", ,"[1..] == " ,";
    }
    assert CleanTerms(["", " ", ""]) == [] by {
      assert " "[1..] == "";
      assert TrimStart(" ") == "";
      assert Trim(" ") == "";
      assert Trim("") == "";
    }
    assert Trim(", ,") != "" by {
      assert TrimStart(", ,") == ", ,";
    }
  }

  // ---------------------------------------------------------------- pipeline

  /** The rows the view shows for query `q`: the three exact filters, then the search. */
  function ViewRows(rows: seq<Record>, q: Query): seq<Record> {
    var a := Narrow(rows, "Final_Status", q.finalStatus);
    var b := Narrow(a, "Country", q.country);
    var c := Narrow(b, "QA_Status", q.qaStatus);
    Search(c, q.jobTitles)
  }

  /** A row meets every criterion of `q` that filters. */
  predicate Accepts(q: Query, r: Record) {
    MeetsExact(r, "Final_Status", q.finalStatus) &&
    MeetsExact(r, "Country", q.country) &&
    MeetsExact(r, "QA_Status", q.qaStatus) &&
    MeetsSearch(r, q.jobTitles)
  }

  /** An exact criterion that filters holds of `r`. */
  predicate MeetsExact(r: Record, field: string, c: Option<string>) {
    Selects(c) ==> FieldOf(r, field) == Str(c.value)
  }

  /** A search that filters holds of `r`. */
  predicate MeetsSearch(r: Record, input: Option<string>) {
    SearchRequested(input) ==> TitleMatches(r, Terms(input.value))
  }

  function Constraint(field: string, c: Option<string>): Record -> bool {
    r => MeetsExact(r, field, c)
  }

  function SearchConstraint(input: Option<string>): Record -> bool {
    r => MeetsSearch(r, input)
  }

  lemma NarrowIsFilter(rows: seq<Record>, field: string, c: Option<string>)
    ensures Narrow(rows, field, c) == Filter(rows, Constraint(field, c))
  {
    if Selects(c) {
      FilterAgrees(rows, FieldIs(field, c.value), Constraint(field, c));
    } else {
      FilterKeepsAll(rows, Constraint(field, c));
    }
  }

  lemma SearchIsFilter(rows: seq<Record>, input: Option<string>)
    ensures Search(rows, input) == Filter(rows, SearchConstraint(input))
  {
    var keep := SearchConstraint(input);
    if SearchRequested(input) {
      var matches := TitleMatchesAny(Terms(input.value));
      forall i | 0 <= i < |rows|
        ensures matches(rows[i]) == keep(rows[i])
      {
        assert keep(rows[i]) == MeetsSearch(rows[i], input);
      }
      FilterAgrees(rows, matches, keep);
    } else {
      forall i | 0 <= i < |rows|
        ensures keep(rows[i])
      {
        assert keep(rows[i]) == MeetsSearch(rows[i], input);
      }
      FilterKeepsAll(rows, keep);
    }
  }

  function Accepting(q: Query): Record -> bool {
    r => Accepts(q, r)
  }

  /** The pipeline of filters is one filter by the conjunction of the criteria. */
  lemma ViewRowsIsFilter(rows: seq<Record>, q: Query)
    ensures ViewRows(rows, q) == Filter(rows, Accepting(q))
  {
    var a := Narrow(rows, "Final_Status", q.finalStatus);
    var b := Narrow(a, "Country", q.country);
    var c := Narrow(b, "QA_Status", q.qaStatus);
    NarrowIsFilter(rows, "Final_Status", q.finalStatus);
    NarrowIsFilter(a, "Country", q.country);
    NarrowIsFilter(b, "QA_Status", q.qaStatus);
    SearchIsFilter(c, q.jobTitles);
    FilterFour(rows, Constraint("Final_Status", q.finalStatus), Constraint("Country", q.country),
               Constraint("QA_Status", q.qaStatus), SearchConstraint(q.jobTitles), Accepting(q));
  }

  /**
   * The view keeps, in their original order, exactly the rows that meet every
   * active criterion: the filters combine as AND.
   */
  lemma ViewRowsSpec(rows: seq<Record>, q: Query)
    ensures IsSubsequence(ViewRows(rows, q), rows)
    ensures forall r :: r in ViewRows(rows, q) <==> r in rows && Accepts(q, r)
    ensures forall r :: multiset(ViewRows(rows, q))[r] == if Accepts(q, r) then multiset(rows)[r] else 0
  {
    ViewRowsIsFilter(rows, q);
    FilterIsSubsequence(rows, Accepting(q));
    forall r
      ensures r in ViewRows(rows, q) <==> r in rows && Accepts(q, r)
      ensures multiset(ViewRows(rows, q))[r] == if Accepts(q, r) then multiset(rows)[r] else 0
    {
      FilterMembership(rows, Accepting(q), r);
      FilterMultiset(rows, Accepting(q), r);
    }
  }

  /** With every exact criterion absent or `'All'` and no search, the view shows every row. */
  lemma NoCriteriaKeepsAll(rows: seq<Record>, q: Query)
    requires !Selects(q.finalStatus) && !Selects(q.country) && !Selects(q.qaStatus)
    requires !SearchRequested(q.jobTitles)
    ensures ViewRows(rows, q) == rows
  {
  }

  // ---------------------------------------------------------------- dropdowns

  /**
   * `[...new Set(vs.filter(Boolean))]`: the truthy values of `vs`, each once,
   * in the order they first appear.
   */
  function DistinctTruthy(vs: seq<Value>): (u: seq<Value>)
    ensures forall i, j :: 0 <= i < j < |u| ==> u[i] != u[j]
    ensures forall x :: x in u <==> x in vs && Truthy(x)
    decreases |vs|
  {
    if vs == [] then []
    else
      var n := |vs| - 1;
      var seen := DistinctTruthy(vs[..n]);
      assert vs == vs[..n] + [vs[n]];
      if !Truthy(vs[n]) || vs[n] in seen then seen else seen + [vs[n]]
  }

  /** The distinct values are listed in the order of their first occurrence. */
  lemma {:induction false} DistinctTruthyFirstSeen(vs: seq<Value>)
    ensures forall i, j :: 0 <= i < j < |DistinctTruthy(vs)| ==>
      FirstIndex(vs, DistinctTruthy(vs)[i]) < FirstIndex(vs, DistinctTruthy(vs)[j])
    decreases |vs|
  {
    if vs != [] {
      var n := |vs| - 1;
      var pre := vs[..n];
      var seen := DistinctTruthy(pre);
      DistinctTruthyFirstSeen(pre);
      assert vs == pre + [vs[n]];
      forall x | x in seen
        ensures FirstIndex(vs, x) == FirstIndex(pre, x) && FirstIndex(pre, x) < n
      {
        FirstIndexAppend(pre, [vs[n]], x);
      }
      if Truthy(vs[n]) && vs[n] !in seen {
        FirstIndexAppend(pre, [vs[n]], vs[n]);
      }
    }
  }

  /** `rows.map(r => r[field])`. */
  function ColumnValues(rows: seq<Record>, field: string): seq<Value> {
    seq(|rows|, i requires 0 <= i < |rows| => FieldOf(rows[i], field))
  }

  /** A value is in the column exactly when some row holds it in that field. */
  lemma ColumnMembership(rows: seq<Record>, field: string)
    ensures forall x :: x in ColumnValues(rows, field) <==>
      exists i :: 0 <= i < |rows| && FieldOf(rows[i], field) == x
  {
    var vs := ColumnValues(rows, field);
    forall x
      ensures x in vs <==> exists i :: 0 <= i < |rows| && FieldOf(rows[i], field) == x
    {
      if x in vs {
        var i :| 0 <= i < |vs| && vs[i] == x;
      }
      if exists i :: 0 <= i < |rows| && FieldOf(rows[i], field) == x {
        var i :| 0 <= i < |rows| && FieldOf(rows[i], field) == x;
        assert vs[i] == x;
      }
    }
  }

  /** `getUnique(field)`, over the unfiltered rows (server.js, line 121). */
  function Unique(rows: seq<Record>, field: string): seq<Value> {
    DistinctTruthy(ColumnValues(rows, field))
  }

  /** A dropdown value is truthy and occurs in some row's field; every truthy field value is listed. */
  lemma UniqueSpec(rows: seq<Record>, field: string)
    ensures forall x :: x in Unique(rows, field) <==>
      Truthy(x) && exists i :: 0 <= i < |rows| && FieldOf(rows[i], field) == x
  {
    ColumnMembership(rows, field);
  }

  // ---------------------------------------------------------------- handler

  /**
   * `GET /view`: narrow the stored rows step by step and compute the dropdown
   * lists from the unfiltered rows (server.js, lines 90-133).
   */
  method View(store: Store, q: Query) returns (page: Page)
    ensures page.headers == store.headers
    ensures page.rows == ViewRows(store.rows, q)
    ensures page.finalStatusList == Unique(store.rows, "Final_Status")
    ensures page.countryList == Unique(store.rows, "Country")
    ensures page.qaStatusList == Unique(store.rows, "QA_Status")
    ensures page.selected == q
  {
    var headers, rows := store.headers, store.rows;
    var filteredRows := rows;
    if Selects(q.finalStatus) {
      filteredRows := ExactFilter(filteredRows, "Final_Status", q.finalStatus.value);
    }
    if Selects(q.country) {
      filteredRows := ExactFilter(filteredRows, "Country", q.country.value);
    }
    if Selects(q.qaStatus) {
      filteredRows := ExactFilter(filteredRows, "QA_Status", q.qaStatus.value);
    }
    var jobTitleList: seq<string> := [];
    if SearchRequested(q.jobTitles) {
      jobTitleList := Terms(q.jobTitles.value);
      filteredRows := TextFilter(filteredRows, jobTitleList);
    }
    page := Page(headers, filteredRows,
                 Unique(rows, "Final_Status"), Unique(rows, "Country"), Unique(rows, "QA_Status"), q);
  }
}
