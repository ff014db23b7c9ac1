/**
 Service records and the filter callback of `applyFilters`: a search test, a
 format test and a deletion test, conjoined, and the stable filter that keeps
 the records passing all three.

 A JavaScript property access on a missing value throws a TypeError; the
 callback does that for a record without a `name`, and for a record whose
 `formats` is a truthy value without a `some` method when a format is selected.
 `Result` carries that outcome.
 */
module Catalog {
  import opened Text

  datatype Option<T> = None | Some(value: T)

  datatype Result<T> = Ok(value: T) | TypeError

  /**
   The `formats` property of a record: absent (or another falsy value), an
   array of tokens, or some truthy value that is not an array.
   */
  datatype Formats = Missing | Tokens(items: seq<string>) | NonArray

  /**
   One catalog record as it comes from the data file. `deletionRequired` holds
   the truthiness of that property (absent is false); `processTime` and
   `exportLink` are only displayed.
   */
  datatype Service = Service(
    name: Option<string>,
    notes: Option<string>,
    formats: Formats,
    deletionRequired: bool,
    processTime: Option<string>,
    exportLink: Option<string>)

  /** The three filter inputs held by the app: `searchTerm`, `selectedFormat`, `deletionRequired`. */
  datatype Criteria = Criteria(searchTerm: string, selectedFormat: string, deletionRequired: bool)

  /** The criteria the app starts with. */
  const Initial := Criteria("", "", false)

  /** A non-empty string is truthy; an absent or empty one is not. */
  predicate Truthy(s: Option<string>) {
    s.Some? && s.value != ""
  }

  /** The token list that the array-aware code sees in `formats`. */
  function TokenList(f: Formats): seq<string> {
    if f.Tokens? then f.items else []
  }

  // ---------------------------------------------------------------------------
  // The three tests of the filter callback
  // ---------------------------------------------------------------------------

  /** `matchesSearch`: the name contains the term, or the notes do; both sides lower-cased. */
  function SearchTest(s: Service, term: string): (r: Result<bool>)
    ensures r == TypeError <==> s.name.None?
    ensures r == Ok(true) <==>
              s.name.Some? &&
              ((exists i :: OccursAt(Lower(s.name.value), Lower(term), i)) ||
               (Truthy(s.notes) && exists i :: OccursAt(Lower(s.notes.value), Lower(term), i)))
  {
    if s.name.None? then TypeError
    else
      var needle := Lower(term);
      ContainsIffOccurs(Lower(s.name.value), needle);
      ContainsIffOccurs(Lower(if s.notes.Some? then s.notes.value else ""), needle);
      Ok(Contains(Lower(s.name.value), needle)
         || (Truthy(s.notes) && Contains(Lower(s.notes.value), needle)))
  }

  /** `formats.some(f => f.toLowerCase() === selected.toLowerCase())` */
  function SomeToken(tokens: seq<string>, selected: string): (r: bool)
    ensures r <==> exists i :: 0 <= i < |tokens| && Lower(tokens[i]) == Lower(selected)
  {
    if tokens == [] then false
    else
      assert forall i :: 1 <= i < |tokens| ==> tokens[i] == tokens[1..][i - 1];
      Lower(tokens[0]) == Lower(selected) || SomeToken(tokens[1..], selected)
  }

  /** `SomeToken` holds exactly when some token equals the selection in upper-case form. */
  lemma SomeTokenIff(tokens: seq<string>, selected: string)
    ensures SomeToken(tokens, selected) <==> exists t :: t in tokens && Upper(t) == Upper(selected)
  {
    forall i | 0 <= i < |tokens| ensures Lower(tokens[i]) == Lower(selected) <==> Upper(tokens[i]) == Upper(selected) {
      SameCaseFold(tokens[i], selected);
    }
  }

  /** `matchesFormat` */
  function FormatTest(s: Service, selected: string): (r: Result<bool>)
    ensures r == TypeError <==> selected != "" && s.formats == NonArray
    ensures r == Ok(true) <==>
              selected == "" || (s.formats.Tokens? && exists t :: t in s.formats.items && Upper(t) == Upper(selected))
  {
    if selected == "" then Ok(true)
    else match s.formats
      case Missing => Ok(false)
      case NonArray => TypeError
      case Tokens(items) =>
        SomeTokenIff(items, selected);
        Ok(SomeToken(items, selected))
  }

  /** `matchesDeletionRequirement` */
  function DeletionTest(s: Service, required: bool): (r: bool)
    ensures !required ==> r
    ensures required ==> (r <==> s.deletionRequired)
  {
    !required || s.deletionRequired
  }

  /** The filter callback: all three tests must pass; any TypeError propagates. */
  function Matches(s: Service, c: Criteria): (r: Result<bool>)
    ensures r == TypeError <==> s.name.None? || (c.selectedFormat != "" && s.formats == NonArray)
    ensures r == Ok(true) && c.deletionRequired ==> s.deletionRequired
    ensures r.Ok? && c.deletionRequired ==>
              r.value == (s.deletionRequired && SearchTest(s, c.searchTerm) == Ok(true) && FormatTest(s, c.selectedFormat) == Ok(true))
    ensures r.Ok? && !c.deletionRequired ==>
              r.value == (SearchTest(s, c.searchTerm) == Ok(true) && FormatTest(s, c.selectedFormat) == Ok(true))
  {
    var search := SearchTest(s, c.searchTerm);
    var format := FormatTest(s, c.selectedFormat);
    if search == TypeError || format == TypeError then TypeError
    else Ok(search.value && format.value && DeletionTest(s, c.deletionRequired))
  }

  // ---------------------------------------------------------------------------
  // The stable filter
  // ---------------------------------------------------------------------------

  /** `a` can be obtained from `b` by deleting elements. */
  ghost predicate IsSubsequence<T>(a: seq<T>, b: seq<T>)
    decreases |b|
  {
    a == [] || (b != [] && ((a[0] == b[0] && IsSubsequence(a[1..], b[1..])) || IsSubsequence(a, b[1..])))
  }

  /** Every record evaluates without throwing. */
  ghost predicate AllEvaluate(services: seq<Service>, c: Criteria) {
    forall i :: 0 <= i < |services| ==> Matches(services[i], c).Ok?
  }

  /**
   `allServices.filter(callback)`: the records for which the callback returns
   true, in their original order; the first TypeError aborts the whole call.
   */
  function Filter(services: seq<Service>, c: Criteria): (r: Result<seq<Service>>)
    ensures r.Ok? <==> AllEvaluate(services, c)
    ensures r.Ok? ==> IsSubsequence(r.value, services)
  {
    if services == [] then Ok([])
    else
      match Matches(services[0], c)
      case TypeError => TypeError
      case Ok(keep) =>
        match Filter(services[1..], c)
        case TypeError =>
          assert !AllEvaluate(services[1..], c);
          TypeError
        case Ok(rest) =>
          assert forall i :: 1 <= i < |services| ==> services[i] == services[1..][i - 1];
          Ok(if keep then [services[0]] + rest else rest)
  }

  /**
   What the filter keeps: each record passing the callback, as many times as it
   occurs in the input, and nothing else.
   */
  lemma {:induction false} FilterKeeps(services: seq<Service>, c: Criteria)
    requires Filter(services, c).Ok?
    ensures forall x :: multiset(Filter(services, c).value)[x] ==
                          if Matches(x, c) == Ok(true) then multiset(services)[x] else 0
  {
    if services != [] {
      FilterKeeps(services[1..], c);
      assert services == [services[0]] + services[1..];
    }
  }

  /** A record is in the result exactly when it is in the input and passes all three tests. */
  lemma FilterMembership(services: seq<Service>, c: Criteria, x: Service)
    requires Filter(services, c).Ok?
    ensures x in Filter(services, c).value <==> x in services && Matches(x, c) == Ok(true)
  {
    FilterKeeps(services, c);
    assert x in Filter(services, c).value <==> multiset(Filter(services, c).value)[x] > 0;
  }

  /** When every record passes, the filter returns its input unchanged. */
  lemma {:induction false} FilterAllPass(services: seq<Service>, c: Criteria)
    requires forall x :: x in services ==> Matches(x, c) == Ok(true)
    ensures Filter(services, c) == Ok(services)
  {
    if services != [] {
      FilterAllPass(services[1..], c);
      assert services == [services[0]] + services[1..];
    }
  }

  /** With the initial criteria every named record passes: the empty term is found in every name. */
  lemma InitialCriteriaPass(s: Service)
    requires s.name.Some?
    ensures Matches(s, Initial) == Ok(true)
  {
    assert Lower("") == [];
  }

  /**
   With the initial criteria the filter is the identity, in order, provided every
   record has a name; a record without one makes it throw.
   */
  lemma FilterInitialIsIdentity(services: seq<Service>)
    ensures (forall x :: x in services ==> x.name.Some?) ==> Filter(services, Initial) == Ok(services)
    ensures (exists x :: x in services && x.name.None?) ==> Filter(services, Initial) == TypeError
  {
    if forall x :: x in services ==> x.name.Some? {
      forall x | x in services ensures Matches(x, Initial) == Ok(true) {
        InitialCriteriaPass(x);
      }
      FilterAllPass(services, Initial);
    }
    if exists x :: x in services && x.name.None? {
      var x :| x in services && x.name.None?;
      var i :| 0 <= i < |services| && services[i] == x;
      assert !Matches(services[i], Initial).Ok?;
    }
  }

  /** Filtering the result a second time changes nothing. */
  lemma FilterIdempotent(services: seq<Service>, c: Criteria)
    requires Filter(services, c).Ok?
    ensures Filter(Filter(services, c).value, c) == Filter(services, c)
  {
    var r := Filter(services, c).value;
    forall x | x in r ensures Matches(x, c) == Ok(true) {
      FilterMembership(services, c, x);
    }
    FilterAllPass(r, c);
  }

  /** With the deletion flag on, every kept record requires deletion. */
  lemma FilterDeletionFlag(services: seq<Service>, c: Criteria)
    requires c.deletionRequired && Filter(services, c).Ok?
    ensures forall x :: x in Filter(services, c).value ==> x.deletionRequired
  {
    forall x | x in Filter(services, c).value ensures x.deletionRequired {
      FilterMembership(services, c, x);
    }
  }

  /**
   With the deletion flag on, the filter keeps exactly the records that the
   flag-off filter keeps and that require deletion; it throws exactly when the
   flag-off filter does.
   */
  lemma FilterDeletionFlagOn(services: seq<Service>, c: Criteria, x: Service)
    requires c.deletionRequired
    ensures Filter(services, c).Ok? <==> Filter(services, c.(deletionRequired := false)).Ok?
    ensures Filter(services, c).Ok? ==>
              (x in Filter(services, c).value <==>
               x in Filter(services, c.(deletionRequired := false)).value && x.deletionRequired)
  {
    var off := c.(deletionRequired := false);
    assert forall i :: 0 <= i < |services| ==> (Matches(services[i], c).Ok? <==> Matches(services[i], off).Ok?);
    if Filter(services, c).Ok? {
      FilterMembership(services, c, x);
      FilterMembership(services, off, x);
    }
  }

  /**
   With the deletion flag off, the deletion test excludes nothing: the filter
   keeps the same records whatever their `deletionRequired` property.
   */
  lemma DeletionFlagOffIgnoresProperty(s: Service, c: Criteria)
    requires !c.deletionRequired
    ensures Matches(s, c) == Matches(s.(deletionRequired := !s.deletionRequired), c)
  {
  }

  /**
   Format matching ignores case: selections that agree ignoring case select the
   same records.
   */
  lemma FormatIgnoresCase(s: Service, a: string, b: string)
    requires Upper(a) == Upper(b)
    ensures FormatTest(s, a) == FormatTest(s, b)
  {
    assert |a| == |Upper(a)| == |Upper(b)| == |b|;
    if s.formats.Tokens? && a != "" {
      SomeTokenIff(s.formats.items, a);
      SomeTokenIff(s.formats.items, b);
    }
  }

  /** A record whose formats are absent never matches a non-empty selection. */
  lemma MissingFormatsNeverMatch(s: Service, c: Criteria)
    requires c.selectedFormat != "" && s.formats == Missing
    ensures Matches(s, c) != Ok(true)
  {
  }

  /**
   `c2` constrains at least as much as `c1`: its term contains the other's
   (ignoring case), its format is the same or the other has none, and its
   deletion flag is on whenever the other's is.
   */
  ghost predicate Narrower(c2: Criteria, c1: Criteria) {
    && Contains(Lower(c2.searchTerm), Lower(c1.searchTerm))
    && (c1.selectedFormat == "" || Lower(c1.selectedFormat) == Lower(c2.selectedFormat))
    && (c1.deletionRequired ==> c2.deletionRequired)
  }

  lemma MatchesMonotone(s: Service, c1: Criteria, c2: Criteria)
    requires Narrower(c2, c1)
    ensures Matches(s, c2).Ok? ==> Matches(s, c1).Ok?
    ensures Matches(s, c2) == Ok(true) ==> Matches(s, c1) == Ok(true)
  {
    if s.name.Some? && Contains(Lower(s.name.value), Lower(c2.searchTerm)) {
      ContainsTransitive(Lower(s.name.value), Lower(c2.searchTerm), Lower(c1.searchTerm));
    }
    if Truthy(s.notes) && Contains(Lower(s.notes.value), Lower(c2.searchTerm)) {
      ContainsTransitive(Lower(s.notes.value), Lower(c2.searchTerm), Lower(c1.searchTerm));
    }
    if c1.selectedFormat != "" {
      SameCaseFold(c1.selectedFormat, c2.selectedFormat);
      FormatIgnoresCase(s, c1.selectedFormat, c2.selectedFormat);
    }
  }

  /** Narrowing the criteria keeps a subsequence of what the wider criteria keep. */
  lemma {:induction false} FilterMonotone(services: seq<Service>, c1: Criteria, c2: Criteria)
    requires Narrower(c2, c1)
    ensures Filter(services, c2).Ok? ==> Filter(services, c1).Ok?
    ensures Filter(services, c2).Ok? ==> IsSubsequence(Filter(services, c2).value, Filter(services, c1).value)
  {
    if services != [] {
      MatchesMonotone(services[0], c1, c2);
      FilterMonotone(services[1..], c1, c2);
    }
  }
}
