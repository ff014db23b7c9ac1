/**
 The format facet of `populateAvailableFormats`: every token of every record's
 `formats` array, upper-cased, collected in a Set (which keeps first-insertion
 order) and then sorted.
 */
module Facets {
  import opened Text
  import opened Catalog

  /** Upper-cases every token of a list. */
  function UpperAll(tokens: seq<string>): (r: seq<string>)
    ensures |r| == |tokens|
    ensures forall u :: u in r ==> Upper(u) == u
  {
    UpperFixed();
    seq(|tokens|, k requires 0 <= k < |tokens| => Upper(tokens[k]))
  }

  /** Every upper-cased token of every record with an array of formats, in visiting order. */
  function Flatten(services: seq<Service>): (r: seq<string>)
    ensures forall u :: u in r ==> Upper(u) == u
  {
    if services == [] then []
    else Flatten(services[..|services| - 1]) + UpperAll(TokenList(services[|services| - 1].formats))
  }

  /** A JavaScript `Set` built by adding the elements of `s` in order, read back in insertion order. */
  function Dedup(s: seq<string>): (r: seq<string>)
    ensures forall u :: u in r <==> u in s
  {
    if s == [] then []
    else
      assert s == s[..|s| - 1] + [s[|s| - 1]];
      var d := Dedup(s[..|s| - 1]);
      if s[|s| - 1] in d then d else d + [s[|s| - 1]]
  }

  /** The value `populateAvailableFormats` assigns to `availableFormats`. */
  function DistinctFormats(services: seq<Service>): (r: seq<string>)
    ensures forall u :: u in r ==> Upper(u) == u
  {
    var d := Dedup(Flatten(services));
    SortPermutes(d);
    assert forall u :: u in Sort(d) ==> u in multiset(Sort(d)) && u in multiset(d);
    Sort(d)
  }

  lemma FlattenStep(services: seq<Service>, i: nat)
    requires i < |services|
    ensures Flatten(services[..i + 1]) == Flatten(services[..i]) + UpperAll(TokenList(services[i].formats))
  {
    assert services[..i + 1][..i] == services[..i];
  }

  lemma UpperAllStep(tokens: seq<string>, j: nat)
    requires j < |tokens|
    ensures UpperAll(tokens[..j + 1]) == UpperAll(tokens[..j]) + [Upper(tokens[j])]
  {
  }

  /** Adding an element to the set appends it unless it is already there. */
  lemma DedupStep(s: seq<string>, u: string)
    ensures Dedup(s + [u]) == if u in Dedup(s) then Dedup(s) else Dedup(s) + [u]
  {
    assert (s + [u])[..|s|] == s;
  }

  /** Some record of `services` declares a token whose upper-case form is `u`. */
  ghost predicate Declared(services: seq<Service>, u: string) {
    exists x, t :: x in services && t in TokenList(x.formats) && Upper(t) == u
  }

  lemma {:induction false} FlattenElements(services: seq<Service>, u: string)
    ensures u in Flatten(services) <==> Declared(services, u)
  {
    if services != [] {
      var init, last := services[..|services| - 1], services[|services| - 1];
      assert services == init + [last];
      FlattenElements(init, u);
      var tokens := TokenList(last.formats);
      if u in UpperAll(tokens) {
        var k :| 0 <= k < |tokens| && UpperAll(tokens)[k] == u;
        assert last in services && tokens[k] in tokens;
      }
      if Declared(services, u) {
        var x, t :| x in services && t in TokenList(x.formats) && Upper(t) == u;
        if x == last {
          var k :| 0 <= k < |tokens| && tokens[k] == t;
          assert UpperAll(tokens)[k] == u;
        } else {
          assert x in init;
        }
      }
    }
  }

  lemma {:induction false} DedupSpec(s: seq<string>)
    ensures NoDuplicates(Dedup(s))
    ensures forall u :: u in Dedup(s) <==> u in s
  {
    if s != [] {
      var init := s[..|s| - 1];
      assert s == init + [s[|s| - 1]];
      DedupSpec(init);
    }
  }

  /**
   The facet list is strictly ascending (hence free of duplicates) and holds
   exactly the upper-cased tokens of the records whose `formats` is an array.
   */
  lemma DistinctFormatsSpec(services: seq<Service>)
    ensures StrictlyAscending(DistinctFormats(services))
    ensures forall u :: u in DistinctFormats(services) <==> Declared(services, u)
  {
    var d := Dedup(Flatten(services));
    DedupSpec(Flatten(services));
    SortAscending(d);
    SortPermutes(d);
    forall u ensures u in DistinctFormats(services) <==> Declared(services, u) {
      FlattenElements(services, u);
      assert u in DistinctFormats(services) <==> u in multiset(Sort(d));
    }
  }

  /**
   The facet list depends only on the set of declared formats: any strictly
   ascending list of exactly those formats is it. In particular the order in
   which records and tokens were visited does not matter.
   */
  lemma DistinctFormatsCanonical(services: seq<Service>, r: seq<string>)
    requires StrictlyAscending(r)
    requires forall u :: u in r <==> Declared(services, u)
    ensures r == DistinctFormats(services)
  {
    DistinctFormatsSpec(services);
    AscendingUnique(r, DistinctFormats(services));
  }

  /**
   A non-empty selection matches the format of some record exactly when its
   upper-case form is among the facet options.
   */
  lemma FacetSelects(services: seq<Service>, selected: string)
    requires selected != ""
    ensures (exists x :: x in services && FormatTest(x, selected) == Ok(true))
              <==> Upper(selected) in DistinctFormats(services)
  {
    DistinctFormatsSpec(services);
    if exists x :: x in services && FormatTest(x, selected) == Ok(true) {
      var x :| x in services && FormatTest(x, selected) == Ok(true);
      var t :| t in x.formats.items && Upper(t) == Upper(selected);
      assert Declared(services, Upper(selected));
    }
    if Upper(selected) in DistinctFormats(services) {
      var x, t :| x in services && t in TokenList(x.formats) && Upper(t) == Upper(selected);
      assert FormatTest(x, selected) == Ok(true);
    }
  }

  /** Every facet option, once selected, matches the format of at least one record. */
  lemma FacetOptionsSelectable(services: seq<Service>, option: string)
    requires option in DistinctFormats(services)
    ensures exists x :: x in services && FormatTest(x, option) == Ok(true)
  {
    DistinctFormatsSpec(services);
    var x, t :| x in services && t in TokenList(x.formats) && Upper(t) == option;
    UpperIdempotent(t);
    if option != "" {
      FacetSelects(services, option);
    } else {
      assert FormatTest(x, option) == Ok(true);
    }
  }
}
