/**
 The Vue app object: its data fields, the facet builder, the filter step and
 the state transition of a data load. The fetch itself is replaced by its
 outcome, given to `FetchServices` as a parameter.
 */
module App {
  import opened Text
  import opened Catalog
  import opened Facets

  /** What the fetch of the data file delivers: the parsed array of records, or a failure. */
  datatype LoadOutcome = Loaded(data: seq<Service>) | LoadFailed

  class ServiceApp {
    var allServices: seq<Service>
    var filteredServices: seq<Service>
    var searchTerm: string
    var selectedFormat: string
    var deletionRequired: bool
    var loading: bool
    var availableFormats: seq<string>

    /**
     The facet list is always the one derived from all records, and the visible
     list is always drawn, in order, from all records.
     */
    ghost predicate Valid()
      reads this
    {
      && availableFormats == DistinctFormats(allServices)
      && IsSubsequence(filteredServices, allServices)
    }

    /** The criteria currently held by the search box, the format selector and the checkbox. */
    function CurrentCriteria(): Criteria
      reads this
    {
      Criteria(searchTerm, selectedFormat, deletionRequired)
    }

    /** The state returned by `data()`. */
    constructor ()
      ensures allServices == [] && filteredServices == [] && availableFormats == []
      ensures CurrentCriteria() == Initial
      ensures loading
      ensures Valid()
    {
      allServices := [];
      filteredServices := [];
      searchTerm := "";
      selectedFormat := "";
      deletionRequired := false;
      loading := true;
      availableFormats := [];
    }

    /**
     Adds every upper-cased token of every array-valued `formats` to a set, then
     stores the set sorted.
     */
    method PopulateAvailableFormats(services: seq<Service>)
      modifies this`availableFormats
      ensures availableFormats == DistinctFormats(services)
      ensures StrictlyAscending(availableFormats)
      ensures forall u :: u in availableFormats <==> Declared(services, u)
    {
      var formats: seq<string> := [];
      var i := 0;
      while i < |services|
        invariant 0 <= i <= |services|
        invariant formats == Dedup(Flatten(services[..i]))
      {
        var service := services[i];
        ghost var visited := Flatten(services[..i]);
        FlattenStep(services, i);
        if service.formats.Tokens? {
          var tokens := service.formats.items;
          var j := 0;
          assert visited + UpperAll(tokens[..0]) == visited;
          while j < |tokens|
            invariant 0 <= j <= |tokens|
            invariant formats == Dedup(visited + UpperAll(tokens[..j]))
          {
            var u := Upper(tokens[j]);
            UpperAllStep(tokens, j);
            assert visited + UpperAll(tokens[..j + 1]) == (visited + UpperAll(tokens[..j])) + [u];
            DedupStep(visited + UpperAll(tokens[..j]), u);
            if u !in formats {
              formats := formats + [u];
            }
            j := j + 1;
          }
          assert tokens[..j] == tokens;
        } else {
          assert visited + [] == visited;
        }
        i := i + 1;
      }
      assert services[..i] == services;
      availableFormats := Sort(formats);
      DistinctFormatsSpec(services);
    }

    /**
     Runs the filter over all records with the current criteria and stores the
     result. When the filter throws, `ok` is false and nothing is stored.
     */
    method ApplyFilters() returns (ok: bool)
      modifies this`filteredServices
      ensures ok <==> AllEvaluate(allServices, CurrentCriteria())
      ensures ok ==> filteredServices == Filter(allServices, CurrentCriteria()).value
      ensures ok ==> forall x :: x in filteredServices <==> x in allServices && Matches(x, CurrentCriteria()) == Ok(true)
      ensures !ok ==> filteredServices == old(filteredServices)
      ensures old(Valid()) ==> Valid()
    {
      var filtered := Filter(allServices, CurrentCriteria());
      match filtered
      case TypeError =>
        ok := false;
      case Ok(kept) =>
        forall x ensures x in kept <==> x in allServices && Matches(x, CurrentCriteria()) == Ok(true) {
          FilterMembership(allServices, CurrentCriteria(), x);
        }
        filteredServices := kept;
        ok := true;
    }

    /**
     A data load. On success the records are replaced, the facets rebuilt and
     the filter applied; a TypeError thrown while filtering is caught and clears
     the visible list. On failure the visible list is cleared and the records and
     facets are kept. Either way loading ends.
     */
    method FetchServices(outcome: LoadOutcome)
      requires Valid()
      modifies this`loading, this`allServices, this`availableFormats, this`filteredServices
      ensures Valid()
      ensures !loading
      ensures searchTerm == old(searchTerm) && selectedFormat == old(selectedFormat)
      ensures deletionRequired == old(deletionRequired)
      ensures outcome.LoadFailed? ==>
                && allServices == old(allServices)
                && availableFormats == old(availableFormats)
                && filteredServices == []
      ensures outcome.Loaded? ==> allServices == outcome.data && availableFormats == DistinctFormats(outcome.data)
      ensures outcome.Loaded? && AllEvaluate(outcome.data, CurrentCriteria()) ==>
                filteredServices == Filter(outcome.data, CurrentCriteria()).value
      ensures outcome.Loaded? && !AllEvaluate(outcome.data, CurrentCriteria()) ==> filteredServices == []
    {
      loading := true;
      match outcome {
        case LoadFailed =>
          filteredServices := [];
          loading := false;
          assert IsSubsequence(filteredServices, allServices);
          assert Valid();
        case Loaded(data) =>
          allServices := data;
          PopulateAvailableFormats(allServices);
          var ok := ApplyFilters();
          if !ok {
            filteredServices := [];
            loading := false;
          }
          assert allServices == data && availableFormats == DistinctFormats(data);
          assert IsSubsequence(filteredServices, allServices);
          assert Valid();
      }
      loading := false;
    }
  }
}
