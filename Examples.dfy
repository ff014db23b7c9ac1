/**
 Worked examples: two small catalogs run through the filter and the facet builder.
 */
module Examples {
  import opened Text
  import opened Catalog
  import opened Facets

  const Alpha := Service(Some("Alpha"), Some("export now"), Tokens(["CSV"]), false, None, None)
  const Beta := Service(Some("Beta"), Some(""), Tokens(["JSON"]), true, None, None)

  /**
   Runs the filter over [Alpha, Beta] one record at a time, given the outcome
   of the callback on each.
   */
  lemma FilterAlphaBeta(c: Criteria, keepAlpha: bool, keepBeta: bool)
    requires Matches(Alpha, c) == Ok(keepAlpha) && Matches(Beta, c) == Ok(keepBeta)
    ensures Filter([Alpha, Beta], c) ==
              Ok((if keepAlpha then [Alpha] else []) + (if keepBeta then [Beta] else []))
  {
    var tail := [Beta];
    assert tail[1..] == [];
    assert Filter(tail[1..], c) == Ok([]);
    assert Matches(tail[0], c) == Ok(keepBeta);
    assert Filter(tail, c) == Ok(if keepBeta then [tail[0]] + [] else []);
    var s := [Alpha, Beta];
    assert s[1..] == tail;
    assert Matches(s[0], c) == Ok(keepAlpha);
    assert Filter(s, c) == Ok(if keepAlpha then [s[0]] + Filter(tail, c).value else Filter(tail, c).value);
    assert [tail[0]] + [] == [Beta];
    var kept := (if keepAlpha then [Alpha] else []) + (if keepBeta then [Beta] else []);
    if keepAlpha && keepBeta {
      assert kept == [Alpha, Beta] == [s[0]] + [Beta];
    } else if keepAlpha {
      assert kept == [Alpha] == [s[0]] + [];
    } else if keepBeta {
      assert kept == [Beta];
    } else {
      assert kept == [];
    }
  }

  /** Searching "alpha" keeps Alpha only; the match is on the lower-cased name. */
  lemma SearchAlpha()
    ensures Filter([Alpha, Beta], Criteria("alpha", "", false)) == Ok([Alpha])
  {
    assert Lower("alpha") == "alpha";
    assert Lower("Alpha") == "alpha";
    assert Lower("Beta") == "beta";
    assert Lower("export now") == "export now";
    assert Contains("alpha", "alpha");
    assert !Contains("beta", "alpha");
    FilterAlphaBeta(Criteria("alpha", "", false), true, false);
    assert [Alpha] + [] == [Alpha];
  }

  /** The deletion checkbox keeps Beta only. */
  lemma DeletionOnly()
    ensures Filter([Alpha, Beta], Criteria("", "", true)) == Ok([Beta])
  {
    assert Lower("") == "";
    FilterAlphaBeta(Criteria("", "", true), false, true);
    assert [] + [Beta] == [Beta];
  }

  /** Selecting "json" in lower case keeps Beta, whose token is "JSON". */
  lemma FormatJson()
    ensures Filter([Alpha, Beta], Criteria("", "json", false)) == Ok([Beta])
  {
    assert Lower("") == "";
    assert Lower("json") == "json" && Lower("JSON") == "json" && Lower("CSV") == "csv";
    FilterAlphaBeta(Criteria("", "json", false), false, true);
    assert [] + [Beta] == [Beta];
  }

  /** Tokens "CSV", "csv" and "JSON" give the options "CSV" and "JSON", in that order. */
  lemma FacetsOfMixedCase()
    ensures DistinctFormats([Alpha, Beta, Alpha.(formats := Tokens(["csv"]))]) == ["CSV", "JSON"]
  {
    var services := [Alpha, Beta, Alpha.(formats := Tokens(["csv"]))];
    assert Upper("CSV") == "CSV" && Upper("csv") == "CSV" && Upper("JSON") == "JSON";
    assert Less("CSV", "JSON");
    forall u ensures u in ["CSV", "JSON"] <==> Declared(services, u) {
      if Declared(services, u) {
        var x, t :| x in services && t in TokenList(x.formats) && Upper(t) == u;
      }
      if u == "CSV" {
        assert services[0] in services && "CSV" in TokenList(services[0].formats);
      }
      if u == "JSON" {
        assert services[1] in services && "JSON" in TokenList(services[1].formats);
      }
    }
    DistinctFormatsCanonical(services, ["CSV", "JSON"]);
  }
}
