/**
 The string primitives the catalog filter and the facet builder rely on:
 case mapping (`toLowerCase`, `toUpperCase`), substring search (`includes`)
 and the order used by the default `Array.prototype.sort`.
 Case mapping is restricted to ASCII letters; every other character maps to itself.
 */
module Text {

  // ---------------------------------------------------------------------------
  // Case mapping
  // ---------------------------------------------------------------------------

  function LowerChar(c: char): char {
    if 'A' <= c <= 'Z' then (c as int + 32) as char else c
  }

  function UpperChar(c: char): char {
    if 'a' <= c <= 'z' then (c as int - 32) as char else c
  }

  /** `s.toLowerCase()` */
  function Lower(s: string): (r: string)
    ensures |r| == |s|
  {
    seq(|s|, i requires 0 <= i < |s| => LowerChar(s[i]))
  }

  /** `s.toUpperCase()` */
  function Upper(s: string): (r: string)
    ensures |r| == |s|
  {
    seq(|s|, i requires 0 <= i < |s| => UpperChar(s[i]))
  }

  /** Two characters agree ignoring case in lower-case form exactly when they agree in upper-case form. */
  lemma SameCaseFoldChar(a: char, b: char)
    ensures LowerChar(a) == LowerChar(b) <==> UpperChar(a) == UpperChar(b)
  {
  }

  /** Comparing lower-cased strings and comparing upper-cased strings are the same test. */
  lemma SameCaseFold(a: string, b: string)
    ensures Lower(a) == Lower(b) <==> Upper(a) == Upper(b)
  {
    if Lower(a) == Lower(b) {
      assert |a| == |b|;
      forall i | 0 <= i < |a| ensures Upper(a)[i] == Upper(b)[i] {
        assert Lower(a)[i] == Lower(b)[i];
        SameCaseFoldChar(a[i], b[i]);
      }
    }
    if Upper(a) == Upper(b) {
      assert |a| == |b|;
      forall i | 0 <= i < |a| ensures Lower(a)[i] == Lower(b)[i] {
        assert Upper(a)[i] == Upper(b)[i];
        SameCaseFoldChar(a[i], b[i]);
      }
    }
  }

  /** Upper-casing an upper-cased string changes nothing. */
  lemma UpperIdempotent(s: string)
    ensures Upper(Upper(s)) == Upper(s)
  {
    forall i | 0 <= i < |s| ensures Upper(Upper(s))[i] == Upper(s)[i] {
    }
  }

  /** Every upper-cased string is its own upper-case form. */
  lemma UpperFixed()
    ensures forall t :: Upper(Upper(t)) == Upper(t)
  {
    forall t ensures Upper(Upper(t)) == Upper(t) {
      UpperIdempotent(t);
    }
  }

  /** Lower-casing commutes with taking a slice. */
  lemma LowerSlice(s: string, i: nat, j: nat)
    requires i <= j <= |s|
    ensures Lower(s)[i..j] == Lower(s[i..j])
  {
  }

  // ---------------------------------------------------------------------------
  // Substring search
  // ---------------------------------------------------------------------------

  /** `text.includes(term)`: scans `text` left to right for a position where `term` starts. */
  function Contains(text: string, term: string): (r: bool)
    ensures r ==> |term| <= |text|
    decreases |text|
  {
    term <= text || (text != [] && Contains(text[1..], term))
  }

  /** `term` occurs in `text` starting at index `i`. */
  ghost predicate OccursAt(text: string, term: string, i: int) {
    0 <= i && i + |term| <= |text| && text[i..i + |term|] == term
  }

  /** Whatever `Contains` finds occurs at some index. */
  lemma {:induction false} ContainsHasOccurrence(text: string, term: string) returns (i: nat)
    requires Contains(text, term)
    ensures OccursAt(text, term, i)
    decreases |text|
  {
    if term <= text {
      assert text[0..|term|] == term;
      i := 0;
    } else {
      var k := ContainsHasOccurrence(text[1..], term);
      assert text[1..][k..k + |term|] == text[k + 1..k + 1 + |term|];
      i := k + 1;
    }
  }

  /** An occurrence at any index is found by `Contains`. */
  lemma {:induction false} OccurrenceContained(text: string, term: string, i: int)
    requires OccursAt(text, term, i)
    ensures Contains(text, term)
    decreases |text|
  {
    if i == 0 {
      assert term == text[..|term|];
    } else {
      assert text[1..][i - 1..i - 1 + |term|] == text[i..i + |term|];
      OccurrenceContained(text[1..], term, i - 1);
    }
  }

  /** `Contains` finds exactly the terms that occur somewhere in the text. */
  lemma ContainsIffOccurs(text: string, term: string)
    ensures Contains(text, term) <==> exists i :: OccursAt(text, term, i)
  {
    if Contains(text, term) {
      var i := ContainsHasOccurrence(text, term);
    }
    if exists i :: OccursAt(text, term, i) {
      var i :| OccursAt(text, term, i);
      OccurrenceContained(text, term, i);
    }
  }

  /** Every string contains the empty string. */
  lemma ContainsEmpty(text: string)
    ensures Contains(text, [])
  {
  }

  /** A substring of a substring is a substring. */
  lemma ContainsTransitive(a: string, b: string, c: string)
    requires Contains(a, b) && Contains(b, c)
    ensures Contains(a, c)
  {
    var i := ContainsHasOccurrence(a, b);
    var j := ContainsHasOccurrence(b, c);
    forall k | 0 <= k < |c| ensures a[i + j..i + j + |c|][k] == c[k] {
      assert c[k] == b[j..j + |c|][k] == b[j + k];
      assert b[j + k] == a[i..i + |b|][j + k] == a[i + j + k];
    }
    OccurrenceContained(a, c, i + j);
  }

  /** Lower-casing both sides keeps an occurrence. */
  lemma ContainsLower(a: string, b: string)
    requires Contains(a, b)
    ensures Contains(Lower(a), Lower(b))
  {
    var i := ContainsHasOccurrence(a, b);
    LowerSlice(a, i, i + |b|);
    assert Lower(a)[i..i + |b|] == Lower(b);
    OccurrenceContained(Lower(a), Lower(b), i);
  }

  // ---------------------------------------------------------------------------
  // Ordering and sorting
  // ---------------------------------------------------------------------------

  /**
   The comparison of the default `sort()`: character by character, a proper
   prefix first.
   */
  function Less(a: string, b: string): (r: bool)
    ensures r ==> b != []
    ensures |a| < |b| && a == b[..|a|] ==> r
    decreases |a|
  {
    if a == [] then b != []
    else if b == [] then false
    else if a[0] != b[0] then a[0] < b[0]
    else
      assert |a| < |b| && a == b[..|a|] ==> a[1..] == b[1..][..|a| - 1];
      Less(a[1..], b[1..])
  }

  lemma {:induction false} LessIrreflexive(a: string)
    ensures !Less(a, a)
    decreases |a|
  {
    if a != [] {
      LessIrreflexive(a[1..]);
    }
  }

  lemma {:induction false} LessTransitive(a: string, b: string, c: string)
    requires Less(a, b) && Less(b, c)
    ensures Less(a, c)
    decreases |a|
  {
    if a != [] && b != [] && c != [] && a[0] == b[0] == c[0] {
      LessTransitive(a[1..], b[1..], c[1..]);
    }
  }

  lemma {:induction false} LessTotal(a: string, b: string)
    requires a != b
    ensures Less(a, b) || Less(b, a)
    decreases |a|
  {
    if a != [] && b != [] && a[0] == b[0] {
      assert a == [a[0]] + a[1..] && b == [b[0]] + b[1..];
      LessTotal(a[1..], b[1..]);
    }
  }

  lemma LessAsymmetric(a: string, b: string)
    requires Less(a, b)
    ensures !Less(b, a)
  {
    if Less(b, a) {
      LessTransitive(a, b, a);
      LessIrreflexive(a);
    }
  }

  ghost predicate StrictlyAscending(s: seq<string>) {
    forall i, j :: 0 <= i < j < |s| ==> Less(s[i], s[j])
  }

  ghost predicate NoDuplicates(s: seq<string>) {
    forall i, j :: 0 <= i < j < |s| ==> s[i] != s[j]
  }

  /** Inserts `x` before the first element that is not less than it. */
  function Insert(x: string, s: seq<string>): (r: seq<string>)
    ensures |r| == |s| + 1
  {
    if s == [] || !Less(s[0], x) then [x] + s
    else [s[0]] + Insert(x, s[1..])
  }

  /** The result of `sort()` with the default comparison. */
  function Sort(s: seq<string>): (r: seq<string>)
    ensures |r| == |s|
  {
    if s == [] then [] else Insert(s[0], Sort(s[1..]))
  }

  lemma {:induction false} InsertPermutes(x: string, s: seq<string>)
    ensures multiset(Insert(x, s)) == multiset(s) + multiset{x}
  {
    if s != [] && Less(s[0], x) {
      InsertPermutes(x, s[1..]);
      assert s == [s[0]] + s[1..];
    }
  }

  /** Sorting only reorders: the result holds the same elements, as often. */
  lemma {:induction false} SortPermutes(s: seq<string>)
    ensures multiset(Sort(s)) == multiset(s)
  {
    if s != [] {
      SortPermutes(s[1..]);
      InsertPermutes(s[0], Sort(s[1..]));
      assert s == [s[0]] + s[1..];
    }
  }

  lemma {:induction false} InsertAscending(x: string, s: seq<string>)
    requires StrictlyAscending(s) && x !in s
    ensures StrictlyAscending(Insert(x, s))
  {
    var r := Insert(x, s);
    if s == [] {
    } else if !Less(s[0], x) {
      LessTotal(x, s[0]);
      forall j | 0 < j < |r| ensures Less(r[0], r[j]) {
        if j > 1 {
          LessTransitive(x, s[0], s[j - 1]);
        }
      }
    } else {
      InsertAscending(x, s[1..]);
      InsertPermutes(x, s[1..]);
      var t := Insert(x, s[1..]);
      forall j | 0 <= j < |t| ensures Less(s[0], t[j]) {
        assert t[j] in multiset(t);
        if t[j] != x {
          assert t[j] in multiset(s[1..]);
          var k :| 0 <= k < |s[1..]| && s[1..][k] == t[j];
          assert s[k + 1] == t[j];
        }
      }
    }
  }

  /** Sorting a duplicate-free sequence yields a strictly ascending one. */
  lemma {:induction false} SortAscending(s: seq<string>)
    requires NoDuplicates(s)
    ensures StrictlyAscending(Sort(s))
  {
    if s != [] {
      assert NoDuplicates(s[1..]);
      SortAscending(s[1..]);
      SortPermutes(s[1..]);
      assert s[0] !in s[1..] by {
        forall k | 0 <= k < |s[1..]| ensures s[1..][k] != s[0] {
          assert s[k + 1] != s[0];
        }
      }
      assert s[0] !in multiset(Sort(s[1..]));
      InsertAscending(s[0], Sort(s[1..]));
    }
  }

  lemma NonEmptyShared(a: seq<string>, b: seq<string>)
    requires forall x :: x in a ==> x in b
    ensures a != [] ==> b != []
  {
    if a != [] {
      assert a[0] in b;
    }
  }

  /** A strictly ascending sequence is determined by the set of its elements. */
  lemma {:induction false} AscendingUnique(a: seq<string>, b: seq<string>)
    requires StrictlyAscending(a) && StrictlyAscending(b)
    requires forall x :: x in a <==> x in b
    ensures a == b
    decreases |a|
  {
    NonEmptyShared(a, b);
    NonEmptyShared(b, a);
    if a != [] {
      if a[0] != b[0] {
        assert a[0] in b && b[0] in a;
        var k :| 0 <= k < |b| && b[k] == a[0];
        var m :| 0 <= m < |a| && a[m] == b[0];
        assert k > 0 && m > 0;
        LessAsymmetric(b[0], a[0]);
      }
      forall x ensures x in a[1..] <==> x in b[1..] {
        if x in a[1..] {
          var k :| 0 <= k < |a[1..]| && a[1..][k] == x;
          LessIrreflexive(x);
          assert x != a[0] by { assert Less(a[0], a[k + 1]); }
          assert x in b;
        }
        if x in b[1..] {
          var k :| 0 <= k < |b[1..]| && b[1..][k] == x;
          LessIrreflexive(x);
          assert x != b[0] by { assert Less(b[0], b[k + 1]); }
          assert x in a;
        }
      }
      AscendingUnique(a[1..], b[1..]);
      assert a == [a[0]] + a[1..] && b == [b[0]] + b[1..];
    }
  }
}
