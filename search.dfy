/** The in-memory search of the directory page: query normalisation, the
    projection of a record onto its searchable strings, the match predicate,
    the stable filter and the tokens handed to the highlighter. */
module Search {
  import opened Optional
  import opened Text
  import opened Seqs
  import opened Records

  /** The search terms: the query trimmed, lower-cased and split on runs of
      whitespace. A blank query gives the single empty term `""`. */
  function Terms(searchTerm: string): (terms: seq<string>)
    ensures |terms| >= 1
  {
    Split(Lower(Trim(searchTerm)))
  }

  /** Every term is free of whitespace and already lower-case. */
  lemma TermsAreLowerWords(searchTerm: string)
    ensures forall p :: 0 <= p < |Terms(searchTerm)| ==>
      NoSpace(Terms(searchTerm)[p]) && IsLower(Terms(searchTerm)[p])
  {
    LowerIsLower(Trim(searchTerm));
    SplitKeepsLower(Lower(Trim(searchTerm)), 0);
  }

  /** Every piece of the split of a lower-case string is lower-case. */
  lemma {:induction false} SplitKeepsLower(s: string, i: nat)
    requires i <= |s| && IsLower(s)
    ensures forall p :: 0 <= p < |SplitFrom(s, i)| ==> IsLower(SplitFrom(s, i)[p])
    decreases |s| - i
  {
    var j := WordEnd(s, i);
    LowerSliceIsLower(s, i, j);
    if j == |s| {
      assert s[i..j] == s[i..];
      assert SplitFrom(s, i) == [s[i..j]];
    } else {
      var m := SpaceEnd(s, j + 1);
      SplitKeepsLower(s, m);
      var r := SplitFrom(s, i);
      assert r == [s[i..j]] + SplitFrom(s, m);
      forall p | 0 < p < |r| ensures IsLower(r[p]) {
        assert r[p] == SplitFrom(s, m)[p - 1];
      }
    }
  }

  /** A slice of a lower-case string is lower-case. */
  lemma LowerSliceIsLower(s: string, i: nat, j: nat)
    requires i <= j <= |s| && IsLower(s)
    ensures IsLower(s[i..j])
  {
    forall k | 0 <= k < j - i
      ensures LowerChar(s[i..j][k]) == s[i..j][k]
    {
      assert s[i..j][k] == s[i + k];
    }
  }

  /** `x || ''`: an absent string counts as the empty string. */
  function OrEmpty(x: Option<string>): (r: string)
    ensures x.Some? ==> r == x.value
    ensures x.None? ==> r == []
  {
    x.GetOr("")
  }

  /** `(yearsOfExperience || 0).toString()`: an absent or empty value counts
      as `"0"`, since both are falsy. */
  function YearsText(years: Option<string>): (r: string)
    ensures r != []
    ensures years.Some? && years.value != [] ==> r == years.value
    ensures years.None? || years.value == [] ==> r == "0"
  {
    match years
    case Some(y) => if y == [] then "0" else y
    case None => "0"
  }

  /** `specialties || []`. */
  function SpecialtyList(a: Advocate): (r: seq<string>)
    ensures a.specialties.Some? ==> r == a.specialties.value
    ensures a.specialties.None? ==> r == []
  {
    a.specialties.GetOr([])
  }

  /** The searchable strings of a record, lower-cased: the six scalar fields,
      then each specialty on its own, in order. */
  function Projection(a: Advocate): (fields: seq<string>)
    ensures |fields| == 6 + |SpecialtyList(a)|
    ensures forall j :: 0 <= j < |fields| ==> IsLower(fields[j])
    ensures fields[4] != []
  {
    var scalars := [OrEmpty(a.firstName), OrEmpty(a.lastName), OrEmpty(a.city), OrEmpty(a.degree),
                    YearsText(a.yearsOfExperience), OrEmpty(a.phoneNumber)];
    var all := scalars + SpecialtyList(a);
    seq(|all|, j requires 0 <= j < |all| => Lower(all[j]))
  }

  /** The record satisfies every term: each term is a substring of at least one
      projected string. */
  predicate Keeps(a: Advocate, terms: seq<string>) {
    forall t :: t in terms ==> exists f :: f in Projection(a) && Contains(f, t)
  }

  /** The records kept by a list of terms, in their original order. */
  function FilterByTerms(advocates: seq<Advocate>, terms: seq<string>): (r: seq<Advocate>)
    ensures IsSubsequence(r, advocates)
    ensures forall a :: a in r <==> a in advocates && Keeps(a, terms)
  {
    Filter(advocates, a => Keeps(a, terms))
  }

  /** The page's filter: the records matching the search box, in order. */
  function FilterAdvocates(advocates: seq<Advocate>, searchTerm: string): (r: seq<Advocate>)
    ensures IsSubsequence(r, advocates)
    ensures forall a :: a in r <==> a in advocates && Keeps(a, Terms(searchTerm))
  {
    FilterByTerms(advocates, Terms(searchTerm))
  }

  /** The tokens given to the highlighter: the search terms without empty ones. */
  function HighlightTokens(searchTerm: string): (tokens: seq<string>)
    ensures forall t :: t in tokens ==> t != [] && t in Terms(searchTerm)
  {
    Filter(Terms(searchTerm), NonEmpty)
  }

  // ---------------------------------------------------------------- lemmas

  /** A blank search has the single empty term. */
  lemma TermsOfBlank(searchTerm: string)
    requires IsBlank(searchTerm)
    ensures Terms(searchTerm) == [""]
  {
    TrimEmptyIffBlank(searchTerm);
  }

  /** A search that is not blank has only non-empty terms. */
  lemma TermsOfNonBlank(searchTerm: string)
    requires !IsBlank(searchTerm)
    ensures forall t :: t in Terms(searchTerm) ==> t != []
  {
    var trimmed := Trim(searchTerm);
    TrimEmptyIffBlank(searchTerm);
    TrimEnds(searchTerm);
    LowerKeepsSpace(trimmed[0]);
    LowerKeepsSpace(trimmed[|trimmed| - 1]);
    SplitOfTrimmed(Lower(trimmed));
  }

  /** The empty term is a substring of every record's first projected string. */
  lemma KeepsEveryoneOnEmptyTerm(a: Advocate)
    ensures Keeps(a, [""])
  {
    ContainsEmpty(Projection(a)[0]);
  }

  /** An empty or whitespace-only search keeps every record, in order. */
  lemma BlankSearchKeepsAll(advocates: seq<Advocate>, searchTerm: string)
    requires IsBlank(searchTerm)
    ensures FilterAdvocates(advocates, searchTerm) == advocates
  {
    TermsOfBlank(searchTerm);
    forall a | a in advocates
      ensures Keeps(a, [""])
    {
      KeepsEveryoneOnEmptyTerm(a);
    }
    FilterAll(advocates, a => Keeps(a, [""]));
  }

  /** Terms combine by conjunction: a record satisfies two term lists together
      exactly when it satisfies each. */
  lemma KeepsConjunction(a: Advocate, terms1: seq<string>, terms2: seq<string>)
    ensures Keeps(a, terms1 + terms2) <==> Keeps(a, terms1) && Keeps(a, terms2)
  {
    assert forall t :: t in terms1 + terms2 <==> t in terms1 || t in terms2;
  }

  /** Adding terms filters the previous result further, so it never enlarges it. */
  lemma MoreTermsNarrow(advocates: seq<Advocate>, terms1: seq<string>, terms2: seq<string>)
    ensures FilterByTerms(advocates, terms1 + terms2)
         == FilterByTerms(FilterByTerms(advocates, terms1), terms2)
    ensures IsSubsequence(FilterByTerms(advocates, terms1 + terms2), FilterByTerms(advocates, terms1))
  {
    var f := a => Keeps(a, terms1);
    var g := a => Keeps(a, terms2);
    var both := a => Keeps(a, terms1 + terms2);
    assert FilterByTerms(advocates, terms1) == Filter(advocates, f);
    assert FilterByTerms(FilterByTerms(advocates, terms1), terms2) == Filter(Filter(advocates, f), g);
    assert FilterByTerms(advocates, terms1 + terms2) == Filter(advocates, both);
    forall a | a in advocates
      ensures both(a) == (f(a) && g(a))
    {
      KeepsConjunction(a, terms1, terms2);
    }
    FilterFilter(advocates, f, g, both);
  }

  /** The search does not depend on the case of the query. */
  lemma SearchIgnoresQueryCase(advocates: seq<Advocate>, q1: string, q2: string)
    requires Lower(q1) == Lower(q2)
    ensures Terms(q1) == Terms(q2)
    ensures FilterAdvocates(advocates, q1) == FilterAdvocates(advocates, q2)
  {
    LowerTrimCommute(q1);
    LowerTrimCommute(q2);
  }

  /** A record with every string lower-cased. */
  function Folded(a: Advocate): Advocate {
    Advocate(
      LowerOpt(a.firstName), LowerOpt(a.lastName), LowerOpt(a.city), LowerOpt(a.degree),
      match a.specialties
      case None => None
      case Some(xs) => Some(seq(|xs|, j requires 0 <= j < |xs| => Lower(xs[j]))),
      LowerOpt(a.yearsOfExperience), LowerOpt(a.phoneNumber))
  }

  function LowerOpt(x: Option<string>): Option<string> {
    match x
    case None => None
    case Some(s) => Some(Lower(s))
  }

  /** Lower-casing a record does not change what it projects to. */
  lemma ProjectionOfFolded(a: Advocate)
    ensures Projection(Folded(a)) == Projection(a)
  {
    var p, q := Projection(Folded(a)), Projection(a);
    assert |p| == |q|;
    forall j | 0 <= j < |p|
      ensures p[j] == q[j]
    {
      if j < 6 {
        LowerIsLower(OrEmpty(a.firstName));
        LowerIsLower(OrEmpty(a.lastName));
        LowerIsLower(OrEmpty(a.city));
        LowerIsLower(OrEmpty(a.degree));
        LowerIsLower(YearsText(a.yearsOfExperience));
        LowerIsLower(OrEmpty(a.phoneNumber));
      } else {
        LowerIsLower(SpecialtyList(a)[j - 6]);
      }
    }
  }

  /** Two records that differ only in letter case are kept or dropped together. */
  lemma KeepsIgnoresRecordCase(a: Advocate, b: Advocate, terms: seq<string>)
    requires Folded(a) == Folded(b)
    ensures Keeps(a, terms) == Keeps(b, terms)
  {
    ProjectionOfFolded(a);
    ProjectionOfFolded(b);
  }

  /** A blank search yields no highlight tokens. */
  lemma HighlightTokensOfBlank(searchTerm: string)
    requires IsBlank(searchTerm)
    ensures HighlightTokens(searchTerm) == []
  {
    TermsOfBlank(searchTerm);
    assert HighlightTokens(searchTerm) == Filter(Terms(searchTerm), NonEmpty);
    FilterNone(Terms(searchTerm), NonEmpty);
  }

  /** Any other search yields exactly its terms as highlight tokens. */
  lemma HighlightTokensOfNonBlank(searchTerm: string)
    requires !IsBlank(searchTerm)
    ensures HighlightTokens(searchTerm) == Terms(searchTerm)
  {
    TermsOfNonBlank(searchTerm);
    FilterAll(Terms(searchTerm), NonEmpty);
  }

  /** A record with every field missing projects to four empty strings, the
      years as `"0"`, an empty phone number and no specialties. */
  lemma ProjectionOfEmptyRecord()
    ensures Projection(Advocate(None, None, None, None, None, None, None)) == ["", "", "", "", "0", ""]
  {
    assert Lower("0") == "0";
  }

  /** Specialties are searched one by one: `bc` straddles the specialties
      `ab` and `cd` but occurs in neither, so the record is not kept. */
  lemma SpecialtiesMatchOneByOne()
    ensures !Keeps(Advocate(None, None, None, None, Some(["ab", "cd"]), Some("1"), None), ["bc"])
  {
    var a := Advocate(None, None, None, None, Some(["ab", "cd"]), Some("1"), None);
    assert Lower("1") == "1" && Lower("ab") == "ab" && Lower("cd") == "cd";
    assert Projection(a) == ["", "", "", "", "1", "", "ab", "cd"];
    forall k | 0 <= k <= 2 ensures !OccursAt("bc", "ab", k) && !OccursAt("bc", "cd", k) {
      if k == 0 {
        assert "ab"[0..2][0] != "bc"[0] && "cd"[0..2][0] != "bc"[0];
      }
    }
    assert !Contains("ab", "bc") && !Contains("cd", "bc");
    forall f | f in Projection(a) ensures !Contains(f, "bc") {
      if |f| < 2 {
        assert forall k :: 0 <= k <= |f| ==> !OccursAt("bc", f, k);
      }
    }
    assert "bc" in ["bc"];
  }

  /** A query that is one lower-case word is its own single term. */
  lemma TermsOfWord(w: string)
    requires NoSpace(w) && IsLower(w)
    ensures Terms(w) == [w]
  {
    TrimAndSplitOfWord(w);
    assert Lower(w) == w;
  }

  /** The projection lists, lower-cased, the first name, last name, city and
      degree (`""` when missing), the years of experience (`"0"` when missing
      or empty), the phone number (`""` when missing), then every specialty in
      order. */
  lemma ScalarFields(a: Advocate)
    ensures Projection(a)[..6] == [Lower(OrEmpty(a.firstName)), Lower(OrEmpty(a.lastName)),
      Lower(OrEmpty(a.city)), Lower(OrEmpty(a.degree)), Lower(YearsText(a.yearsOfExperience)),
      Lower(OrEmpty(a.phoneNumber))]
  {
  }

  lemma SpecialtyFields(a: Advocate)
    ensures forall i :: 0 <= i < |SpecialtyList(a)| ==> Projection(a)[6 + i] == Lower(SpecialtyList(a)[i])
  {
  }
}
