/** How the page's in-memory search and the route's SQL filter relate. They
    return the same records when every record has a non-empty
    yearsOfExperience and no search word holds `%`, `_` or `\`. Without those
    conditions they can differ, and concrete records below show both ways. */
module Agreement {
  import opened Optional
  import opened Text
  import opened Seqs
  import opened Records
  import opened Search
  import opened Query

  /** The one field whose absence the two sides treat differently: the page
      reads a missing or empty yearsOfExperience as `"0"`, the database sees NULL. */
  predicate YearsPresent(a: Advocate) {
    a.yearsOfExperience.Some? && a.yearsOfExperience.value != []
  }

  /** The route and the page derive the same words from the same query. */
  lemma SameTerms(q: string)
    ensures QueryTerms(Some(q)) == Terms(q)
  {
  }

  lemma ContainsNeedsRoom(s: string, t: string)
    requires Contains(s, t)
    ensures |t| <= |s|
  {
  }

  /** The first six conditions of a word's clause test the first six projected
      strings: a NULL column projects to `""` (for the years, which project to
      `"0"` when missing, the years must be present) and its condition is unknown,
      otherwise the condition holds exactly when the projected string is LIKE
      the pattern. */
  lemma ScalarCondition(a: Advocate, t: string, j: nat)
    requires j < 6
    requires j == 4 ==> YearsPresent(a)
    ensures TermClause(t).conditions[j].Like?
    ensures ColumnText(a, TermClause(t).conditions[j].column).None? ==>
      Projection(a)[j] == [] && EvalCondition(TermClause(t).conditions[j], a) == Unknown
    ensures ColumnText(a, TermClause(t).conditions[j].column).Some? ==>
      (EvalCondition(TermClause(t).conditions[j], a) == True <==> LikeMatch(Projection(a)[j], Pattern(t)))
  {
    ScalarFields(a);
    assert Projection(a)[j] == Projection(a)[..6][j];
    assert Lower([]) == [];
  }

  /** The last condition of a word's clause holds exactly when one of the
      projected specialties is LIKE the pattern. */
  lemma SpecialtiesCondition(a: Advocate, t: string)
    ensures TermClause(t).conditions[6] == SpecialtiesLike(Pattern(t))
    ensures EvalCondition(TermClause(t).conditions[6], a) == True <==>
      exists j :: 6 <= j < |Projection(a)| && LikeMatch(Projection(a)[j], Pattern(t))
  {
    assert TermClause(t).conditions[6] == SpecialtiesLike(Pattern(t));
    SpecialtiesLikeIff(a, Pattern(t));
  }

  lemma SpecialtiesLikeIff(a: Advocate, pat: string)
    ensures EvalCondition(SpecialtiesLike(pat), a) == True <==>
      exists j :: 6 <= j < |Projection(a)| && LikeMatch(Projection(a)[j], pat)
  {
    if a.specialties.Some? {
      SpecialtyFields(a);
      SomeSpecialtyMatches(Projection(a), a.specialties.value, pat);
    }
  }

  lemma SomeSpecialtyMatches(p: seq<string>, xs: seq<string>, pat: string)
    requires |p| == 6 + |xs|
    requires forall i :: 0 <= i < |xs| ==> p[6 + i] == Lower(xs[i])
    ensures (exists x :: x in xs && LikeMatch(Lower(x), pat)) <==>
      exists j :: 6 <= j < |p| && LikeMatch(p[j], pat)
  {
    if exists x :: x in xs && LikeMatch(Lower(x), pat) {
      var x :| x in xs && LikeMatch(Lower(x), pat);
      var i :| 0 <= i < |xs| && xs[i] == x;
      assert p[6 + i] == Lower(x);
    }
    if exists j :: 6 <= j < |p| && LikeMatch(p[j], pat) {
      var j :| 6 <= j < |p| && LikeMatch(p[j], pat);
      assert p[6 + (j - 6)] == Lower(xs[j - 6]);
      assert xs[j - 6] in xs;
    }
  }

  /** For a literal word, the word's clause is TRUE on a record exactly when
      the word occurs in one of the record's projected strings. */
  lemma ClauseAgrees(a: Advocate, t: string)
    requires YearsPresent(a)
    requires t != [] && Literal(t)
    ensures EvalAny(TermClause(t).conditions, a) == True <==>
      exists f :: f in Projection(a) && Contains(f, t)
  {
    ClauseSound(a, t);
    if exists f :: f in Projection(a) && Contains(f, t) {
      ClauseAccepts(a, t);
    }
  }

  /** For a literal word, a TRUE clause means the word occurs in one of the
      record's projected strings. */
  lemma ClauseSound(a: Advocate, t: string)
    requires YearsPresent(a)
    requires Literal(t)
    ensures EvalAny(TermClause(t).conditions, a) == True ==>
      exists f :: f in Projection(a) && Contains(f, t)
  {
    var conds := TermClause(t).conditions;
    var p := Projection(a);
    if EvalAny(conds, a) == True {
      AnyIsTrueIff(conds, a);
      var c :| c in conds && EvalCondition(c, a) == True;
      var j :| 0 <= j < 7 && conds[j] == c;
      var k: nat;
      if j < 6 {
        ScalarCondition(a, t, j);
        k := j;
      } else {
        SpecialtiesCondition(a, t);
        k :| 6 <= k < |p| && LikeMatch(p[k], Pattern(t));
      }
      LikeContains(p[k], t);
      assert p[k] in p;
    }
  }

  /** For an escape-free word, a word the page finds in a record also makes
      the word's clause TRUE: `%` and `_` in the word still match themselves. */
  lemma ClauseAccepts(a: Advocate, t: string)
    requires YearsPresent(a)
    requires t != [] && NoEscape(t)
    requires exists f :: f in Projection(a) && Contains(f, t)
    ensures EvalAny(TermClause(t).conditions, a) == True
  {
    var conds := TermClause(t).conditions;
    var p := Projection(a);
    AnyIsTrueIff(conds, a);
    var f :| f in p && Contains(f, t);
    var j :| 0 <= j < |p| && p[j] == f;
    LikeAcceptsOccurrence(f, t);
    ContainsNeedsRoom(f, t);
    if j < 6 {
      ScalarCondition(a, t, j);
      assert conds[j] in conds;
    } else {
      SpecialtiesCondition(a, t);
      assert conds[6] in conds;
    }
  }

  /** For a record with its yearsOfExperience and a query of literal words, the
      route returns the record exactly when the page keeps it. */
  lemma RecordAgrees(a: Advocate, q: string)
    requires YearsPresent(a)
    requires forall t :: t in Terms(q) ==> Literal(t)
    ensures Selected(Compile(Some(q)), a) <==> Keeps(a, Terms(q))
  {
    if Selected(Compile(Some(q)), a) {
      RecordSound(a, q);
    }
    if Keeps(a, Terms(q)) {
      RecordAccepted(a, q);
    }
  }

  /** For literal words, a record the route returns is one the page keeps. */
  lemma RecordSound(a: Advocate, q: string)
    requires YearsPresent(a)
    requires forall t :: t in Terms(q) ==> Literal(t)
    requires Selected(Compile(Some(q)), a)
    ensures Keeps(a, Terms(q))
  {
    if IsBlank(q) {
      TermsOfBlank(q);
      KeepsEveryoneOnEmptyTerm(a);
    } else {
      SameTerms(q);
      SelectedIffEveryClause(Some(q), a);
      forall t | t in Terms(q)
        ensures exists f :: f in Projection(a) && Contains(f, t)
      {
        ClauseSound(a, t);
      }
    }
  }

  /** For escape-free words, every record the page keeps is returned by the
      route too (the route may return more, through `%` and `_`). */
  lemma RecordAccepted(a: Advocate, q: string)
    requires YearsPresent(a)
    requires forall t :: t in Terms(q) ==> NoEscape(t)
    requires Keeps(a, Terms(q))
    ensures Selected(Compile(Some(q)), a)
  {
    if IsBlank(q) {
      assert Compile(Some(q)).Unfiltered?;
    } else {
      SameTerms(q);
      TermsOfNonBlank(q);
      EveryClauseAccepts(a, Terms(q));
      SelectedWhenEveryClause(Some(q), a);
    }
  }

  /** Each word the page finds in a record makes that word's clause TRUE. */
  lemma EveryClauseAccepts(a: Advocate, terms: seq<string>)
    requires YearsPresent(a)
    requires forall t :: t in terms ==> t != [] && NoEscape(t)
    requires Keeps(a, terms)
    ensures forall t :: t in terms ==> EvalAny(TermClause(t).conditions, a) == True
  {
    forall t | t in terms
      ensures EvalAny(TermClause(t).conditions, a) == True
    {
      ClauseAccepts(a, t);
    }
  }

  /** Under the same conditions the route's result set is the page's, in the
      same order. */
  lemma RouteAgreesWithPage(rows: seq<Advocate>, q: string)
    requires forall a :: a in rows ==> YearsPresent(a)
    requires forall t :: t in Terms(q) ==> Literal(t)
    ensures QueryRows(rows, Some(q)) == FilterAdvocates(rows, q)
  {
    var selected := a => Selected(Compile(Some(q)), a);
    var keeps := a => Keeps(a, Terms(q));
    assert QueryRows(rows, Some(q)) == Filter(rows, selected);
    assert FilterAdvocates(rows, q) == Filter(rows, keeps);
    forall a | a in rows
      ensures selected(a) == keeps(a)
    {
      RecordAgrees(a, q);
    }
    FilterCongruent(rows, selected, keeps);
  }

  /** For escape-free words the page's result is contained in the route's. */
  lemma PageResultsAreReturned(rows: seq<Advocate>, q: string)
    requires forall a :: a in rows ==> YearsPresent(a)
    requires forall t :: t in Terms(q) ==> NoEscape(t)
    ensures forall a :: a in FilterAdvocates(rows, q) ==> a in QueryRows(rows, Some(q))
  {
    forall a | a in FilterAdvocates(rows, q)
      ensures a in QueryRows(rows, Some(q))
    {
      RecordAccepted(a, q);
    }
  }

  /** Without its yearsOfExperience the two sides part: searching "0" keeps
      the record on the page, which reads the years as `"0"`, but not in the
      database, where every test on a NULL column is unknown. */
  lemma MissingYearsDiverge()
    ensures Keeps(Advocate(None, None, None, None, None, None, None), Terms("0"))
    ensures !Selected(Compile(Some("0")), Advocate(None, None, None, None, None, None, None))
  {
    OneWordQuery(Advocate(None, None, None, None, None, None, None), "0");
    EmptyRecordKept();
    EmptyRecordNotSelected();
  }

  /** A query of one word is that word on both sides. */
  lemma OneWordQuery(a: Advocate, w: string)
    requires w != [] && NoSpace(w) && IsLower(w)
    ensures Keeps(a, Terms(w)) <==> Keeps(a, [w])
    ensures Selected(Compile(Some(w)), a) <==> Selected(AllOf([TermClause(w)]), a)
  {
    TermsOfWord(w);
    CompileOfWord(w);
  }

  lemma EmptyRecordKept()
    ensures Keeps(Advocate(None, None, None, None, None, None, None), ["0"])
  {
    var a := Advocate(None, None, None, None, None, None, None);
    ProjectionOfEmptyRecord();
    assert OccursAt("0", "0", 0);
    assert "0" in Projection(a) && Contains("0", "0");
    forall t | t in ["0"] ensures exists f :: f in Projection(a) && Contains(f, t) {
      assert t == "0";
    }
  }

  lemma EmptyRecordNotSelected()
    ensures !Selected(AllOf([TermClause("0")]), Advocate(None, None, None, None, None, None, None))
  {
    var a := Advocate(None, None, None, None, None, None, None);
    assert EvalAny(TermClause("0").conditions, a) == Unknown;
  }

  /** With `_` in a word the two sides part the other way: "a_c" selects the
      record named "abc" in the database, while the page finds no "a_c" in it. */
  lemma UnderscoreDiverges()
    ensures Selected(Compile(Some("a_c")), Advocate(Some("abc"), None, None, None, None, Some("1"), None))
    ensures !Keeps(Advocate(Some("abc"), None, None, None, None, Some("1"), None), Terms("a_c"))
  {
    OneWordQuery(Advocate(Some("abc"), None, None, None, None, Some("1"), None), "a_c");
    AbcSelected();
    AbcNotKept();
  }

  lemma AbcSelected()
    ensures Selected(AllOf([TermClause("a_c")]), Advocate(Some("abc"), None, None, None, None, Some("1"), None))
  {
    assert Lower("abc") == "abc";
    UnderscoreIsAWildcard();
    FirstNameSelects(Advocate(Some("abc"), None, None, None, None, Some("1"), None), "a_c");
  }

  /** A first name LIKE the word's pattern selects the record. */
  lemma FirstNameSelects(a: Advocate, t: string)
    requires a.firstName.Some? && LikeMatch(Lower(a.firstName.value), Pattern(t))
    ensures Selected(AllOf([TermClause(t)]), a)
  {
    var conds := TermClause(t).conditions;
    assert conds[0] == Like(FirstName, Pattern(t));
    assert EvalCondition(conds[0], a) == True;
    AnyIsTrueIff(conds, a);
    assert conds[0] in conds;
    AllIsTrueIff([TermClause(t)], a);
  }

  lemma AbcNotKept()
    ensures !Keeps(Advocate(Some("abc"), None, None, None, None, Some("1"), None), ["a_c"])
  {
    var a := Advocate(Some("abc"), None, None, None, None, Some("1"), None);
    assert Lower("abc") == "abc" && Lower("1") == "1";
    UnderscoreIsAWildcard();
    ScalarFields(a);
    assert Projection(a) == ["abc", "", "", "", "1", ""];
    forall f | f in Projection(a) ensures !Contains(f, "a_c") {
      if |f| < 3 {
        assert forall k :: 0 <= k <= |f| ==> !OccursAt("a_c", f, k);
      }
    }
    assert "a_c" in ["a_c"];
  }
}
