/** The search route: the query string is turned into an SQL `WHERE` clause
    (one clause per word, each an `OR` of `LIKE` tests over the record's
    columns and specialties, the clauses joined by `AND`), and the database
    returns the rows for which that clause is TRUE. The clause is modelled as a
    datatype, SQL's three-valued logic and `LIKE` are modelled explicitly. */
module Query {
  import opened Optional
  import opened Text
  import opened Seqs
  import opened Records

  // ---------------------------------------------------------------- SQL truth

  /** SQL truth values: a comparison with NULL is neither true nor false. */
  datatype Truth = True | False | Unknown

  function FromBool(b: bool): Truth {
    if b then True else False
  }

  /** Kleene disjunction, as SQL's `OR`. */
  function Or3(x: Truth, y: Truth): (r: Truth)
    ensures r == True <==> x == True || y == True
    ensures r == False <==> x == False && y == False
  {
    if x == True || y == True then True
    else if x == False && y == False then False
    else Unknown
  }

  /** Kleene conjunction, as SQL's `AND`. */
  function And3(x: Truth, y: Truth): (r: Truth)
    ensures r == True <==> x == True && y == True
    ensures r == False <==> x == False || y == False
  {
    if x == False || y == False then False
    else if x == True && y == True then True
    else Unknown
  }

  // ---------------------------------------------------------------- LIKE

  /** `s LIKE p` with PostgreSQL's defaults: `%` matches any run of characters,
      `_` exactly one, and `\` makes the next pattern character literal. A pattern
      ending in a lone `\` is an error in PostgreSQL; here it matches nothing
      (the route's patterns always end in `%`, so they never end that way). */
  function LikeMatch(s: string, p: string): bool
    decreases |s| + |p|
  {
    if p == [] then s == []
    else if p[0] == '%' then LikeMatch(s, p[1..]) || (s != [] && LikeMatch(s[1..], p))
    else if p[0] == '_' then s != [] && LikeMatch(s[1..], p[1..])
    else if p[0] == '\\' then
      |p| >= 2 && s != [] && s[0] == p[1] && LikeMatch(s[1..], p[2..])
    else s != [] && s[0] == p[0] && LikeMatch(s[1..], p[1..])
  }

  /** A term in which no character is special to `LIKE`. */
  predicate Literal(t: string) {
    forall i :: 0 <= i < |t| ==> t[i] != '%' && t[i] != '_' && t[i] != '\\'
  }

  /** A term without the escape character (`%` and `_` may occur). */
  predicate NoEscape(t: string) {
    forall i :: 0 <= i < |t| ==> t[i] != '\\'
  }

  /** `'%' || term || '%'`. */
  function Pattern(t: string): (p: string)
    ensures |p| == |t| + 2 && p[0] == '%' && p[|p| - 1] == '%'
    ensures p[1..|p| - 1] == t
  {
    "%" + t + "%"
  }

  lemma {:induction false} LikeAnything(s: string)
    ensures LikeMatch(s, "%")
    decreases |s|
  {
    assert "%"[1..] == [];
    if s != [] {
      LikeAnything(s[1..]);
    }
  }

  /** `t || '%'` with a literal `t` matches exactly the strings that start with `t`. */
  lemma {:induction false} LikeLiteralPrefix(s: string, t: string)
    requires Literal(t)
    ensures LikeMatch(s, t + "%") <==> |t| <= |s| && s[..|t|] == t
    decreases |t|
  {
    if t == [] {
      assert t + "%" == "%";
      LikeAnything(s);
    } else {
      var p := t + "%";
      assert p[0] == t[0] && p[1..] == t[1..] + "%";
      assert Literal(t[1..]) by {
        forall i | 0 <= i < |t[1..]| ensures t[1..][i] != '%' && t[1..][i] != '_' && t[1..][i] != '\\' {
          assert t[1..][i] == t[i + 1];
        }
      }
      if s != [] {
        LikeLiteralPrefix(s[1..], t[1..]);
        if |t| <= |s| {
          assert s[..|t|] == [s[0]] + s[1..][..|t| - 1];
          assert t == [t[0]] + t[1..];
        }
      }
    }
  }

  /** A leading `%` lets the rest of the pattern match any suffix. */
  lemma {:induction false} LikeLeadingPercent(s: string, q: string)
    ensures LikeMatch(s, "%" + q) <==> exists k :: 0 <= k <= |s| && LikeMatch(s[k..], q)
    decreases |s|
  {
    var p := "%" + q;
    assert p[0] == '%' && p[1..] == q;
    assert s[0..] == s;
    if s != [] {
      LikeLeadingPercent(s[1..], q);
      if exists k :: 0 <= k <= |s| && LikeMatch(s[k..], q) {
        var k :| 0 <= k <= |s| && LikeMatch(s[k..], q);
        if k > 0 {
          assert s[1..][k - 1..] == s[k..];
        }
      }
      if exists k :: 0 <= k <= |s[1..]| && LikeMatch(s[1..][k..], q) {
        var k :| 0 <= k <= |s[1..]| && LikeMatch(s[1..][k..], q);
        assert s[1..][k..] == s[k + 1..];
      }
    }
  }

  /** For a term with no special character, `s LIKE '%' || t || '%'` is exactly
      "t occurs in s". */
  lemma LikeContains(s: string, t: string)
    requires Literal(t)
    ensures LikeMatch(s, Pattern(t)) <==> Contains(s, t)
  {
    assert Pattern(t) == "%" + (t + "%");
    LikeLeadingPercent(s, t + "%");
    forall k | 0 <= k <= |s|
      ensures LikeMatch(s[k..], t + "%") <==> OccursAt(t, s, k)
    {
      LikeLiteralPrefix(s[k..], t);
      if k + |t| <= |s| {
        assert s[k..][..|t|] == s[k..k + |t|];
      }
    }
  }

  /** A pattern without escapes matches its own text, and anything after it
      when it ends in `%`: `%` and `_` in the term still match themselves. */
  lemma {:induction false} LikeAcceptsPrefix(s: string, t: string)
    requires NoEscape(t)
    requires |t| <= |s| && s[..|t|] == t
    ensures LikeMatch(s, t + "%")
    decreases |t|
  {
    var p := t + "%";
    if t == [] {
      assert p == "%";
      LikeAnything(s);
    } else {
      assert p[0] == t[0] && p[1..] == t[1..] + "%";
      assert s[0] == t[0];
      assert NoEscape(t[1..]) by {
        forall i | 0 <= i < |t[1..]| ensures t[1..][i] != '\\' {
          assert t[1..][i] == t[i + 1];
        }
      }
      assert s[1..][..|t| - 1] == t[1..];
      LikeAcceptsPrefix(s[1..], t[1..]);
      if t[0] == '%' {
        // `%` takes the one character `s[0]`, then gives way to the rest.
        assert LikeMatch(s[1..], p[1..]);
        assert LikeMatch(s[1..], p);
      }
    }
  }

  /** Every occurrence of an escape-free term is accepted by its pattern. */
  lemma LikeAcceptsOccurrence(s: string, t: string)
    requires NoEscape(t)
    requires Contains(s, t)
    ensures LikeMatch(s, Pattern(t))
  {
    var k :| 0 <= k <= |s| && OccursAt(t, s, k);
    assert s[k..][..|t|] == s[k..k + |t|];
    LikeAcceptsPrefix(s[k..], t);
    assert Pattern(t) == "%" + (t + "%");
    LikeLeadingPercent(s, t + "%");
  }

  // ---------------------------------------------------------------- clauses

  /** The scalar columns the route searches. */
  datatype Column = FirstName | LastName | City | Degree | YearsOfExperience | PhoneNumber

  /** One test inside a term's clause. */
  datatype Condition =
    | Like(column: Column, pattern: string)   // LOWER(CAST(column AS TEXT)) LIKE pattern
    | SpecialtiesLike(pattern: string)        // the specialties array has an element whose LOWER is LIKE pattern

  /** A term's clause: its conditions joined by `OR`. */
  datatype Clause = AnyOf(conditions: seq<Condition>)

  /** The query: no `WHERE` at all, or the term clauses joined by `AND`. */
  datatype Where = Unfiltered | AllOf(clauses: seq<Clause>)

  /** The column's text, or NULL. */
  function ColumnText(a: Advocate, c: Column): Option<string> {
    match c
    case FirstName => a.firstName
    case LastName => a.lastName
    case City => a.city
    case Degree => a.degree
    case YearsOfExperience => a.yearsOfExperience
    case PhoneNumber => a.phoneNumber
  }

  /** The truth of one condition on one row. A NULL column makes its `LIKE`
      unknown. For a NULL specialties value, `jsonb_typeof` is NULL and the
      `EXISTS` over no elements is false, so the conjunction is false. */
  function EvalCondition(c: Condition, a: Advocate): (r: Truth)
    ensures c.SpecialtiesLike? ==> r != Unknown
    ensures c.Like? ==> (r == Unknown <==> ColumnText(a, c.column).None?)
  {
    match c
    case Like(col, p) =>
      (match ColumnText(a, col)
       case None => Unknown
       case Some(v) => FromBool(LikeMatch(Lower(v), p)))
    case SpecialtiesLike(p) =>
      (match a.specialties
       case None => And3(Unknown, False)
       case Some(xs) => FromBool(exists x :: x in xs && LikeMatch(Lower(x), p)))
  }

  function EvalAny(conditions: seq<Condition>, a: Advocate): Truth {
    if conditions == [] then False
    else Or3(EvalCondition(conditions[0], a), EvalAny(conditions[1..], a))
  }

  function EvalAll(clauses: seq<Clause>, a: Advocate): Truth {
    if clauses == [] then True
    else And3(EvalAny(clauses[0].conditions, a), EvalAll(clauses[1..], a))
  }

  function EvalWhere(w: Where, a: Advocate): Truth {
    match w
    case Unfiltered => True
    case AllOf(clauses) => EvalAll(clauses, a)
  }

  /** The database returns a row only when the `WHERE` clause is TRUE. */
  predicate Selected(w: Where, a: Advocate) {
    EvalWhere(w, a) == True
  }

  /** An `OR` is TRUE exactly when one of its conditions is TRUE: an unknown
      condition never makes it true, and never stops another from doing so. */
  lemma {:induction false} AnyIsTrueIff(conditions: seq<Condition>, a: Advocate)
    ensures EvalAny(conditions, a) == True <==>
      exists c :: c in conditions && EvalCondition(c, a) == True
  {
    if conditions != [] {
      AnyIsTrueIff(conditions[1..], a);
      assert conditions == [conditions[0]] + conditions[1..];
    }
  }

  /** An `OR` is FALSE exactly when every condition is FALSE. */
  lemma {:induction false} AnyIsFalseIff(conditions: seq<Condition>, a: Advocate)
    ensures EvalAny(conditions, a) == False <==>
      forall c :: c in conditions ==> EvalCondition(c, a) == False
  {
    if conditions != [] {
      AnyIsFalseIff(conditions[1..], a);
      assert conditions == [conditions[0]] + conditions[1..];
    }
  }

  /** An `AND` is TRUE exactly when every clause is TRUE. */
  lemma {:induction false} AllIsTrueIff(clauses: seq<Clause>, a: Advocate)
    ensures EvalAll(clauses, a) == True <==>
      forall cl :: cl in clauses ==> EvalAny(cl.conditions, a) == True
  {
    if clauses != [] {
      AllIsTrueIff(clauses[1..], a);
      assert clauses == [clauses[0]] + clauses[1..];
    }
  }

  // ---------------------------------------------------------------- compiling

  /** The conditions for one term: each scalar column, then the specialties. */
  function TermClause(t: string): (cl: Clause)
    ensures |cl.conditions| == 7
    ensures forall c :: c in cl.conditions ==> c.pattern == Pattern(t)
  {
    var p := Pattern(t);
    AnyOf([Like(FirstName, p), Like(LastName, p), Like(City, p), Like(Degree, p),
           Like(YearsOfExperience, p), Like(PhoneNumber, p), SpecialtiesLike(p)])
  }

  /** The trimmed, lower-cased `q` parameter; a missing parameter is `""`. It
      is lower-case, and empty exactly when `q` is missing or blank. */
  function QueryText(q: Option<string>): (r: string)
    ensures IsLower(r)
    ensures r == [] <==> IsBlank(q.GetOr(""))
  {
    LowerIsLower(Trim(q.GetOr("")));
    TrimEmptyIffBlank(q.GetOr(""));
    Lower(Trim(q.GetOr("")))
  }

  /** The words of the query, split on runs of whitespace: at least one, and
      none holding whitespace. */
  function QueryTerms(q: Option<string>): (r: seq<string>)
    ensures |r| >= 1
    ensures forall p :: 0 <= p < |r| ==> NoSpace(r[p])
  {
    Split(QueryText(q))
  }

  /** The `WHERE` clause the route builds: none for an empty query, otherwise
      one clause per word. */
  function Compile(q: Option<string>): (w: Where)
    ensures w.Unfiltered? <==> IsBlank(q.GetOr(""))
    ensures w.AllOf? ==> |w.clauses| == |QueryTerms(q)| >= 1
    ensures w.AllOf? ==> forall i :: 0 <= i < |w.clauses| ==>
      w.clauses[i] == TermClause(QueryTerms(q)[i])
  {
    TrimEmptyIffBlank(q.GetOr(""));
    var terms := QueryTerms(q);
    if QueryText(q) == [] then Unfiltered
    else AllOf(seq(|terms|, i requires 0 <= i < |terms| => TermClause(terms[i])))
  }

  /** The rows the route returns, in table order. */
  function QueryRows(rows: seq<Advocate>, q: Option<string>): (r: seq<Advocate>)
    ensures IsSubsequence(r, rows)
    ensures forall a :: a in r <==> a in rows && Selected(Compile(q), a)
  {
    Filter(rows, a => Selected(Compile(q), a))
  }

  // ---------------------------------------------------------------- properties

  /** The words of a non-blank query are non-empty, lower-case and contain no
      whitespace, so every pattern has a non-empty middle. */
  lemma QueryTermsAreWords(q: Option<string>)
    requires !IsBlank(q.GetOr(""))
    ensures forall t :: t in QueryTerms(q) ==> t != [] && NoSpace(t)
  {
    LowerTrimCommute(q.GetOr(""));
    TrimEnds(Lower(q.GetOr("")));
    assert QueryText(q) == Trim(Lower(q.GetOr(""))) && QueryText(q) != [];
    SplitOfTrimmed(QueryText(q));
  }

  /** A query of one lower-case word has that word as its only term and
      compiles to that word's clause alone. */
  lemma CompileOfWord(w: string)
    requires w != [] && NoSpace(w) && IsLower(w)
    ensures QueryTerms(Some(w)) == [w]
    ensures Compile(Some(w)) == AllOf([TermClause(w)])
  {
    TrimAndSplitOfWord(w);
    assert Lower(w) == w;
    assert !IsBlank(w) by {
      assert !IsSpace(w[0]);
    }
    var clauses := Compile(Some(w)).clauses;
    assert |clauses| == 1 && clauses[0] == TermClause(w);
  }

  /** A missing or blank `q` returns every row. */
  lemma BlankQueryReturnsAll(rows: seq<Advocate>, q: Option<string>)
    requires IsBlank(q.GetOr(""))
    ensures QueryRows(rows, q) == rows
  {
    FilterAll(rows, a => Selected(Compile(q), a));
  }

  /** A row is returned exactly when, for every word, one of the word's
      conditions is TRUE on it. */
  lemma SelectedIff(q: Option<string>, a: Advocate)
    requires !IsBlank(q.GetOr(""))
    ensures Selected(Compile(q), a) <==>
      forall t :: t in QueryTerms(q) ==>
        exists c :: c in TermClause(t).conditions && EvalCondition(c, a) == True
  {
    SelectedIffEveryClause(q, a);
    forall t | t in QueryTerms(q)
      ensures EvalAny(TermClause(t).conditions, a) == True <==>
        exists c :: c in TermClause(t).conditions && EvalCondition(c, a) == True
    {
      AnyIsTrueIff(TermClause(t).conditions, a);
    }
  }

  /** A row is returned exactly when every word's clause is TRUE on it. */
  lemma SelectedIffEveryClause(q: Option<string>, a: Advocate)
    requires !IsBlank(q.GetOr(""))
    ensures Selected(Compile(q), a) <==>
      forall t :: t in QueryTerms(q) ==> EvalAny(TermClause(t).conditions, a) == True
  {
    AllIsTrueIff(Compile(q).clauses, a);
    ClausesOfTerms(q);
  }

  /** The clauses of a non-blank query are the clauses of its words. */
  lemma ClausesOfTerms(q: Option<string>)
    requires !IsBlank(q.GetOr(""))
    ensures forall cl :: cl in Compile(q).clauses ==> exists t :: t in QueryTerms(q) && cl == TermClause(t)
    ensures forall t :: t in QueryTerms(q) ==> TermClause(t) in Compile(q).clauses
  {
    var w := Compile(q);
    var terms := QueryTerms(q);
    forall cl | cl in w.clauses
      ensures exists t :: t in terms && cl == TermClause(t)
    {
      var i :| 0 <= i < |w.clauses| && w.clauses[i] == cl;
      assert terms[i] in terms;
    }
    forall t | t in terms
      ensures TermClause(t) in w.clauses
    {
      var i :| 0 <= i < |terms| && terms[i] == t;
      assert w.clauses[i] == TermClause(t);
    }
  }

  /** The half of `SelectedIffEveryClause` that selects a row. */
  lemma SelectedWhenEveryClause(q: Option<string>, a: Advocate)
    requires !IsBlank(q.GetOr(""))
    requires forall t :: t in QueryTerms(q) ==> EvalAny(TermClause(t).conditions, a) == True
    ensures Selected(Compile(q), a)
  {
    SelectedIffEveryClause(q, a);
  }

  /** A NULL column never satisfies its `LIKE`, whatever the pattern. */
  lemma NullNeverMatches(a: Advocate, col: Column, p: string)
    requires ColumnText(a, col).None?
    ensures EvalCondition(Like(col, p), a) == Unknown
  {
  }

  /** `_` in a word is a wildcard to the database: "abc" is found by "a_c",
      though "a_c" does not occur in it. */
  lemma UnderscoreIsAWildcard()
    ensures LikeMatch("abc", Pattern("a_c"))
    ensures !Contains("abc", "a_c")
  {
    var p := Pattern("a_c");
    assert p == "%a_c%";
    assert p[1..] == "a_c%" && p[1..][1..] == "_c%" && p[1..][1..][1..] == "c%";
    assert p[1..][1..][1..][1..] == "%" && "%"[1..] == [];
    assert "abc"[1..] == "bc" && "bc"[1..] == "c" && "c"[1..] == [];
    assert LikeMatch([], "%");
    assert LikeMatch("c", "c%");
    assert LikeMatch("bc", "_c%");
    assert LikeMatch("abc", "a_c%");
    forall k | 0 <= k <= 3 ensures !OccursAt("a_c", "abc", k) {
      if k == 0 {
        assert "abc"[0..3][1] != "a_c"[1];
      }
    }
  }

  /** `\` in a word escapes the next character: the word `a\b` finds "ab",
      though `a\b` does not occur in it. */
  lemma BackslashEscapes()
    ensures LikeMatch("ab", Pattern("a\\b"))
    ensures !Contains("ab", "a\\b")
  {
    var p := Pattern("a\\b");
    assert p == "%a\\b%";
    assert p[1..] == "a\\b%" && p[1..][1..] == "\\b%" && p[1..][1..][2..] == "%";
    assert "%"[1..] == [];
    assert "ab"[1..] == "b" && "b"[1..] == [];
    assert LikeMatch([], "%");
    assert LikeMatch("b", "\\b%");
    assert LikeMatch("ab", "a\\b%");
  }
}
