/** String operations the search code relies on: ECMAScript whitespace, `trim`,
    `toLowerCase` (ASCII letters only), `split(/\s+/)` and `includes`/`startsWith`. */
module Text {

  /** The characters matched by `\s` and removed by `trim` in ECMAScript:
      the white-space and line-terminator code points. */
  predicate IsSpace(c: char) {
    c == ' ' || c == '\t' || c == '\n' || c == '\U{B}' || c == '\U{C}' || c == '\r' ||
    c == '\U{A0}' || c == '\U{1680}' || ('\U{2000}' <= c <= '\U{200A}') ||
    c == '\U{2028}' || c == '\U{2029}' || c == '\U{202F}' || c == '\U{205F}' ||
    c == '\U{3000}' || c == '\U{FEFF}'
  }

  /** A string made of whitespace only (the empty string included). */
  predicate IsBlank(s: string) {
    forall j :: 0 <= j < |s| ==> IsSpace(s[j])
  }

  /** `Boolean(s)` for a string: it is not empty. */
  predicate NonEmpty(s: string) {
    s != []
  }

  /** No whitespace anywhere in `s`. */
  predicate NoSpace(s: string) {
    forall j :: 0 <= j < |s| ==> !IsSpace(s[j])
  }

  // ---------------------------------------------------------------- trim

  /** `s` without its leading whitespace. */
  function TrimStart(s: string): (r: string)
    ensures |r| <= |s| && r == s[|s| - |r|..]
    ensures IsBlank(s[..|s| - |r|])
    ensures r == [] || !IsSpace(r[0])
  {
    if s != [] && IsSpace(s[0]) then
      var r := TrimStart(s[1..]);
      assert s[..|s| - |r|] == [s[0]] + s[1..][..|s| - 1 - |r|];
      r
    else s
  }

  /** `s` without its trailing whitespace. */
  function TrimEnd(s: string): (r: string)
    ensures |r| <= |s| && r == s[..|r|]
    ensures IsBlank(s[|r|..])
    ensures r == [] || !IsSpace(r[|r| - 1])
  {
    if s != [] && IsSpace(s[|s| - 1]) then
      var r := TrimEnd(s[..|s| - 1]);
      assert s[|r|..] == s[..|s| - 1][|r|..] + [s[|s| - 1]];
      r
    else s
  }

  /** `String.prototype.trim`. */
  function Trim(s: string): string {
    TrimEnd(TrimStart(s))
  }

  /** The trimmed string is a slice of the input with only whitespace cut off at
      either end. */
  lemma TrimSlice(s: string)
    ensures var r := Trim(s);
      exists a :: 0 <= a <= |s| - |r| && r == s[a..a + |r|] && IsBlank(s[..a]) && IsBlank(s[a + |r|..])
  {
    var a := TrimOffset(s);
  }

  /** Where the trimmed string starts in the input. */
  lemma TrimOffset(s: string) returns (a: nat)
    ensures a + |Trim(s)| <= |s|
    ensures Trim(s) == s[a..a + |Trim(s)|]
    ensures IsBlank(s[..a]) && IsBlank(s[a + |Trim(s)|..])
  {
    var t := TrimStart(s);
    a := |s| - |t|;
    SliceOfSuffix(s, a, t, TrimEnd(t));
  }

  /** A prefix `r` of the suffix `t == s[a..]`, followed in `t` by whitespace only. */
  lemma SliceOfSuffix(s: string, a: nat, t: string, r: string)
    requires a <= |s| && t == s[a..]
    requires |r| <= |t| && r == t[..|r|] && IsBlank(t[|r|..])
    ensures r == s[a..a + |r|] && IsBlank(s[a + |r|..])
  {
    assert s[a + |r|..] == t[|r|..];
  }

  /** The trimmed string neither starts nor ends with whitespace. */
  lemma TrimEnds(s: string)
    ensures Trim(s) == [] || (!IsSpace(Trim(s)[0]) && !IsSpace(Trim(s)[|Trim(s)| - 1]))
  {
    var t := TrimStart(s);
    var r := TrimEnd(t);
    if r != [] {
      assert r[0] == t[..|r|][0];
    }
  }

  lemma {:induction false} TrimStartOfBlank(s: string)
    requires IsBlank(s)
    ensures TrimStart(s) == []
  {
    if s != [] {
      TrimStartOfBlank(s[1..]);
    }
  }

  lemma BlankAppend(x: string, y: string)
    requires IsBlank(x) && IsBlank(y)
    ensures IsBlank(x + y)
  {
  }

  /** Trimming yields the empty string exactly for blank input. */
  lemma TrimEmptyIffBlank(s: string)
    ensures Trim(s) == [] <==> IsBlank(s)
  {
    var t := TrimStart(s);
    var a := |s| - |t|;
    if Trim(s) == [] {
      assert t[0..] == t;
      assert s == s[..a] + t;
      BlankAppend(s[..a], t);
    }
    if IsBlank(s) {
      TrimStartOfBlank(s);
    }
  }

  // ---------------------------------------------------------------- case

  /** `toLowerCase` on one character, for the ASCII letters `A`..`Z`. */
  function LowerChar(c: char): (r: char)
    ensures 'A' <= c <= 'Z' ==> 'a' <= r <= 'z' && r as int == c as int + 32
    ensures !('A' <= c <= 'Z') ==> r == c
  {
    if 'A' <= c <= 'Z' then (c as int - 'A' as int + 'a' as int) as char else c
  }

  /** `String.prototype.toLowerCase`, character by character; it never changes
      the length of the string. */
  function Lower(s: string): (r: string)
    ensures |r| == |s|
    ensures forall j :: 0 <= j < |s| ==> r[j] == LowerChar(s[j])
  {
    seq(|s|, j requires 0 <= j < |s| => LowerChar(s[j]))
  }

  /** A string that lower-casing leaves unchanged. */
  predicate IsLower(s: string) {
    forall j :: 0 <= j < |s| ==> LowerChar(s[j]) == s[j]
  }

  /** Lower-casing is idempotent: its result is lower-case, so lower-casing it
      again changes nothing. */
  lemma LowerIsLower(s: string)
    ensures IsLower(Lower(s))
    ensures Lower(Lower(s)) == Lower(s)
  {
  }

  /** Lower-casing commutes with slicing. */
  lemma LowerSlice(s: string, a: nat, b: nat)
    requires a <= b <= |s|
    ensures Lower(s)[a..b] == Lower(s[a..b])
  {
  }

  /** Lower-casing never turns whitespace into non-whitespace or back. */
  lemma LowerKeepsSpace(c: char)
    ensures IsSpace(LowerChar(c)) == IsSpace(c)
  {
  }

  /** Trimming and lower-casing commute, so normalising a query does not
      depend on which of the two comes first. */
  lemma {:induction false} LowerTrimCommute(s: string)
    ensures Lower(Trim(s)) == Trim(Lower(s))
  {
    LowerTrimStart(s);
    LowerTrimEnd(TrimStart(s));
  }

  lemma {:induction false} LowerTrimStart(s: string)
    ensures Lower(TrimStart(s)) == TrimStart(Lower(s))
  {
    if s != [] {
      LowerKeepsSpace(s[0]);
      if IsSpace(s[0]) {
        assert Lower(s)[1..] == Lower(s[1..]);
        LowerTrimStart(s[1..]);
      }
    }
  }

  lemma {:induction false} LowerTrimEnd(s: string)
    ensures Lower(TrimEnd(s)) == TrimEnd(Lower(s))
  {
    if s != [] {
      LowerKeepsSpace(s[|s| - 1]);
      if IsSpace(s[|s| - 1]) {
        assert Lower(s)[..|s| - 1] == Lower(s[..|s| - 1]);
        LowerTrimEnd(s[..|s| - 1]);
      }
    }
  }

  // ---------------------------------------------------------------- substring

  /** `t` occurs in `s` starting at index `k` (`s.startsWith(t, k)`). */
  predicate OccursAt(t: string, s: string, k: nat) {
    k + |t| <= |s| && s[k..k + |t|] == t
  }

  /** `s.includes(t)`: `t` occurs somewhere in `s`. */
  predicate Contains(s: string, t: string) {
    exists k :: 0 <= k <= |s| && OccursAt(t, s, k)
  }

  /** The empty string is contained in every string. */
  lemma ContainsEmpty(s: string)
    ensures Contains(s, "")
  {
    assert OccursAt("", s, 0);
  }

  // ---------------------------------------------------------------- split

  /** The end of the run of non-whitespace characters that starts at `i`. */
  function WordEnd(s: string, i: nat): (r: nat)
    requires i <= |s|
    ensures i <= r <= |s|
    ensures forall j :: i <= j < r ==> !IsSpace(s[j])
    ensures r < |s| ==> IsSpace(s[r])
    decreases |s| - i
  {
    if i == |s| || IsSpace(s[i]) then i else WordEnd(s, i + 1)
  }

  /** The end of the run of whitespace characters that starts at `i`. */
  function SpaceEnd(s: string, i: nat): (r: nat)
    requires i <= |s|
    ensures i <= r <= |s|
    ensures forall j :: i <= j < r ==> IsSpace(s[j])
    ensures r < |s| ==> !IsSpace(s[r])
    decreases |s| - i
  {
    if i == |s| || !IsSpace(s[i]) then i else SpaceEnd(s, i + 1)
  }

  /** The pieces of `s[i..]` between maximal runs of whitespace. */
  function SplitFrom(s: string, i: nat): (r: seq<string>)
    requires i <= |s|
    ensures |r| >= 1
    ensures forall p :: 0 <= p < |r| ==> NoSpace(r[p])
    decreases |s| - i
  {
    var j := WordEnd(s, i);
    if j == |s| then [s[i..]]
    else [s[i..j]] + SplitFrom(s, SpaceEnd(s, j + 1))
  }

  /** `s.split(/\s+/)`: as in ECMAScript, the empty string splits into `[""]`
      and leading or trailing whitespace yields an empty first or last piece. */
  function Split(s: string): seq<string> {
    SplitFrom(s, 0)
  }

  /** The characters of `s` that are not whitespace, in order. */
  function RemoveSpace(s: string): (r: string)
    ensures NoSpace(r)
  {
    if s == [] then []
    else if IsSpace(s[0]) then RemoveSpace(s[1..])
    else [s[0]] + RemoveSpace(s[1..])
  }

  /** Concatenation of a sequence of strings. */
  function Join(pieces: seq<string>): string {
    if pieces == [] then [] else pieces[0] + Join(pieces[1..])
  }

  lemma {:induction false} RemoveSpaceAppend(a: string, b: string)
    ensures RemoveSpace(a + b) == RemoveSpace(a) + RemoveSpace(b)
  {
    if a != [] {
      assert (a + b)[1..] == a[1..] + b;
      RemoveSpaceAppend(a[1..], b);
    } else {
      assert a + b == b;
    }
  }

  lemma {:induction false} RemoveSpaceOfBlank(s: string)
    requires IsBlank(s)
    ensures RemoveSpace(s) == []
  {
    if s != [] {
      RemoveSpaceOfBlank(s[1..]);
    }
  }

  lemma {:induction false} RemoveSpaceOfWord(s: string)
    requires NoSpace(s)
    ensures RemoveSpace(s) == s
  {
    if s != [] {
      RemoveSpaceOfWord(s[1..]);
    }
  }

  /** Splitting loses exactly the whitespace: joining the pieces back gives the
      input with every whitespace character removed. */
  lemma {:induction false} SplitFromLosesOnlySpace(s: string, i: nat)
    requires i <= |s|
    ensures Join(SplitFrom(s, i)) == RemoveSpace(s[i..])
    decreases |s| - i
  {
    var j := WordEnd(s, i);
    WordSlice(s, i);
    if j == |s| {
      assert s[i..j] == s[i..];
      RemoveSpaceOfWord(s[i..]);
      assert SplitFrom(s, i) == [s[i..]] + [];
      JoinCons(s[i..], []);
    } else {
      var m := SpaceEnd(s, j + 1);
      GapSlice(s, j);
      SplitFromLosesOnlySpace(s, m);
      assert SplitFrom(s, i) == [s[i..j]] + SplitFrom(s, m);
      JoinCons(s[i..j], SplitFrom(s, m));
      RemoveSpaceAcrossGap(s, i, j, m);
    }
  }

  /** The word that starts at `i` holds no whitespace. */
  lemma WordSlice(s: string, i: nat)
    requires i <= |s|
    ensures NoSpace(s[i..WordEnd(s, i)])
  {
  }

  /** A whitespace character and the run of whitespace after it. */
  lemma GapSlice(s: string, j: nat)
    requires j < |s| && IsSpace(s[j])
    ensures IsBlank(s[j..SpaceEnd(s, j + 1)])
  {
  }

  /** Removing whitespace from a word, a gap of whitespace and the rest. */
  lemma RemoveSpaceAcrossGap(s: string, i: nat, j: nat, m: nat)
    requires i <= j <= m <= |s|
    requires NoSpace(s[i..j]) && IsBlank(s[j..m])
    ensures RemoveSpace(s[i..]) == s[i..j] + RemoveSpace(s[m..])
  {
    RemoveSpaceOfWord(s[i..j]);
    RemoveSpaceOfBlank(s[j..m]);
    assert s[i..] == (s[i..j] + s[j..m]) + s[m..];
    RemoveSpaceAppend(s[i..j] + s[j..m], s[m..]);
    RemoveSpaceAppend(s[i..j], s[j..m]);
  }

  lemma JoinCons(x: string, rest: seq<string>)
    ensures Join([x] + rest) == x + Join(rest)
  {
    assert ([x] + rest)[1..] == rest;
  }

  lemma SplitLosesOnlySpace(s: string)
    ensures Join(Split(s)) == RemoveSpace(s)
  {
    SplitFromLosesOnlySpace(s, 0);
  }

  /** On a string that neither starts nor ends with whitespace, no piece is empty. */
  lemma {:induction false} SplitFromOfTrimmed(s: string, i: nat)
    requires i < |s| && !IsSpace(s[i]) && !IsSpace(s[|s| - 1])
    ensures forall p :: 0 <= p < |SplitFrom(s, i)| ==> SplitFrom(s, i)[p] != []
    decreases |s| - i
  {
    var j := WordEnd(s, i);
    if j < |s| {
      var m := SpaceEnd(s, j + 1);
      assert m < |s|;
      SplitFromOfTrimmed(s, m);
      var r := SplitFrom(s, i);
      assert r[1..] == SplitFrom(s, m);
      forall p | 0 <= p < |r| ensures r[p] != [] {
        if p > 0 {
          assert r[p] == SplitFrom(s, m)[p - 1];
        }
      }
    }
  }

  /** The pieces of a non-empty string without leading or trailing whitespace
      are all non-empty; the empty string splits into one empty piece. */
  lemma SplitOfTrimmed(s: string)
    requires s == [] || (!IsSpace(s[0]) && !IsSpace(s[|s| - 1]))
    ensures s == [] ==> Split(s) == [""]
    ensures s != [] ==> forall p :: 0 <= p < |Split(s)| ==> Split(s)[p] != []
  {
    if s != [] {
      SplitFromOfTrimmed(s, 0);
    }
  }

  /** The pieces interleaved with the gaps between them, as
      `pieces[0] + gaps[0] + pieces[1] + … + pieces[|gaps|]`. */
  function Weave(pieces: seq<string>, gaps: seq<string>): string
    requires |pieces| == |gaps| + 1
    decreases |gaps|
  {
    if gaps == [] then pieces[0]
    else pieces[0] + gaps[0] + Weave(pieces[1..], gaps[1..])
  }

  /** `s` is `pieces` interleaved with `gaps`, where the pieces hold no
      whitespace, every gap is a non-empty run of whitespace, and only the first
      and the last piece may be empty: the pieces are the maximal runs of
      non-whitespace, which is what `split(/\s+/)` returns. */
  predicate SplitsInto(s: string, pieces: seq<string>, gaps: seq<string>) {
    |pieces| == |gaps| + 1 && s == Weave(pieces, gaps) &&
    (forall p :: 0 <= p < |pieces| ==> NoSpace(pieces[p])) &&
    (forall p :: 0 <= p < |gaps| ==> gaps[p] != [] && IsBlank(gaps[p])) &&
    (forall p :: 0 < p < |pieces| - 1 ==> pieces[p] != [])
  }

  /** The gaps between the pieces of `SplitFrom(s, i)`. */
  lemma {:induction false} SplitFromGaps(s: string, i: nat) returns (gaps: seq<string>)
    requires i <= |s|
    ensures SplitsInto(s[i..], SplitFrom(s, i), gaps)
    decreases |s| - i
  {
    var j := WordEnd(s, i);
    WordSlice(s, i);
    if j == |s| {
      assert s[i..j] == s[i..];
      gaps := [];
    } else {
      var m := SpaceEnd(s, j + 1);
      GapSlice(s, j);
      var rest := SplitFrom(s, m);
      var g := SplitFromGaps(s, m);
      gaps := [s[j..m]] + g;
      assert SplitFrom(s, i) == [s[i..j]] + rest;
      SplitFromHead(s, m);
      SplitsIntoCons(s, i, j, m, rest, g);
    }
  }

  /** The first piece is empty only when it is the only one or the string
      starts with whitespace. */
  lemma SplitFromHead(s: string, i: nat)
    requires i <= |s|
    requires i < |s| ==> !IsSpace(s[i])
    ensures |SplitFrom(s, i)| > 1 ==> SplitFrom(s, i)[0] != []
  {
  }

  /** A whitespace-free piece and a gap put in front of a splitting whose first
      piece is non-empty unless it is the only one. */
  lemma SplitsIntoCons(s: string, i: nat, j: nat, m: nat, pieces: seq<string>, gaps: seq<string>)
    requires i <= j < m <= |s|
    requires NoSpace(s[i..j]) && IsBlank(s[j..m])
    requires SplitsInto(s[m..], pieces, gaps)
    requires |pieces| > 1 ==> pieces[0] != []
    ensures SplitsInto(s[i..], [s[i..j]] + pieces, [s[j..m]] + gaps)
  {
    var r, gs := [s[i..j]] + pieces, [s[j..m]] + gaps;
    assert s[i..] == s[i..j] + s[j..m] + s[m..];
    assert r[1..] == pieces && gs[1..] == gaps;
    forall p | 0 < p < |r| - 1 ensures r[p] != [] {
      assert r[p] == pieces[p - 1];
    }
    forall p | 0 <= p < |r| ensures NoSpace(r[p]) {
      if p > 0 {
        assert r[p] == pieces[p - 1];
      }
    }
    forall p | 0 <= p < |gs| ensures gs[p] != [] && IsBlank(gs[p]) {
      if p > 0 {
        assert gs[p] == gaps[p - 1];
      }
    }
  }

  /** `split(/\s+/)` cuts exactly at the runs of whitespace: the input is its
      pieces interleaved with non-empty runs of whitespace. */
  lemma SplitIsMaximalRuns(s: string)
    ensures exists gaps :: SplitsInto(s, Split(s), gaps)
  {
    var gaps := SplitFromGaps(s, 0);
    assert s[0..] == s;
    assert SplitsInto(s, Split(s), gaps);
  }

  /** Two strings that agree on a common start `x + t1 == y + t2`, where `x` and
      `y` are runs of characters all whitespace (`b`) or all not, and `t1` and
      `t2` are empty or start with a character of the other kind, cut at the
      same place. */
  lemma RunBoundary(x: string, t1: string, y: string, t2: string, b: bool)
    requires x + t1 == y + t2
    requires forall j :: 0 <= j < |x| ==> IsSpace(x[j]) == b
    requires forall j :: 0 <= j < |y| ==> IsSpace(y[j]) == b
    requires t1 == [] || IsSpace(t1[0]) != b
    requires t2 == [] || IsSpace(t2[0]) != b
    ensures x == y && t1 == t2
  {
    var s := x + t1;
    assert x == s[..|x|] && y == s[..|y|];
    assert t1 == s[|x|..] && t2 == s[|y|..];
  }

  /** What follows the first piece: nothing, or a gap then the other pieces. */
  lemma WeaveHead(pieces: seq<string>, gaps: seq<string>)
    requires |pieces| == |gaps| + 1 && gaps != []
    ensures Weave(pieces, gaps) == pieces[0] + (gaps[0] + Weave(pieces[1..], gaps[1..]))
  {
  }

  /** A splitting whose first piece is followed by a gap: the rest is a
      splitting too, and starts with a non-whitespace character unless it is
      empty. */
  lemma SplitsIntoTail(s: string, pieces: seq<string>, gaps: seq<string>)
    requires SplitsInto(s, pieces, gaps) && gaps != []
    ensures SplitsInto(Weave(pieces[1..], gaps[1..]), pieces[1..], gaps[1..])
    ensures var w := Weave(pieces[1..], gaps[1..]); w == [] || !IsSpace(w[0])
  {
    var ps, gs := pieces[1..], gaps[1..];
    forall p | 0 < p < |ps| - 1 ensures ps[p] != [] {
      assert ps[p] == pieces[p + 1];
    }
    forall p | 0 <= p < |gs| ensures gs[p] != [] && IsBlank(gs[p]) {
      assert gs[p] == gaps[p + 1];
    }
    forall p | 0 <= p < |ps| ensures NoSpace(ps[p]) {
      assert ps[p] == pieces[p + 1];
    }
    if gs != [] {
      assert ps[0] == pieces[1] && pieces[1] != [];
      assert Weave(ps, gs)[0] == ps[0][0];
    }
  }

  /** The splitting of a string into maximal runs is unique. */
  lemma {:induction false} SplittingIsUnique(s: string, pieces1: seq<string>, gaps1: seq<string>,
                                             pieces2: seq<string>, gaps2: seq<string>)
    requires SplitsInto(s, pieces1, gaps1) && SplitsInto(s, pieces2, gaps2)
    ensures pieces1 == pieces2 && gaps1 == gaps2
    decreases |gaps1|
  {
    var x, y := pieces1[0], pieces2[0];
    var t1 := if gaps1 == [] then [] else gaps1[0] + Weave(pieces1[1..], gaps1[1..]);
    var t2 := if gaps2 == [] then [] else gaps2[0] + Weave(pieces2[1..], gaps2[1..]);
    if gaps1 != [] {
      WeaveHead(pieces1, gaps1);
      assert t1[0] == gaps1[0][0];
    }
    if gaps2 != [] {
      WeaveHead(pieces2, gaps2);
      assert t2[0] == gaps2[0][0];
    }
    assert NoSpace(x) && NoSpace(y);
    RunBoundary(x, t1, y, t2, false);
    if gaps1 == [] || gaps2 == [] {
      assert gaps1 == [] && gaps2 == [];
    } else {
      var w1, w2 := Weave(pieces1[1..], gaps1[1..]), Weave(pieces2[1..], gaps2[1..]);
      SplitsIntoTail(s, pieces1, gaps1);
      SplitsIntoTail(s, pieces2, gaps2);
      RunBoundary(gaps1[0], w1, gaps2[0], w2, true);
      SplittingIsUnique(w1, pieces1[1..], gaps1[1..], pieces2[1..], gaps2[1..]);
      assert pieces1 == [x] + pieces1[1..] && pieces2 == [y] + pieces2[1..];
      assert gaps1 == [gaps1[0]] + gaps1[1..] && gaps2 == [gaps2[0]] + gaps2[1..];
    }
  }

  /** `Split` is the only splitting into maximal runs: any list of whitespace-free
      pieces that, interleaved with non-empty runs of whitespace, spells `s` and
      has no empty inner piece is `Split(s)`. */
  lemma SplitIsDetermined(s: string, pieces: seq<string>, gaps: seq<string>)
    requires SplitsInto(s, pieces, gaps)
    ensures pieces == Split(s)
  {
    var g := SplitFromGaps(s, 0);
    assert s[0..] == s;
    SplittingIsUnique(s, pieces, gaps, Split(s), g);
  }

  /** A string without whitespace is left alone by `trim` and splits into itself. */
  lemma TrimAndSplitOfWord(s: string)
    requires NoSpace(s)
    ensures Trim(s) == s
    ensures Split(s) == [s]
  {
    assert TrimStart(s) == s;
    assert WordEnd(s, 0) == |s|;
    assert s[0..] == s;
  }
}
