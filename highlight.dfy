/** The highlighter of the advocate card: it cuts a display string into plain
    and marked pieces, marking at each position the longest search token that
    matches there, case-insensitively. */
module Highlight {
  import opened Optional
  import opened Text
  import opened Seqs

  /** One piece of highlighted output: text shown as is, or text shown marked. */
  datatype Segment = Plain(text: string) | Marked(text: string)

  /** The text the pieces cover, in order. */
  function Flatten(pieces: seq<Segment>): string {
    if pieces == [] then [] else Flatten(pieces[..|pieces| - 1]) + pieces[|pieces| - 1].text
  }

  /** The position in the text where piece `p` starts. */
  function Start(pieces: seq<Segment>, p: nat): nat
    requires p <= |pieces|
  {
    |Flatten(pieces[..p])|
  }

  // ---------------------------------------------------------------- which token wins

  /** `token` is not empty and `lower.startsWith(token, i)`. */
  predicate MatchesAt(lower: string, i: nat, token: string) {
    token != [] && OccursAt(token, lower, i)
  }

  /** No token matches at position `i`. */
  ghost predicate NoMatchAt(tokens: seq<string>, lower: string, i: nat) {
    forall j :: 0 <= j < |tokens| ==> !MatchesAt(lower, i, tokens[j])
  }

  /** `tokens[k]` is the token marked at position `i`: it matches there, no
      matching token is longer, and every matching token listed before it is
      strictly shorter. */
  ghost predicate Chosen(tokens: seq<string>, lower: string, i: nat, k: int) {
    && 0 <= k < |tokens|
    && MatchesAt(lower, i, tokens[k])
    && (forall j :: 0 <= j < |tokens| && MatchesAt(lower, i, tokens[j]) ==> |tokens[j]| <= |tokens[k]|)
    && (forall j :: 0 <= j < k && MatchesAt(lower, i, tokens[j]) ==> |tokens[j]| < |tokens[k]|)
  }

  /** At most one token is chosen at a position. */
  lemma ChosenIsUnique(tokens: seq<string>, lower: string, i: nat, k1: int, k2: int)
    requires Chosen(tokens, lower, i, k1) && Chosen(tokens, lower, i, k2)
    ensures k1 == k2
  {
  }

  /** The token chosen at `i` among `tokens`, computed by a scan from the back:
      an earlier token replaces a later one unless it is strictly shorter. */
  ghost function Best(lower: string, i: nat, tokens: seq<string>): Option<string> {
    if tokens == [] then None
    else
      var rest := Best(lower, i, tokens[1..]);
      if MatchesAt(lower, i, tokens[0]) && (rest.None? || |rest.value| <= |tokens[0]|)
      then Some(tokens[0])
      else rest
  }

  /** `Best` finds the chosen token, and finds none exactly when nothing matches. */
  lemma {:induction false} BestIsChosen(lower: string, i: nat, tokens: seq<string>)
    ensures Best(lower, i, tokens).None? ==> NoMatchAt(tokens, lower, i)
    ensures Best(lower, i, tokens).Some? ==>
      exists k :: Chosen(tokens, lower, i, k) && tokens[k] == Best(lower, i, tokens).value
  {
    if tokens != [] {
      var rest := tokens[1..];
      BestIsChosen(lower, i, rest);
      var b := Best(lower, i, rest);
      var t0 := tokens[0];
      if MatchesAt(lower, i, t0) && (b.None? || |b.value| <= |t0|) {
        forall j | 0 <= j < |tokens| && MatchesAt(lower, i, tokens[j])
          ensures |tokens[j]| <= |t0|
        {
          if j > 0 {
            assert tokens[j] == rest[j - 1];
            var k' :| Chosen(rest, lower, i, k') && rest[k'] == b.value;
          }
        }
        assert Chosen(tokens, lower, i, 0);
      } else if b.Some? {
        var k' :| Chosen(rest, lower, i, k') && rest[k'] == b.value;
        forall j | 0 <= j < |tokens| && MatchesAt(lower, i, tokens[j])
          ensures |tokens[j]| <= |b.value|
          ensures j < k' + 1 ==> |tokens[j]| < |b.value|
        {
          if j > 0 {
            assert tokens[j] == rest[j - 1];
          }
        }
        assert Chosen(tokens, lower, i, k' + 1);
      } else {
        forall j | 0 <= j < |tokens|
          ensures !MatchesAt(lower, i, tokens[j])
        {
          if j > 0 {
            assert tokens[j] == rest[j - 1];
          }
        }
      }
    }
  }

  /** Empty tokens never match, so dropping them does not change the choice. */
  lemma {:induction false} BestIgnoresEmpty(lower: string, i: nat, tokens: seq<string>)
    ensures Best(lower, i, Filter(tokens, NonEmpty)) == Best(lower, i, tokens)
  {
    if tokens != [] {
      BestIgnoresEmpty(lower, i, tokens[1..]);
      var rest := Filter(tokens[1..], NonEmpty);
      if NonEmpty(tokens[0]) {
        assert Filter(tokens, NonEmpty) == [tokens[0]] + rest;
        assert ([tokens[0]] + rest)[1..] == rest;
      }
    }
  }

  // ---------------------------------------------------------------- stable sort by length

  /** Longer strings come first. */
  ghost predicate LongestFirst(ts: seq<string>) {
    forall a, b :: 0 <= a < b < |ts| ==> |ts[a]| >= |ts[b]|
  }

  /** Insert `t` into a longest-first list after every strictly longer string
      and before the others. */
  function InsertByLength(t: string, sorted: seq<string>): (r: seq<string>)
    ensures |r| == |sorted| + 1
    ensures forall x :: x in r <==> x == t || x in sorted
  {
    if sorted == [] || |sorted[0]| <= |t| then [t] + sorted
    else [sorted[0]] + InsertByLength(t, sorted[1..])
  }

  /** `[...tokens].sort((a, b) => b.length - a.length)`: a stable sort on
      decreasing length, written as an insertion sort. */
  function SortByLength(ts: seq<string>): (r: seq<string>)
    ensures |r| == |ts|
    ensures forall x :: x in r <==> x in ts
  {
    if ts == [] then [] else InsertByLength(ts[0], SortByLength(ts[1..]))
  }

  lemma {:induction false} InsertKeepsOrder(t: string, sorted: seq<string>)
    requires LongestFirst(sorted)
    ensures LongestFirst(InsertByLength(t, sorted))
  {
    if sorted != [] && |sorted[0]| > |t| {
      InsertKeepsOrder(t, sorted[1..]);
      var r := InsertByLength(t, sorted);
      var tail := InsertByLength(t, sorted[1..]);
      assert r == [sorted[0]] + tail;
      forall b | 0 < b < |r|
        ensures |r[0]| >= |r[b]|
      {
        assert r[b] == tail[b - 1];
        assert r[b] in tail;
      }
    }
  }

  /** The sorted tokens are longest-first. */
  lemma {:induction false} SortIsLongestFirst(ts: seq<string>)
    ensures LongestFirst(SortByLength(ts))
  {
    if ts != [] {
      SortIsLongestFirst(ts[1..]);
      InsertKeepsOrder(ts[0], SortByLength(ts[1..]));
    }
  }

  /** The sort is a permutation. */
  lemma {:induction false} SortPermutes(ts: seq<string>)
    ensures multiset(SortByLength(ts)) == multiset(ts)
  {
    if ts != [] {
      SortPermutes(ts[1..]);
      InsertPermutes(ts[0], SortByLength(ts[1..]));
      assert ts == [ts[0]] + ts[1..];
    }
  }

  lemma {:induction false} InsertPermutes(t: string, sorted: seq<string>)
    ensures multiset(InsertByLength(t, sorted)) == multiset(sorted) + multiset{t}
  {
    if sorted != [] && |sorted[0]| > |t| {
      InsertPermutes(t, sorted[1..]);
      assert sorted == [sorted[0]] + sorted[1..];
    }
  }

  /** The strings of length `n`. */
  function OfLength(n: nat): string -> bool {
    s => |s| == n
  }

  lemma {:induction false} InsertIsStable(t: string, sorted: seq<string>, n: nat)
    requires LongestFirst(sorted)
    ensures Filter(InsertByLength(t, sorted), OfLength(n))
         == (if |t| == n then [t] else []) + Filter(sorted, OfLength(n))
  {
    if sorted == [] || |sorted[0]| <= |t| {
      assert ([t] + sorted)[1..] == sorted;
    } else {
      InsertIsStable(t, sorted[1..], n);
      var tail := InsertByLength(t, sorted[1..]);
      assert ([sorted[0]] + tail)[1..] == tail;
      if |t| == n {
        assert !OfLength(n)(sorted[0]);
      }
    }
  }

  /** The sort is stable: the strings of any one length keep their order. */
  lemma {:induction false} SortIsStable(ts: seq<string>, n: nat)
    ensures Filter(SortByLength(ts), OfLength(n)) == Filter(ts, OfLength(n))
  {
    if ts != [] {
      SortIsStable(ts[1..], n);
      SortIsLongestFirst(ts[1..]);
      InsertIsStable(ts[0], SortByLength(ts[1..]), n);
    }
  }

  /** The first token of a list that matches at `i`, as the `for ... break`
      scan finds it. */
  function FirstMatch(lower: string, i: nat, sorted: seq<string>): (r: Option<string>)
    ensures r.Some? ==> r.value in sorted && MatchesAt(lower, i, r.value)
    ensures r.None? ==> forall t :: t in sorted ==> !MatchesAt(lower, i, t)
  {
    if sorted == [] then None
    else if MatchesAt(lower, i, sorted[0]) then Some(sorted[0])
    else FirstMatch(lower, i, sorted[1..])
  }

  lemma {:induction false} FirstMatchInsert(lower: string, i: nat, t: string, sorted: seq<string>)
    requires LongestFirst(sorted)
    ensures var rest := FirstMatch(lower, i, sorted);
      FirstMatch(lower, i, InsertByLength(t, sorted))
      == if MatchesAt(lower, i, t) && (rest.None? || |rest.value| <= |t|) then Some(t) else rest
  {
    var rest := FirstMatch(lower, i, sorted);
    if sorted == [] || |sorted[0]| <= |t| {
      assert ([t] + sorted)[1..] == sorted;
      if rest.Some? {
        var u := rest.value;
        var q :| 0 <= q < |sorted| && sorted[q] == u;
        assert |u| <= |sorted[0]|;
      }
    } else {
      var tail := InsertByLength(t, sorted[1..]);
      assert ([sorted[0]] + tail)[1..] == tail;
      if !MatchesAt(lower, i, sorted[0]) {
        FirstMatchInsert(lower, i, t, sorted[1..]);
      }
    }
  }

  /** Scanning the length-sorted tokens finds the `Best` token. */
  lemma {:induction false} FirstMatchOfSorted(lower: string, i: nat, ts: seq<string>)
    ensures FirstMatch(lower, i, SortByLength(ts)) == Best(lower, i, ts)
  {
    if ts != [] {
      FirstMatchOfSorted(lower, i, ts[1..]);
      SortIsLongestFirst(ts[1..]);
      FirstMatchInsert(lower, i, ts[0], SortByLength(ts[1..]));
    }
  }

  /** What the scan over the sorted non-empty tokens finds is the chosen token. */
  lemma ScanFindsChosen(lower: string, i: nat, tokens: seq<string>)
    ensures var r := FirstMatch(lower, i, SortByLength(Filter(tokens, NonEmpty)));
      && (r.None? ==> NoMatchAt(tokens, lower, i))
      && (r.Some? ==> exists k :: Chosen(tokens, lower, i, k) && tokens[k] == r.value)
  {
    FirstMatchOfSorted(lower, i, Filter(tokens, NonEmpty));
    BestIgnoresEmpty(lower, i, tokens);
    BestIsChosen(lower, i, tokens);
  }

  /** The index of the token the scan finds, as a witness for `Chosen`. */
  lemma ChosenIndex(lower: string, i: nat, tokens: seq<string>, t: string) returns (k: nat)
    requires FirstMatch(lower, i, SortByLength(Filter(tokens, NonEmpty))) == Some(t)
    ensures Chosen(tokens, lower, i, k) && tokens[k] == t
  {
    ScanFindsChosen(lower, i, tokens);
    k :| Chosen(tokens, lower, i, k) && tokens[k] == t;
  }

  // ---------------------------------------------------------------- the output

  /** Piece `p` is what the highlighter emits where it starts: the chosen token's
      span of the text in its own casing, or, where nothing matches, the single
      character there. */
  ghost predicate PieceFits(text: string, tokens: seq<string>, pieces: seq<Segment>, p: nat)
    requires p < |pieces|
  {
    var s := Start(pieces, p);
    match pieces[p]
    case Marked(m) =>
      exists k :: Chosen(tokens, Lower(text), s, k) && s + |tokens[k]| <= |text|
        && m == text[s..s + |tokens[k]|] && Lower(m) == tokens[k]
    case Plain(m) =>
      s < |text| && m == [text[s]] && NoMatchAt(tokens, Lower(text), s)
  }

  /** `pieces` is the greedy left-to-right highlighting of `text`: together they
      spell the text, and each fits where it starts. */
  ghost predicate IsHighlighting(text: string, tokens: seq<string>, pieces: seq<Segment>) {
    && Flatten(pieces) == text
    && forall p :: 0 <= p < |pieces| ==> PieceFits(text, tokens, pieces, p)
  }

  /** Every piece is non-empty and ends where the next one starts, inside the
      text: the pieces tile the text left to right without overlapping. */
  lemma PiecesTile(text: string, tokens: seq<string>, pieces: seq<Segment>, p: nat)
    requires IsHighlighting(text, tokens, pieces) && p < |pieces|
    ensures Start(pieces, p + 1) == Start(pieces, p) + |pieces[p].text|
    ensures Start(pieces, p) < Start(pieces, p + 1) <= |text|
  {
    assert pieces[..p + 1][..p] == pieces[..p];
    assert PieceFits(text, tokens, pieces, p);
  }

  lemma {:induction false} SamePrefix(text: string, tokens: seq<string>, a: seq<Segment>, b: seq<Segment>, n: nat)
    requires IsHighlighting(text, tokens, a) && IsHighlighting(text, tokens, b)
    requires n <= |a| && n <= |b|
    ensures a[..n] == b[..n]
  {
    if n > 0 {
      var q := n - 1;
      SamePrefix(text, tokens, a, b, q);
      assert Start(a, q) == Start(b, q);
      SamePieceAt(text, tokens, a, b, q);
      assert a[..n] == a[..q] + [a[q]];
      assert b[..n] == b[..q] + [b[q]];
    }
  }

  /** Two highlightings that reach the same position put the same piece there. */
  lemma SamePieceAt(text: string, tokens: seq<string>, a: seq<Segment>, b: seq<Segment>, q: nat)
    requires IsHighlighting(text, tokens, a) && IsHighlighting(text, tokens, b)
    requires q < |a| && q < |b| && Start(a, q) == Start(b, q)
    ensures a[q] == b[q]
  {
    FitsIsPieceAt(text, tokens, a, q);
    FitsIsPieceAt(text, tokens, b, q);
  }

  /** The piece that must start at position `s`: the text under the chosen
      token, marked, or else the single character there, plain. */
  ghost function PieceAt(text: string, tokens: seq<string>, s: nat): Segment {
    match Best(Lower(text), s, tokens)
    case Some(t) => Marked(if s + |t| <= |text| then text[s..s + |t|] else [])
    case None => Plain(if s < |text| then [text[s]] else [])
  }

  /** A piece that fits is the piece that must start where it starts. */
  lemma FitsIsPieceAt(text: string, tokens: seq<string>, pieces: seq<Segment>, p: nat)
    requires p < |pieces| && PieceFits(text, tokens, pieces, p)
    ensures pieces[p] == PieceAt(text, tokens, Start(pieces, p))
  {
    var s := Start(pieces, p);
    var lower := Lower(text);
    BestIsChosen(lower, s, tokens);
    if pieces[p].Marked? {
      var k :| Chosen(tokens, lower, s, k) && s + |tokens[k]| <= |text|
        && pieces[p].text == text[s..s + |tokens[k]|];
      assert MatchesAt(lower, s, tokens[k]);
      var k2 :| Chosen(tokens, lower, s, k2) && tokens[k2] == Best(lower, s, tokens).value;
      ChosenIsUnique(tokens, lower, s, k, k2);
    }
  }

  /** Every piece starts inside the text. */
  lemma StartsInside(text: string, tokens: seq<string>, pieces: seq<Segment>)
    requires IsHighlighting(text, tokens, pieces)
    ensures forall p :: 0 <= p < |pieces| ==> Start(pieces, p) < |text|
  {
    forall p | 0 <= p < |pieces|
      ensures Start(pieces, p) < |text|
    {
      PiecesTile(text, tokens, pieces, p);
    }
  }

  /** The pieces before position `n` cover the whole text only when they are
      all the pieces. */
  lemma OnlyTheLastPieceEndsTheText(text: string, tokens: seq<string>, pieces: seq<Segment>, n: nat)
    requires IsHighlighting(text, tokens, pieces)
    requires n <= |pieces| && Start(pieces, n) == |text|
    ensures n == |pieces|
  {
    StartsInside(text, tokens, pieces);
  }

  /** The highlighting of a text is unique: whatever emits pieces that fit
      emits exactly these. */
  lemma HighlightingIsUnique(text: string, tokens: seq<string>, a: seq<Segment>, b: seq<Segment>)
    requires IsHighlighting(text, tokens, a) && IsHighlighting(text, tokens, b)
    ensures a == b
  {
    var n := if |a| <= |b| then |a| else |b|;
    SamePrefix(text, tokens, a, b, n);
    assert a[..|a|] == a && b[..|b|] == b;
    assert Start(a, n) == Start(b, n) == |text|;
    OnlyTheLastPieceEndsTheText(text, tokens, a, n);
    OnlyTheLastPieceEndsTheText(text, tokens, b, n);
  }

  /** Longest match wins: with tokens "john" and "johnson", "Johnson" is marked
      whole and not as "John" followed by "son". */
  lemma LongestTokenWins(pieces: seq<Segment>)
    ensures IsHighlighting("Johnson", ["john", "johnson"], pieces) <==> pieces == [Marked("Johnson")]
  {
    var text, tokens := "Johnson", ["john", "johnson"];
    var expected := [Marked("Johnson")];
    assert Lower(text) == "johnson";
    assert expected[..0] == [] && expected[..1] == expected;
    assert Chosen(tokens, Lower(text), 0, 1);
    assert PieceFits(text, tokens, expected, 0);
    assert IsHighlighting(text, tokens, expected);
    if IsHighlighting(text, tokens, pieces) {
      HighlightingIsUnique(text, tokens, pieces, expected);
    }
  }

  /** Text that no token matches comes out one character per plain piece:
      "John Doe" with tokens "john" and "boston" gives "John" marked, then
      " ", "D", "o" and "e" as four separate plain pieces. */
  lemma PlainTextComesOutCharacterByCharacter()
    ensures IsHighlighting("John Doe", ["john", "boston"],
      [Marked("John"), Plain(" "), Plain("D"), Plain("o"), Plain("e")])
  {
    var text, tokens := "John Doe", ["john", "boston"];
    var pieces := [Marked("John"), Plain(" "), Plain("D"), Plain("o"), Plain("e")];
    JohnDoeStarts();
    JohnDoeMatches();
    assert Lower("John") == "john";
    forall p | 0 <= p < |pieces|
      ensures PieceFits(text, tokens, pieces, p)
    {
    }
  }

  lemma JohnDoeStarts()
    ensures var pieces := [Marked("John"), Plain(" "), Plain("D"), Plain("o"), Plain("e")];
      && Start(pieces, 0) == 0 && Start(pieces, 1) == 4 && Start(pieces, 2) == 5
      && Start(pieces, 3) == 6 && Start(pieces, 4) == 7 && Flatten(pieces) == "John Doe"
  {
    var pieces := [Marked("John"), Plain(" "), Plain("D"), Plain("o"), Plain("e")];
    assert pieces[..0] == [] && pieces[..5] == pieces;
    assert Flatten(pieces[..1]) == "John" by { assert pieces[..1][..0] == []; }
    assert Flatten(pieces[..2]) == "John " by { assert pieces[..2][..1] == pieces[..1]; }
    assert Flatten(pieces[..3]) == "John D" by { assert pieces[..3][..2] == pieces[..2]; }
    assert Flatten(pieces[..4]) == "John Do" by { assert pieces[..4][..3] == pieces[..3]; }
    assert Flatten(pieces) == "John Doe" by { assert pieces[..4] == pieces[..|pieces| - 1]; }
  }

  lemma JohnDoeMatches()
    ensures Lower("John Doe") == "john doe"
    ensures Chosen(["john", "boston"], "john doe", 0, 0)
    ensures forall i :: 4 <= i < 8 ==> NoMatchAt(["john", "boston"], "john doe", i)
  {
    var lower := "john doe";
    assert lower[0..6][0] != "boston"[0];
    forall i | 4 <= i < 8
      ensures NoMatchAt(["john", "boston"], lower, i)
    {
      assert lower[i] != 'j';
      assert i + 4 <= |lower| ==> lower[i..i + 4][0] == lower[i];
    }
  }

  lemma PieceFitsAfterAppend(text: string, tokens: seq<string>, pieces: seq<Segment>, x: Segment, p: nat)
    requires p < |pieces| && PieceFits(text, tokens, pieces, p)
    ensures PieceFits(text, tokens, pieces + [x], p)
  {
    assert (pieces + [x])[..p] == pieces[..p];
    assert (pieces + [x])[p] == pieces[p];
  }

  /** Appending a piece that fits keeps every earlier piece fitting, and the
      pieces then spell the text up to the end of the new piece. */
  lemma AppendFits(text: string, tokens: seq<string>, pieces: seq<Segment>, i: nat, j: nat, next: Segment)
    requires i <= j <= |text|
    requires Flatten(pieces) == text[..i] && next.text == text[i..j]
    requires forall p :: 0 <= p < |pieces| ==> PieceFits(text, tokens, pieces, p)
    requires PieceFits(text, tokens, pieces + [next], |pieces|)
    ensures forall p :: 0 <= p < |pieces| + 1 ==> PieceFits(text, tokens, pieces + [next], p)
    ensures Flatten(pieces + [next]) == text[..j]
  {
    forall p | 0 <= p < |pieces|
      ensures PieceFits(text, tokens, pieces + [next], p)
    {
      PieceFitsAfterAppend(text, tokens, pieces, next, p);
    }
    FlattenAppend(pieces, next);
    assert text[..j] == text[..i] + text[i..j];
  }

  /** Appending a piece appends its text. */
  lemma FlattenAppend(pieces: seq<Segment>, x: Segment)
    ensures Flatten(pieces + [x]) == Flatten(pieces) + x.text
  {
    assert (pieces + [x])[..|pieces|] == pieces;
  }

  /** A piece that a chosen token marks fits at the end of the pieces so far. */
  lemma MarkedPieceFits(text: string, tokens: seq<string>, pieces: seq<Segment>, i: nat, k: nat)
    requires i <= |text| && Flatten(pieces) == text[..i]
    requires Chosen(tokens, Lower(text), i, k)
    ensures i + |tokens[k]| <= |text|
    ensures PieceFits(text, tokens, pieces + [Marked(text[i..i + |tokens[k]|])], |pieces|)
  {
    ChosenSliceLowers(text, tokens, i, k);
    var m := text[i..i + |tokens[k]|];
    var all := pieces + [Marked(m)];
    StartOfAppended(pieces, Marked(m));
    assert Start(all, |pieces|) == i && all[|pieces|] == Marked(m);
    assert Chosen(tokens, Lower(text), i, k) && i + |tokens[k]| <= |text|
      && m == text[i..i + |tokens[k]|] && Lower(m) == tokens[k];
  }

  /** A single character where no token matches fits at the end of the pieces
      so far. */
  lemma PlainPieceFits(text: string, tokens: seq<string>, pieces: seq<Segment>, i: nat)
    requires i < |text| && Flatten(pieces) == text[..i]
    requires NoMatchAt(tokens, Lower(text), i)
    ensures PieceFits(text, tokens, pieces + [Plain([text[i]])], |pieces|)
  {
    var all := pieces + [Plain([text[i]])];
    StartOfAppended(pieces, Plain([text[i]]));
    assert Start(all, |pieces|) == i && all[|pieces|] == Plain([text[i]]);
  }

  /** A piece appended to a sequence starts where the sequence's text ends. */
  lemma StartOfAppended(pieces: seq<Segment>, x: Segment)
    ensures Start(pieces + [x], |pieces|) == |Flatten(pieces)|
    ensures (pieces + [x])[|pieces|] == x
  {
    assert (pieces + [x])[..|pieces|] == pieces;
  }

  /** The text under a chosen token lower-cases to that token. */
  lemma ChosenSliceLowers(text: string, tokens: seq<string>, i: nat, k: nat)
    requires Chosen(tokens, Lower(text), i, k)
    ensures i + |tokens[k]| <= |text|
    ensures Lower(text[i..i + |tokens[k]|]) == tokens[k]
  {
    LowerSlice(text, i, i + |tokens[k]|);
  }

  /** The inner loop of `highlightText`: try the sorted tokens in order at
      position `i`, skipping empty ones, and stop at the first that occurs there
      in the lower-cased text. It finds `FirstMatch`, and returns where the
      match ends and the matched slice of the original text. */
  method FirstMatchScan(text: string, lowerText: string, i: nat, sortedTokens: seq<string>)
    returns (matchEnd: Option<nat>, matchToken: string)
    requires |lowerText| == |text| && i <= |text|
    ensures var r := FirstMatch(lowerText, i, sortedTokens);
      && (r.None? <==> matchEnd.None?)
      && (r.Some? ==> i + |r.value| <= |text| && matchEnd == Some(i + |r.value|)
                      && matchToken == text[i..i + |r.value|])
  {
    matchEnd := None;
    matchToken := "";
    for k := 0 to |sortedTokens|
      invariant matchEnd.None?
      invariant FirstMatch(lowerText, i, sortedTokens) == FirstMatch(lowerText, i, sortedTokens[k..])
    {
      var token := sortedTokens[k];
      assert sortedTokens[k..] == [token] + sortedTokens[k + 1..];
      if token == [] {
        continue;
      }
      if OccursAt(token, lowerText, i) {
        matchEnd := Some(i + |token|);
        matchToken := text[i..i + |token|];
        return;
      }
    }
  }

  /** One turn of the outer loop of `highlightText`: the piece that starts at
      `i` (the first sorted token that matches there, in the text's own casing,
      or else the single character) and the position after it. */
  method NextPiece(text: string, tokens: seq<string>, lowerText: string, sortedTokens: seq<string>,
                   i: nat, ghost pieces: seq<Segment>)
    returns (next: Segment, j: nat)
    requires lowerText == Lower(text) && sortedTokens == SortByLength(Filter(tokens, NonEmpty))
    requires i < |text| && Flatten(pieces) == text[..i]
    ensures i < j <= |text| && next.text == text[i..j]
    ensures PieceFits(text, tokens, pieces + [next], |pieces|)
  {
    var matchEnd, matchToken := FirstMatchScan(text, lowerText, i, sortedTokens);
    ghost var found := FirstMatch(lowerText, i, sortedTokens);
    if matchEnd.Some? {
      ghost var k := ChosenIndex(lowerText, i, tokens, found.value);
      MarkedPieceFits(text, tokens, pieces, i, k);
      assert matchToken == text[i..i + |tokens[k]|] && matchEnd.value == i + |tokens[k]|;
      next := Marked(matchToken);
      j := matchEnd.value;
    } else {
      ScanFindsChosen(lowerText, i, tokens);
      PlainPieceFits(text, tokens, pieces, i);
      next := Plain([text[i]]);
      j := i + 1;
    }
  }

  /** `highlightText`: walk the text with a cursor; at each position try the
      non-empty tokens longest first and mark the first that matches the
      lower-cased text, else emit one plain character. With no tokens at all the
      text comes back whole, as one plain piece. */
  method HighlightText(text: string, tokens: seq<string>) returns (pieces: seq<Segment>)
    ensures tokens == [] ==> pieces == [Plain(text)]
    ensures Flatten(pieces) == text
    ensures tokens != [] ==> IsHighlighting(text, tokens, pieces)
  {
    if |tokens| == 0 {
      pieces := [Plain(text)];
      assert pieces[..0] == [];
      return;
    }
    var sortedTokens := SortByLength(Filter(tokens, NonEmpty));
    pieces := [];
    var i := 0;
    var lowerText := Lower(text);
    while i < |text|
      invariant 0 <= i <= |text|
      invariant Flatten(pieces) == text[..i]
      invariant forall p :: 0 <= p < |pieces| ==> PieceFits(text, tokens, pieces, p)
      decreases |text| - i
    {
      var next, j := NextPiece(text, tokens, lowerText, sortedTokens, i, pieces);
      AppendFits(text, tokens, pieces, i, j, next);
      pieces := pieces + [next];
      i := j;
    }
  }
}
