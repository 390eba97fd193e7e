/**
 What a filename pattern extracts (`match_pattern` in `services/media_matching.rs`): the season and
 episode numbers, read from the groups that the regex engine captured.

 When a filename can be cut into pieces for the tokens in several ways, the engine's preference
 decides. Here that preference is shown to be the longest-piece-first reading of the tokens.
 */
module PatternCaptures {
  import opened Options
  import opened RegexSubset
  import opened FilenamePatterns
  import opened Text

  // -------------------------------------------- the longest-first reading

  function Join(pieces: seq<string>): string
  {
    if pieces == [] then [] else pieces[0] + Join(pieces[1..])
  }

  /** The filename cut into one fitting piece for each token. */
  ghost predicate IsCut(tokens: seq<Token>, pieces: seq<string>, digit: char -> bool, f: string)
  {
    && |pieces| == |tokens|
    && Join(pieces) == f
    && forall p :: 0 <= p < |tokens| ==> Fits(tokens[p], NotNewline, digit, pieces[p])
  }

  /** Where the two lists of pieces first differ in length, the first list has the longer piece. */
  predicate LongerFirst(a: seq<string>, b: seq<string>)
  {
    a == [] || b == [] || |a[0]| > |b[0]| || (|a[0]| == |b[0]| && LongerFirst(a[1..], b[1..]))
  }

  /** A cut whose pieces are each as long as the later tokens allow. */
  ghost function Greedy(tokens: seq<Token>, digit: char -> bool, f: string): (r: Option<seq<string>>)
    decreases |tokens|, |f| + 1
  {
    if tokens == [] then (if f == [] then Some([]) else None)
    else GreedyFrom(tokens, digit, f, |f|)
  }

  /** The same with a first piece of at most `k` characters. */
  ghost function GreedyFrom(tokens: seq<Token>, digit: char -> bool, f: string, k: nat): (r: Option<seq<string>>)
    requires tokens != [] && k <= |f|
    decreases |tokens|, k
  {
    if Fits(tokens[0], NotNewline, digit, f[..k]) && Greedy(tokens[1..], digit, f[k..]).Some? then
      Some([f[..k]] + Greedy(tokens[1..], digit, f[k..]).value)
    else if k == 0 then None
    else GreedyFrom(tokens, digit, f, k - 1)
  }

  lemma {:induction false} GreedyFindsAll(tokens: seq<Token>, digit: char -> bool, f: string)
    ensures Greedy(tokens, digit, f).Some? <==> Describes(tokens, NotNewline, digit, f)
    decreases |tokens|, |f| + 1
  {
    if tokens != [] {
      GreedyFromFindsAll(tokens, digit, f, |f|);
    }
  }

  lemma {:induction false} GreedyFromFindsAll(tokens: seq<Token>, digit: char -> bool, f: string, k: nat)
    requires tokens != [] && k <= |f|
    ensures GreedyFrom(tokens, digit, f, k).Some? <==>
            exists n :: 0 <= n <= k && Fits(tokens[0], NotNewline, digit, f[..n])
                && Describes(tokens[1..], NotNewline, digit, f[n..])
    decreases |tokens|, k
  {
    GreedyFindsAll(tokens[1..], digit, f[k..]);
    if k > 0 {
      GreedyFromFindsAll(tokens, digit, f, k - 1);
    }
  }

  lemma CutStep(tokens: seq<Token>, piece: string, pieces: seq<string>, digit: char -> bool, f: string)
    requires tokens != [] && |piece| <= |f| && piece == f[..|piece|]
    ensures IsCut(tokens, [piece] + pieces, digit, f)
       <==> Fits(tokens[0], NotNewline, digit, piece) && IsCut(tokens[1..], pieces, digit, f[|piece|..])
  {
    var all := [piece] + pieces;
    assert all[1..] == pieces;
    assert Join(all) == f <==> Join(pieces) == f[|piece|..];
    if IsCut(tokens, all, digit, f) {
      forall p | 0 <= p < |tokens| - 1 ensures Fits(tokens[1..][p], NotNewline, digit, pieces[p]) {
        assert all[p + 1] == pieces[p];
      }
    }
  }

  /** The longest-first reading is a cut of the filename, and no cut comes before it. */
  lemma {:induction false} GreedyComesFirst(tokens: seq<Token>, digit: char -> bool, f: string)
    ensures Greedy(tokens, digit, f).Some? ==> IsCut(tokens, Greedy(tokens, digit, f).value, digit, f)
    ensures forall pieces :: IsCut(tokens, pieces, digit, f) ==>
              Greedy(tokens, digit, f).Some? && LongerFirst(Greedy(tokens, digit, f).value, pieces)
    decreases |tokens|, |f| + 1
  {
    if tokens != [] {
      GreedyFromComesFirst(tokens, digit, f, |f|);
      forall pieces | IsCut(tokens, pieces, digit, f) ensures |pieces[0]| <= |f| {}
    }
  }

  lemma {:induction false} GreedyFromComesFirst(tokens: seq<Token>, digit: char -> bool, f: string, k: nat)
    requires tokens != [] && k <= |f|
    ensures var r := GreedyFrom(tokens, digit, f, k); r.Some? ==> IsCut(tokens, r.value, digit, f) && |r.value[0]| <= k
    ensures forall pieces :: IsCut(tokens, pieces, digit, f) && |pieces[0]| <= k ==>
              GreedyFrom(tokens, digit, f, k).Some? && LongerFirst(GreedyFrom(tokens, digit, f, k).value, pieces)
    decreases |tokens|, k
  {
    var later := Greedy(tokens[1..], digit, f[k..]);
    GreedyComesFirst(tokens[1..], digit, f[k..]);
    if k > 0 {
      GreedyFromComesFirst(tokens, digit, f, k - 1);
    }
    if later.Some? {
      CutStep(tokens, f[..k], later.value, digit, f);
      assert ([f[..k]] + later.value)[1..] == later.value;
    }
    forall pieces | IsCut(tokens, pieces, digit, f) && |pieces[0]| <= k
      ensures GreedyFrom(tokens, digit, f, k).Some? && LongerFirst(GreedyFrom(tokens, digit, f, k).value, pieces)
    {
      var first, others := pieces[0], pieces[1..];
      assert pieces == [first] + others && f == first + Join(others);
      CutStep(tokens, first, others, digit, f);
    }
  }

  // ----------------------------------------- the engine's order on tokens

  /** Matches that capture nothing, longest first: all the runs of `kind` that have a length from `lo` to `hi`. */
  ghost predicate Runs(found: seq<Found>, kind: char -> bool, lo: nat, hi: nat, s: string, i: nat)
    requires i <= |s|
  {
    && (forall p :: 0 <= p < |found| ==> found[p].groups == [] && IsRun(kind, lo, hi, s, i, found[p].end))
    && (forall p, q :: 0 <= p < q < |found| ==> found[p].end > found[q].end)
    && (forall j :: IsRun(kind, lo, hi, s, i, j) ==> EndsAt(found, j))
  }

  ghost predicate IsRun(kind: char -> bool, lo: nat, hi: nat, s: string, i: nat, j: int)
    requires i <= |s|
  {
    i <= j <= |s| && lo <= j - i <= hi && AllIn(s[i..j], kind)
  }

  ghost predicate EndsAt(found: seq<Found>, j: int)
  {
    exists p :: 0 <= p < |found| && found[p].end == j
  }

  lemma RunStep(kind: char -> bool, lo: nat, hi: nat, s: string, i: nat, j: int)
    requires i < |s| && i < j && hi > 0 && kind(s[i])
    ensures IsRun(kind, lo, hi, s, i, j) <==> IsRun(kind, if lo == 0 then 0 else lo - 1, hi - 1, s, i + 1, j)
  {
    if j <= |s| {
      assert s[i..j] == [s[i]] + s[i + 1..j];
    }
  }

  /** The runs from `i` are those from the next position, and the empty one last. */
  lemma RunsStep(found: seq<Found>, kind: char -> bool, lo: nat, hi: nat, s: string, i: nat)
    requires i < |s| && hi > 0 && kind(s[i])
    requires Runs(found, kind, if lo == 0 then 0 else lo - 1, hi - 1, s, i + 1)
    ensures Runs(found + (if lo == 0 then [Found(i, [])] else []), kind, lo, hi, s, i)
  {
    var last := if lo == 0 then [Found(i, [])] else [];
    forall p | 0 <= p < |found| ensures IsRun(kind, lo, hi, s, i, found[p].end) {
      RunStep(kind, lo, hi, s, i, found[p].end);
    }
    forall j | IsRun(kind, lo, hi, s, i, j) ensures EndsAt(found + last, j) {
      if j == i {
        assert last[0].end == j;
      } else {
        RunStep(kind, lo, hi, s, i, j);
      }
      EndsAtEither(found, last, j);
    }
  }

  lemma EndsAtEither(a: seq<Found>, b: seq<Found>, j: int)
    requires EndsAt(a, j) || EndsAt(b, j)
    ensures EndsAt(a + b, j)
  {
    if EndsAt(a, j) {
      var p :| 0 <= p < |a| && a[p].end == j;
      assert (a + b)[p].end == j;
    } else {
      var p :| 0 <= p < |b| && b[p].end == j;
      assert (a + b)[|a| + p].end == j;
    }
  }

  /** Where no character can be added there is at most the empty run. */
  lemma RunsStop(kind: char -> bool, lo: nat, hi: nat, s: string, i: nat)
    requires i <= |s| && (i == |s| || hi == 0 || !kind(s[i]))
    ensures Runs(if lo == 0 then [Found(i, [])] else [], kind, lo, hi, s, i)
  {
    var all := if lo == 0 then [Found(i, [])] else [];
    forall j | i < j <= |s| ensures s[i] in s[i..j] {}
    forall j | IsRun(kind, lo, hi, s, i, j) ensures EndsAt(all, j) {
      assert all[0].end == j;
    }
  }

  /** Continuing a single match that captured nothing. */
  lemma PrefixedNothing(found: seq<Found>)
    ensures Prefixed([], found) == found
  {
    forall p | 0 <= p < |found| ensures Prefixed([], found)[p] == found[p] {
      assert [] + found[p].groups == found[p].groups;
    }
  }

  lemma ThenOne(end: nat, re: Regex, digit: char -> bool, s: string, low: nat)
    requires low <= end <= |s|
    ensures Then([Found(end, [])], re, digit, s, low) == Ends(re, digit, s, end)
  {
    PrefixedNothing(Ends(re, digit, s, end));
    assert [Found(end, [])][1..] == [];
  }

  lemma ThenTimesOne(end: nat, re: Regex, lo: nat, hi: nat, digit: char -> bool, s: string, low: nat)
    requires low <= end <= |s|
    ensures ThenTimes([Found(end, [])], re, lo, hi, digit, s, low) == EndsTimes(re, lo, hi, digit, s, end)
  {
    PrefixedNothing(EndsTimes(re, lo, hi, digit, s, end));
    assert [Found(end, [])][1..] == [];
  }

  /** The list that a repetition of one-character matches yields. */
  function RunList(kind: char -> bool, lo: nat, hi: nat, s: string, i: nat): (r: seq<Found>)
    requires i <= |s|
    ensures forall p :: 0 <= p < |r| ==> i <= r[p].end <= |s|
    decreases hi
  {
    (if i < |s| && hi > 0 && kind(s[i]) then RunList(kind, if lo == 0 then 0 else lo - 1, hi - 1, s, i + 1) else [])
    + (if lo == 0 then [Found(i, [])] else [])
  }

  lemma {:induction false} RunListRuns(kind: char -> bool, lo: nat, hi: nat, s: string, i: nat)
    requires i <= |s|
    ensures Runs(RunList(kind, lo, hi, s, i), kind, lo, hi, s, i)
    decreases hi
  {
    if i < |s| && hi > 0 && kind(s[i]) {
      var less := if lo == 0 then 0 else lo - 1;
      RunListRuns(kind, less, hi - 1, s, i + 1);
      RunsStep(RunList(kind, less, hi - 1, s, i + 1), kind, lo, hi, s, i);
    } else {
      RunsStop(kind, lo, hi, s, i);
      assert RunList(kind, lo, hi, s, i) == if lo == 0 then [Found(i, [])] else [];
    }
  }

  /** One more repetition is preferred to stopping. */
  lemma StarStep(digit: char -> bool, s: string, i: nat)
    requires i < |s| && s[i] != '\n'
    ensures Ends(Star(AnyChar), digit, s, i) == Ends(Star(AnyChar), digit, s, i + 1) + [Found(i, [])]
  {
    var one := [Found(i + 1, [])];
    assert one[1..] == [];
    assert Longer(one, i) == one + Longer([], i) == one;
    ThenOne(i + 1, Star(AnyChar), digit, s, i + 1);
  }

  lemma {:induction false} StarEnds(digit: char -> bool, s: string, i: nat)
    requires i <= |s|
    ensures Ends(Star(AnyChar), digit, s, i) == RunList(NotNewline, 0, |s| - i, s, i)
    decreases |s| - i
  {
    if i < |s| && s[i] != '\n' {
      StarEnds(digit, s, i + 1);
      StarStep(digit, s, i);
    }
  }

  lemma DigitStep(lo: nat, less: nat, hi: nat, digit: char -> bool, s: string, i: nat)
    requires i < |s| && hi > 0 && digit(s[i]) && less == if lo == 0 then 0 else lo - 1
    ensures EndsTimes(Digit, lo, hi, digit, s, i)
         == EndsTimes(Digit, less, hi - 1, digit, s, i + 1) + (if lo == 0 then [Found(i, [])] else [])
  {
    ThenTimesOne(i + 1, Digit, less, hi - 1, digit, s, i);
  }

  lemma DigitStop(lo: nat, hi: nat, digit: char -> bool, s: string, i: nat)
    requires i <= |s| && (i == |s| || hi == 0 || !digit(s[i]))
    ensures EndsTimes(Digit, lo, hi, digit, s, i) == if lo == 0 then [Found(i, [])] else []
  {
  }

  lemma RunListStep(kind: char -> bool, lo: nat, less: nat, hi: nat, s: string, i: nat)
    requires i < |s| && hi > 0 && kind(s[i]) && less == if lo == 0 then 0 else lo - 1
    ensures RunList(kind, lo, hi, s, i)
         == RunList(kind, less, hi - 1, s, i + 1) + (if lo == 0 then [Found(i, [])] else [])
  {
  }

  lemma RunListStop(kind: char -> bool, lo: nat, hi: nat, s: string, i: nat)
    requires i <= |s| && (i == |s| || hi == 0 || !kind(s[i]))
    ensures RunList(kind, lo, hi, s, i) == if lo == 0 then [Found(i, [])] else []
  {
  }

  lemma DigitEndsStep(lo: nat, less: nat, hi: nat, digit: char -> bool, s: string, i: nat)
    requires i < |s| && hi > 0 && digit(s[i]) && less == if lo == 0 then 0 else lo - 1
    requires EndsTimes(Digit, less, hi - 1, digit, s, i + 1) == RunList(digit, less, hi - 1, s, i + 1)
    ensures EndsTimes(Digit, lo, hi, digit, s, i) == RunList(digit, lo, hi, s, i)
  {
    DigitStep(lo, less, hi, digit, s, i);
    RunListStep(digit, lo, less, hi, s, i);
  }

  lemma DigitEndsStop(lo: nat, hi: nat, digit: char -> bool, s: string, i: nat)
    requires i <= |s| && (i == |s| || hi == 0 || !digit(s[i]))
    ensures EndsTimes(Digit, lo, hi, digit, s, i) == RunList(digit, lo, hi, s, i)
  {
    DigitStop(lo, hi, digit, s, i);
    RunListStop(digit, lo, hi, s, i);
  }

  lemma {:induction false} DigitEnds(lo: nat, hi: nat, digit: char -> bool, s: string, i: nat)
    requires i <= |s|
    ensures EndsTimes(Digit, lo, hi, digit, s, i) == RunList(digit, lo, hi, s, i)
    decreases hi
  {
    if i < |s| && hi > 0 && digit(s[i]) {
      var less := if lo == 0 then 0 else lo - 1;
      DigitEnds(less, hi - 1, digit, s, i + 1);
      DigitEndsStep(lo, less, hi, digit, s, i);
    } else {
      DigitEndsStop(lo, hi, digit, s, i);
    }
  }

  lemma {:induction false} ThenEmpty(found: seq<Found>, digit: char -> bool, s: string, low: nat)
    requires low <= |s| && forall p :: 0 <= p < |found| ==> low <= found[p].end <= |s|
    ensures Then(found, Empty, digit, s, low) == found
    decreases |found|
  {
    if found != [] {
      ThenEmpty(found[1..], digit, s, low);
      assert found[0].groups + [] == found[0].groups;
      assert Prefixed(found[0].groups, [Found(found[0].end, [])]) == [found[0]];
    }
  }

  /** What a token captures when this is its piece. */
  function TokenGroups(token: Token, piece: string): seq<Span>
  {
    if token.Number? then [Span(GroupName(token.kind), piece)] else []
  }

  /** Matches of a token from `i`, longest first: all those that end at `top` or before. */
  ghost predicate LongestFirst(found: seq<Found>, token: Token, digit: char -> bool, s: string, i: nat, top: int)
    requires i <= |s|
  {
    && (forall p :: 0 <= p < |found| ==>
          found[p].end <= top && Piece(token, digit, s, i, found[p].end)
              && found[p].groups == TokenGroups(token, s[i..found[p].end]))
    && (forall p, q :: 0 <= p < q < |found| ==> found[p].end > found[q].end)
    && (forall j: nat :: Piece(token, digit, s, i, j) && j <= top ==> EndsAt(found, j))
  }

  ghost predicate Piece(token: Token, digit: char -> bool, s: string, i: nat, j: nat)
    requires i <= |s|
  {
    i <= j <= |s| && Fits(token, NotNewline, digit, s[i..j])
  }

  /** Runs of text are what `*` asks for. */
  lemma TextRuns(runs: seq<Found>, digit: char -> bool, s: string, i: nat)
    requires i <= |s| && Runs(runs, NotNewline, 0, |s| - i, s, i)
    ensures LongestFirst(runs, AnyText, digit, s, i, |s|)
  {
    forall j: nat ensures Piece(AnyText, digit, s, i, j) <==> IsRun(NotNewline, 0, |s| - i, s, i, j) {}
  }

  lemma DigitsEnds(most: nat, digit: char -> bool, s: string, i: nat)
    requires i <= |s|
    ensures Ends(Cat(Repeat(Digit, 1, most), Empty), digit, s, i) == RunList(digit, 1, most, s, i)
  {
    DigitEnds(1, most, digit, s, i);
    ThenEmpty(Ends(Repeat(Digit, 1, most), digit, s, i), digit, s, i);
  }

  lemma NumberPiece(kind: NumberKind, digit: char -> bool, s: string, i: nat, j: nat)
    requires i <= |s|
    ensures Piece(Number(kind), digit, s, i, j) <==> IsRun(digit, 1, MostDigits(kind), s, i, j)
  {
  }

  lemma CapturedAre(kind: NumberKind, runs: seq<Found>, digit: char -> bool, s: string, i: nat, p: nat)
    requires i <= |s| && Runs(runs, digit, 1, MostDigits(kind), s, i) && p < |runs|
    ensures var found := Capture(GroupName(kind), s, i, runs);
            && found[p].end == runs[p].end && Piece(Number(kind), digit, s, i, found[p].end)
            && found[p].groups == TokenGroups(Number(kind), s[i..found[p].end])
  {
    assert runs[p].groups == [];
    NumberPiece(kind, digit, s, i, runs[p].end);
  }

  lemma AllCaptured(kind: NumberKind, runs: seq<Found>, digit: char -> bool, s: string, i: nat, j: nat)
    requires i <= |s| && Runs(runs, digit, 1, MostDigits(kind), s, i) && Piece(Number(kind), digit, s, i, j)
    ensures EndsAt(Capture(GroupName(kind), s, i, runs), j)
  {
    NumberPiece(kind, digit, s, i, j);
    assert EndsAt(runs, j);
    var p :| 0 <= p < |runs| && runs[p].end == j;
    assert Capture(GroupName(kind), s, i, runs)[p].end == j;
  }

  lemma CaptureRuns(kind: NumberKind, runs: seq<Found>, digit: char -> bool, s: string, i: nat)
    requires i <= |s| && Runs(runs, digit, 1, MostDigits(kind), s, i)
    ensures LongestFirst(Capture(GroupName(kind), s, i, runs), Number(kind), digit, s, i, |s|)
  {
    var found := Capture(GroupName(kind), s, i, runs);
    forall p | 0 <= p < |found|
      ensures found[p].end == runs[p].end && Piece(Number(kind), digit, s, i, found[p].end)
      ensures found[p].groups == TokenGroups(Number(kind), s[i..found[p].end])
    {
      CapturedAre(kind, runs, digit, s, i, p);
    }
    forall j: nat | Piece(Number(kind), digit, s, i, j) ensures EndsAt(found, j) {
      AllCaptured(kind, runs, digit, s, i, j);
    }
  }

  lemma NumberEnds(kind: NumberKind, digit: char -> bool, s: string, i: nat)
    requires i <= |s|
    ensures Ends(TokenRegex(Number(kind)), digit, s, i)
         == Capture(GroupName(kind), s, i, RunList(digit, 1, MostDigits(kind), s, i))
  {
    DigitsEnds(MostDigits(kind), digit, s, i);
  }

  lemma OneEnds(token: Token, digit: char -> bool, s: string, i: nat)
    requires i <= |s| && (token.AnyOne? || token.Literal?)
    ensures LongestFirst(Ends(TokenRegex(token), digit, s, i), token, digit, s, i, |s|)
  {
    var found := Ends(TokenRegex(token), digit, s, i);
    forall j: nat ensures Piece(token, digit, s, i, j) <==> j == i + 1 && found == [Found(j, [])] {
      assert j == i + 1 <= |s| ==> s[i..j] == [s[i]];
    }
    assert found != [] ==> found[0].end == i + 1;
  }

  /** The engine lists the matches of a compiled token longest first. */
  lemma TokenEnds(token: Token, digit: char -> bool, s: string, i: nat) returns (found: seq<Found>)
    requires i <= |s|
    ensures found == Ends(TokenRegex(token), digit, s, i)
    ensures LongestFirst(found, token, digit, s, i, |s|)
  {
    match token
    case AnyText =>
      found := RunList(NotNewline, 0, |s| - i, s, i);
      StarEnds(digit, s, i);
      RunListRuns(NotNewline, 0, |s| - i, s, i);
      TextRuns(found, digit, s, i);
    case AnyOne =>
      found := Ends(TokenRegex(token), digit, s, i);
      OneEnds(token, digit, s, i);
    case Number(kind) =>
      var runs := RunList(digit, 1, MostDigits(kind), s, i);
      found := Capture(GroupName(kind), s, i, runs);
      NumberEnds(kind, digit, s, i);
      RunListRuns(digit, 1, MostDigits(kind), s, i);
      CaptureRuns(kind, runs, digit, s, i);
    case Literal(c) =>
      found := Ends(TokenRegex(token), digit, s, i);
      OneEnds(token, digit, s, i);
  }

  // ------------------------------------------ the engine's order on lists

  /** What the tokens capture when these are their pieces. */
  function Spans(tokens: seq<Token>, pieces: seq<string>): seq<Span>
  {
    if tokens == [] || pieces == [] then []
    else TokenGroups(tokens[0], pieces[0]) + Spans(tokens[1..], pieces[1..])
  }

  /** The most preferred of these matches is the given cut of the rest of the text. */
  ghost predicate Prefers(found: seq<Found>, tokens: seq<Token>, cut: Option<seq<string>>, s: string)
  {
    && (found == [] <==> cut == None)
    && (cut.Some? ==> found != [] && found[0] == Found(|s|, Spans(tokens, cut.value)))
  }

  /** The cut that the first of these matches gives after which the later tokens can be satisfied. */
  ghost function Pick(found: seq<Found>, tokens: seq<Token>, digit: char -> bool, s: string,
                      i: nat): (r: Option<seq<string>>)
    requires tokens != [] && forall p :: 0 <= p < |found| ==> i <= found[p].end <= |s|
    decreases |found|
  {
    if found == [] then None else
    match Greedy(tokens[1..], digit, s[found[0].end..])
    case Some(later) => Some([s[i..found[0].end]] + later)
    case None => Pick(found[1..], tokens, digit, s, i)
  }

  lemma NoTokenEnds(digit: char -> bool, s: string, i: nat)
    requires i <= |s|
    ensures Ends(TokensRegex([]), digit, s, i) == if i == |s| then [Found(i, [])] else []
  {
    ThenEmpty(Ends(End, digit, s, i), digit, s, i);
  }

  lemma LongestIsGreedy(found: seq<Found>, tokens: seq<Token>, digit: char -> bool, s: string, i: nat)
    requires tokens != [] && i <= |s|
    requires LongestFirst(found, tokens[0], digit, s, i, |s|)
    ensures Pick(found, tokens, digit, s, i) == Greedy(tokens, digit, s[i..])
  {
    PickIsGreedy(found, tokens, digit, s, i, |s| - i);
  }

  lemma {:induction false} TokensEnds(tokens: seq<Token>, digit: char -> bool, s: string, i: nat)
    requires i <= |s|
    ensures Prefers(Ends(TokensRegex(tokens), digit, s, i), tokens, Greedy(tokens, digit, s[i..]), s)
    decreases |tokens|, 0, 0
  {
    if tokens == [] {
      NoTokenPrefers(digit, s, i);
    } else {
      var found := TokenEnds(tokens[0], digit, s, i);
      InRange(found, tokens[0], digit, s, i);
      ThenPicks(found, tokens, digit, s, i);
      LongestIsGreedy(found, tokens, digit, s, i);
      FirstThenRest(found, tokens, digit, s, i);
    }
  }

  lemma InRange(found: seq<Found>, token: Token, digit: char -> bool, s: string, i: nat)
    requires i <= |s| && LongestFirst(found, token, digit, s, i, |s|)
    ensures forall p :: 0 <= p < |found| ==>
              i <= found[p].end <= |s| && found[p].groups == TokenGroups(token, s[i..found[p].end])
  {
  }

  lemma FirstThenRest(found: seq<Found>, tokens: seq<Token>, digit: char -> bool, s: string, i: nat)
    requires tokens != [] && i <= |s| && found == Ends(TokenRegex(tokens[0]), digit, s, i)
    ensures Ends(TokensRegex(tokens), digit, s, i) == Then(found, TokensRegex(tokens[1..]), digit, s, i)
  {
  }

  lemma NoTokenPrefers(digit: char -> bool, s: string, i: nat)
    requires i <= |s|
    ensures Prefers(Ends(TokensRegex([]), digit, s, i), [], Greedy([], digit, s[i..]), s)
  {
    NoTokenEnds(digit, s, i);
  }

  /** The engine backtracks through the pieces in their order. */
  lemma {:induction false} ThenPicks(found: seq<Found>, tokens: seq<Token>, digit: char -> bool, s: string, i: nat)
    requires tokens != [] && i <= |s|
    requires forall p :: 0 <= p < |found| ==>
             i <= found[p].end <= |s| && found[p].groups == TokenGroups(tokens[0], s[i..found[p].end])
    ensures Prefers(Then(found, TokensRegex(tokens[1..]), digit, s, i), tokens, Pick(found, tokens, digit, s, i), s)
    decreases |tokens| - 1, 1, |found|
  {
    if found != [] {
      TokensEnds(tokens[1..], digit, s, found[0].end);
      var later := Greedy(tokens[1..], digit, s[found[0].end..]);
      if later.Some? {
        TakeFirst(found, tokens, later.value, digit, s, i);
      } else {
        SkipFirst(found, TokensRegex(tokens[1..]), digit, s, i);
        ThenPicks(found[1..], tokens, digit, s, i);
      }
    }
  }

  /** The longest piece, when the later tokens can be satisfied after it. */
  lemma TakeFirst(found: seq<Found>, tokens: seq<Token>, later: seq<string>, digit: char -> bool, s: string, i: nat)
    requires tokens != [] && i <= |s| && forall p :: 0 <= p < |found| ==> i <= found[p].end <= |s|
    requires found != [] && found[0].groups == TokenGroups(tokens[0], s[i..found[0].end])
    requires Prefers(Ends(TokensRegex(tokens[1..]), digit, s, found[0].end), tokens[1..], Some(later), s)
    ensures Prefers(Then(found, TokensRegex(tokens[1..]), digit, s, i), tokens, Some([s[i..found[0].end]] + later), s)
  {
    var cut := [s[i..found[0].end]] + later;
    assert cut[1..] == later;
    assert Spans(tokens, cut) == TokenGroups(tokens[0], s[i..found[0].end]) + Spans(tokens[1..], later);
  }

  /** A piece after which the later tokens cannot be satisfied is passed over. */
  lemma SkipFirst(found: seq<Found>, re: Regex, digit: char -> bool, s: string, low: nat)
    requires low <= |s| && forall p :: 0 <= p < |found| ==> low <= found[p].end <= |s|
    requires found != [] && Ends(re, digit, s, found[0].end) == []
    ensures Then(found, re, digit, s, low) == Then(found[1..], re, digit, s, low)
  {
  }

  /** Backtracking through all pieces, longest first, is the longest-first reading. */
  lemma {:induction false} PickIsGreedy(found: seq<Found>, tokens: seq<Token>, digit: char -> bool, s: string,
                                        i: nat, k: nat)
    requires tokens != [] && i + k <= |s|
    requires LongestFirst(found, tokens[0], digit, s, i, i + k)
    ensures Pick(found, tokens, digit, s, i) == GreedyFrom(tokens, digit, s[i..], k)
    decreases k
  {
    GreedyStep(tokens, digit, s, i, k);
    if Fits(tokens[0], NotNewline, digit, s[i..i + k]) {
      FirstIsLongest(found, tokens[0], digit, s, i, k);
      PickStep(found, tokens, digit, s, i, i + k);
      if k > 0 && Greedy(tokens[1..], digit, s[i + k..]) == None {
        PickIsGreedy(found[1..], tokens, digit, s, i, k - 1);
      }
    } else {
      ShorterOnly(found, tokens[0], digit, s, i, k);
      if k > 0 {
        PickIsGreedy(found, tokens, digit, s, i, k - 1);
      }
    }
  }

  lemma PickStep(found: seq<Found>, tokens: seq<Token>, digit: char -> bool, s: string, i: nat, j: nat)
    requires tokens != [] && i <= j <= |s|
    requires found != [] && found[0].end == j && forall p :: 0 <= p < |found| ==> i <= found[p].end <= |s|
    ensures Greedy(tokens[1..], digit, s[j..]).Some? ==>
              Pick(found, tokens, digit, s, i) == Some([s[i..j]] + Greedy(tokens[1..], digit, s[j..]).value)
    ensures Greedy(tokens[1..], digit, s[j..]) == None && found[1..] == [] ==> Pick(found, tokens, digit, s, i) == None
    ensures Greedy(tokens[1..], digit, s[j..]) == None ==>
              Pick(found, tokens, digit, s, i) == Pick(found[1..], tokens, digit, s, i)
  {
  }

  lemma GreedyStep(tokens: seq<Token>, digit: char -> bool, s: string, i: nat, k: nat)
    requires tokens != [] && i + k <= |s|
    ensures Fits(tokens[0], NotNewline, digit, s[i..i + k]) && Greedy(tokens[1..], digit, s[i + k..]).Some? ==>
              GreedyFrom(tokens, digit, s[i..], k) == Some([s[i..i + k]] + Greedy(tokens[1..], digit, s[i + k..]).value)
    ensures !(Fits(tokens[0], NotNewline, digit, s[i..i + k]) && Greedy(tokens[1..], digit, s[i + k..]).Some?) ==>
              GreedyFrom(tokens, digit, s[i..], k) == if k == 0 then None else GreedyFrom(tokens, digit, s[i..], k - 1)
  {
    assert s[i..][..k] == s[i..i + k] && s[i..][k..] == s[i + k..];
  }

  lemma FirstIsLongest(found: seq<Found>, token: Token, digit: char -> bool, s: string, i: nat, k: nat)
    requires i + k <= |s| && LongestFirst(found, token, digit, s, i, i + k)
    requires Fits(token, NotNewline, digit, s[i..i + k])
    ensures found != [] && found[0] == Found(i + k, TokenGroups(token, s[i..i + k]))
    ensures LongestFirst(found[1..], token, digit, s, i, i + k - 1)
    ensures k == 0 ==> found[1..] == []
  {
    LongestIsFirst(found, token, digit, s, i, i + k);
    WithoutFirst(found, token, digit, s, i, i + k);
  }

  lemma LongestIsFirst(found: seq<Found>, token: Token, digit: char -> bool, s: string, i: nat, top: nat)
    requires i <= top <= |s| && LongestFirst(found, token, digit, s, i, top)
    requires Fits(token, NotNewline, digit, s[i..top])
    ensures found != [] && found[0] == Found(top, TokenGroups(token, s[i..top]))
  {
    assert Piece(token, digit, s, i, top) && EndsAt(found, top);
    var p :| 0 <= p < |found| && found[p].end == top;
    assert found[0].end <= top;
    assert p == 0;
  }

  lemma WithoutFirst(found: seq<Found>, token: Token, digit: char -> bool, s: string, i: nat, top: nat)
    requires i <= top <= |s| && LongestFirst(found, token, digit, s, i, top)
    requires found != [] && found[0].end == top
    ensures LongestFirst(found[1..], token, digit, s, i, top - 1)
    ensures i == top ==> found[1..] == []
  {
    var rest := found[1..];
    forall q | 0 <= q < |rest| ensures rest[q] == found[q + 1] && i <= rest[q].end < top {
      assert Piece(token, digit, s, i, found[q + 1].end);
    }
    assert rest != [] ==> i <= rest[0].end < top;
    forall j: nat | Piece(token, digit, s, i, j) && j <= top - 1 ensures EndsAt(rest, j) {
      assert EndsAt(found, j);
      var q :| 0 <= q < |found| && found[q].end == j;
      assert rest[q - 1].end == j;
    }
  }

  lemma ShorterOnly(found: seq<Found>, token: Token, digit: char -> bool, s: string, i: nat, k: nat)
    requires i + k <= |s| && LongestFirst(found, token, digit, s, i, i + k)
    requires !Fits(token, NotNewline, digit, s[i..i + k])
    ensures LongestFirst(found, token, digit, s, i, i + k - 1)
    ensures k == 0 ==> found == []
  {
    forall p | 0 <= p < |found| ensures i <= found[p].end < i + k {
      assert Piece(token, digit, s, i, found[p].end);
    }
    assert found != [] ==> i <= found[0].end < i + k;
  }

  // ----------------------------------------------------------- the search

  lemma {:induction false} NothingLater(re: Regex, digit: char -> bool, s: string, i: nat)
    requires 0 < i <= |s|
    ensures Search(Cat(Start, re), digit, s, i) == None
    decreases |s| - i
  {
    assert Ends(Cat(Start, re), digit, s, i) == Then([], re, digit, s, i) == [];
    if i < |s| {
      NothingLater(re, digit, s, i + 1);
    }
  }

  /** An expression anchored at the start is found there or nowhere. */
  lemma SearchAnchored(re: Regex, digit: char -> bool, s: string)
    ensures var found := Ends(re, digit, s, 0);
            Search(Cat(Start, re), digit, s, 0) == if found == [] then None else Some(found[0])
  {
    ThenOne(0, re, digit, s, 0);
    assert Ends(Cat(Start, re), digit, s, 0) == Then([Found(0, [])], re, digit, s, 0);
    if s != [] {
      NothingLater(re, digit, s, 1);
    }
  }

  /** What the engine captures from a filename: the groups of the longest-first cut. */
  lemma CapturedGroups(tokens: seq<Token>, digit: char -> bool, f: string)
    ensures var cut := Greedy(tokens, digit, f);
            Search(Cat(Start, TokensRegex(tokens)), digit, f, 0)
            == if cut == None then None else Some(Found(|f|, Spans(tokens, cut.value)))
  {
    assert f[0..] == f;
    TokensEnds(tokens, digit, f, 0);
    SearchAnchored(TokensRegex(tokens), digit, f);
  }

  /** The engine's search agrees with the meaning of the compiled expression. */
  lemma SearchFindsMatches(tokens: seq<Token>, digit: char -> bool, f: string)
    ensures Search(Cat(Start, TokensRegex(tokens)), digit, f, 0).Some?
       <==> IsMatch(Cat(Start, TokensRegex(tokens)), digit, f)
  {
    CapturedGroups(tokens, digit, f);
    GreedyFindsAll(tokens, digit, f);
    AnchoredMeaning(tokens, digit, f);
  }

  // ---------------------------------------------------------- the numbers

  /** The text that the named group captured. */
  function Lookup(groups: seq<Span>, name: string): Option<string>
  {
    if groups == [] then None
    else if groups[0].name == name then Some(groups[0].text)
    else Lookup(groups[1..], name)
  }

  const U32_MAX := 0xFFFF_FFFF

  /** Reading a `u32`: an optional plus sign and ASCII digits, in range. */
  function ParseU32(text: string): (r: Option<nat>)
    ensures r.Some? ==> text != []
  {
    var digits := if |text| > 1 && text[0] == '+' then text[1..] else text;
    if digits == [] then None else
    var (n, rest) := ParseNumber(digits, 0);
    if rest == [] && n <= U32_MAX then Some(n) else None
  }

  /** The season and number that the captured texts give; a special belongs to season zero. */
  function Numbers(season: Option<string>, episode: Option<string>, special: Option<string>,
                   defaultSeason: nat): Option<(nat, nat)>
  {
    if episode.Some? then
      match ParseU32(episode.value)
      case None => None
      case Some(n) =>
        var s := if season.Some? then ParseU32(season.value) else None;
        Some((if s.Some? then s.value else defaultSeason, n))
    else if special.Some? then
      match ParseU32(special.value)
      case None => None
      case Some(n) => Some((0, n))
    else None
  }

  /** The piece that stands for a number of this kind. */
  function PieceOf(tokens: seq<Token>, pieces: seq<string>, kind: NumberKind): Option<string>
  {
    if tokens == [] || pieces == [] then None
    else if tokens[0] == Number(kind) then Some(pieces[0])
    else PieceOf(tokens[1..], pieces[1..], kind)
  }

  /** What the pattern says about the filename, read without any regular expression. */
  ghost function Reading(tokens: seq<Token>, digit: char -> bool, f: string, defaultSeason: nat): Option<(nat, nat)>
  {
    if !NamesOnce(tokens) then None else
    match Greedy(tokens, digit, f)
    case None => None
    case Some(cut) => Numbers(PieceOf(tokens, cut, Season), PieceOf(tokens, cut, Episode),
                              PieceOf(tokens, cut, Special), defaultSeason)
  }

  lemma NamesDiffer(a: NumberKind, b: NumberKind)
    ensures GroupName(a) == GroupName(b) <==> a == b
  {
    assert "season"[0] != "episode"[0] && "season"[1] != "special"[1] && "episode"[0] != "special"[0];
  }

  lemma {:induction false} LookupIsPiece(tokens: seq<Token>, pieces: seq<string>, kind: NumberKind)
    ensures Lookup(Spans(tokens, pieces), GroupName(kind)) == PieceOf(tokens, pieces, kind)
    decreases |tokens|
  {
    if tokens != [] && pieces != [] {
      LookupIsPiece(tokens[1..], pieces[1..], kind);
      var later := Spans(tokens[1..], pieces[1..]);
      if tokens[0].Number? {
        NamesDiffer(tokens[0].kind, kind);
        assert ([Span(GroupName(tokens[0].kind), pieces[0])] + later)[1..] == later;
      } else {
        assert [] + later == later;
      }
    }
  }

  /** Compiles the pattern, lets the engine search the filename, and reads the captured numbers. */
  method MatchPattern(pattern: string, digit: char -> bool, filename: string, defaultSeason: nat)
    returns (r: Option<(nat, nat)>)
    ensures r == (match Tokenize(pattern)
                  case None => None
                  case Some(tokens) => Reading(tokens, digit, filename, defaultSeason))
  {
    var text := PatternToRegex(pattern);
    if text == None {
      return None;
    }
    ghost var tokens := Tokenize(pattern).value;
    CompiledText(tokens, text.value);
    var re := CompileRegex(text.value);
    if re == None {
      return None;
    }
    CapturedGroups(tokens, digit, filename);
    var found := Search(re.value, digit, filename, 0);
    if found == None {
      return None;
    }
    var groups := found.value.groups;
    LookupIsPiece(tokens, Greedy(tokens, digit, filename).value, Season);
    LookupIsPiece(tokens, Greedy(tokens, digit, filename).value, Episode);
    LookupIsPiece(tokens, Greedy(tokens, digit, filename).value, Special);
    r := Numbers(Lookup(groups, "season"), Lookup(groups, "episode"), Lookup(groups, "special"), defaultSeason);
  }

  // ------------------------------------------------ what the numbers are

  lemma {:induction false} PieceFits(tokens: seq<Token>, pieces: seq<string>, digit: char -> bool, kind: NumberKind)
    requires |pieces| == |tokens|
    requires forall p :: 0 <= p < |tokens| ==> Fits(tokens[p], NotNewline, digit, pieces[p])
    ensures PieceOf(tokens, pieces, kind).Some? <==> Number(kind) in tokens
    ensures PieceOf(tokens, pieces, kind).Some? ==>
            Fits(Number(kind), NotNewline, digit, PieceOf(tokens, pieces, kind).value)
    decreases |tokens|
  {
    if tokens != [] && tokens[0] != Number(kind) {
      PieceFits(tokens[1..], pieces[1..], digit, kind);
    }
  }

  /** A number of so many digits is below that power of ten. */
  lemma {:induction false} NumberBound(s: string, acc: nat, most: nat, limit: nat)
    requires |s| <= most && acc < limit
    ensures ParseNumber(s, acc).0 < limit * Power10(most)
    decreases most
  {
    if s != [] {
      if IsAsciiDigit(s[0]) {
        NumberBound(s[1..], acc * 10 + (s[0] as int - '0' as int), most - 1, limit * 10);
      }
    }
    PowerPositive(most);
    assert limit * Power10(most) >= limit * 1;
    if most > 0 {
      assert limit * Power10(most) == limit * 10 * Power10(most - 1);
    }
  }

  function Power10(n: nat): nat
  {
    if n == 0 then 1 else 10 * Power10(n - 1)
  }

  lemma {:induction false} PowerPositive(n: nat)
    ensures Power10(n) >= 1
  {
    if n > 0 {
      PowerPositive(n - 1);
    }
  }

  /** The digits are read to the end exactly when all of them are ASCII. */
  lemma {:induction false} AsciiReads(s: string, acc: nat)
    ensures ParseNumber(s, acc).1 == [] <==> AllIn(s, IsAsciiDigit)
  {
    if s != [] {
      assert s == [s[0]] + s[1..];
      if IsAsciiDigit(s[0]) {
        AsciiReads(s[1..], acc * 10 + (s[0] as int - '0' as int));
      }
    }
  }

  /** What a captured number can be: at most three digits (two for a season), if it can be read at all. */
  lemma PieceReads(piece: string, most: nat, digit: char -> bool)
    requires 1 <= |piece| <= most <= 3 && AllIn(piece, digit)
    ensures ParseU32(piece).Some? ==> ParseU32(piece).value < Power10(most)
    ensures !digit('+') ==> (ParseU32(piece).Some? <==> AllIn(piece, IsAsciiDigit))
  {
    var digits := if |piece| > 1 && piece[0] == '+' then piece[1..] else piece;
    NumberBound(digits, 0, most, 1);
    assert Power10(3) == 1000 && Power10(2) == 100 && Power10(1) == 10;
    AsciiReads(digits, 0);
    assert piece[0] in piece;
  }

  /** The piece that decides: the episode's if the pattern has one, else the special's. */
  function DecidingPiece(tokens: seq<Token>, pieces: seq<string>): Option<string>
  {
    PieceOf(tokens, pieces, if Number(Episode) in tokens then Episode else Special)
  }

  ghost predicate DecidedInAscii(tokens: seq<Token>, digit: char -> bool, f: string)
  {
    match Greedy(tokens, digit, f)
    case None => false
    case Some(cut) =>
      match DecidingPiece(tokens, cut)
      case None => false
      case Some(piece) => AllIn(piece, IsAsciiDigit)
  }

  /** All that the longest-first cut says about its number pieces. */
  lemma CutNumbers(tokens: seq<Token>, digit: char -> bool, f: string, kind: NumberKind)
    requires Greedy(tokens, digit, f).Some?
    ensures var piece := PieceOf(tokens, Greedy(tokens, digit, f).value, kind);
            && (piece.Some? <==> Number(kind) in tokens)
            && (piece.Some? && ParseU32(piece.value).Some? ==> ParseU32(piece.value).value < Power10(MostDigits(kind)))
            && (piece.Some? && !digit('+') ==> (ParseU32(piece.value).Some? <==> AllIn(piece.value, IsAsciiDigit)))
  {
    GreedyComesFirst(tokens, digit, f);
    var cut := Greedy(tokens, digit, f).value;
    PieceFits(tokens, cut, digit, kind);
    if Number(kind) in tokens {
      PieceReads(PieceOf(tokens, cut, kind).value, MostDigits(kind), digit);
    }
  }

  /**
   When a match yields numbers: the pattern names no number twice, it describes the filename, it
   asks for an episode or a special, and the deciding piece is written in ASCII digits.
   */
  lemma MatchYieldsNumbers(tokens: seq<Token>, digit: char -> bool, f: string, defaultSeason: nat)
    requires !digit('+')
    ensures Reading(tokens, digit, f, defaultSeason).Some?
       <==> && NamesOnce(tokens)
            && Describes(tokens, NotNewline, digit, f)
            && (Number(Episode) in tokens || Number(Special) in tokens)
            && DecidedInAscii(tokens, digit, f)
  {
    GreedyFindsAll(tokens, digit, f);
    if Greedy(tokens, digit, f).Some? {
      CutNumbers(tokens, digit, f, Episode);
      CutNumbers(tokens, digit, f, Special);
    }
  }

  lemma {:induction false} JoinHas(pieces: seq<string>, p: nat, c: char)
    requires p < |pieces| && c in pieces[p]
    ensures c in Join(pieces)
  {
    if p > 0 {
      JoinHas(pieces[1..], p - 1, c);
    }
  }

  lemma {:induction false} PieceIsOneOf(tokens: seq<Token>, pieces: seq<string>, kind: NumberKind)
    requires PieceOf(tokens, pieces, kind).Some?
    ensures PieceOf(tokens, pieces, kind).value in pieces
    decreases |tokens|
  {
    if tokens[0] != Number(kind) {
      PieceIsOneOf(tokens[1..], pieces[1..], kind);
    }
  }

  /** In a filename whose digits are all ASCII, so are the pieces that stand for numbers. */
  lemma AsciiPiece(tokens: seq<Token>, digit: char -> bool, f: string, kind: NumberKind)
    requires Greedy(tokens, digit, f).Some? && Number(kind) in tokens
    requires forall c :: c in f && digit(c) ==> IsAsciiDigit(c)
    ensures PieceOf(tokens, Greedy(tokens, digit, f).value, kind).Some?
    ensures AllIn(PieceOf(tokens, Greedy(tokens, digit, f).value, kind).value, IsAsciiDigit)
  {
    var cut := Greedy(tokens, digit, f).value;
    GreedyComesFirst(tokens, digit, f);
    PieceFits(tokens, cut, digit, kind);
    PieceIsOneOf(tokens, cut, kind);
    var piece := PieceOf(tokens, cut, kind).value;
    var p :| 0 <= p < |cut| && cut[p] == piece;
    forall c | c in piece ensures IsAsciiDigit(c) {
      JoinHas(cut, p, c);
    }
  }

  /** A filename whose digits are all ASCII yields numbers exactly when a pattern that asks for them describes it. */
  lemma AsciiMatchesYieldNumbers(tokens: seq<Token>, digit: char -> bool, f: string, defaultSeason: nat)
    requires !digit('+') && forall c :: c in f && digit(c) ==> IsAsciiDigit(c)
    ensures Reading(tokens, digit, f, defaultSeason).Some?
       <==> && NamesOnce(tokens)
            && Describes(tokens, NotNewline, digit, f)
            && (Number(Episode) in tokens || Number(Special) in tokens)
  {
    MatchYieldsNumbers(tokens, digit, f, defaultSeason);
    GreedyFindsAll(tokens, digit, f);
    if Greedy(tokens, digit, f).Some? {
      if Number(Episode) in tokens {
        AsciiPiece(tokens, digit, f, Episode);
      } else if Number(Special) in tokens {
        AsciiPiece(tokens, digit, f, Special);
      }
    }
  }

  /** The Unicode class accepts a digit that the number parser then refuses. */
  lemma UnicodeDigitIsLost(digit: char -> bool, c: char, defaultSeason: nat)
    requires digit(c) && !digit('+') && !IsAsciiDigit(c)
    ensures Describes([Number(Episode)], NotNewline, digit, [c])
    ensures Reading([Number(Episode)], digit, [c], defaultSeason) == None
  {
    var tokens := [Number(Episode)];
    var f := [c];
    assert f[..1] == f && f[1..] == [] && tokens[1..] == [];
    assert Fits(tokens[0], NotNewline, digit, f[..1]) && Describes([], NotNewline, digit, []);
    MatchYieldsNumbers(tokens, digit, f, defaultSeason);
    assert Greedy([], digit, []) == Some([]);
    assert Greedy(tokens, digit, f) == Some([f] + []);
    assert DecidingPiece(tokens, [f] + []) == Some(f) && c in f;
  }

  /** The bounds of what a match yields; without an episode token the season is zero. */
  lemma MatchBounds(tokens: seq<Token>, digit: char -> bool, f: string, defaultSeason: nat)
    requires Reading(tokens, digit, f, defaultSeason).Some?
    ensures var (season, number) := Reading(tokens, digit, f, defaultSeason).value;
            && number <= 999
            && (Number(Episode) in tokens ==> season == defaultSeason || (Number(Season) in tokens && season <= 99))
            && (Number(Episode) !in tokens ==> season == 0)
  {
    CutNumbers(tokens, digit, f, Season);
    CutNumbers(tokens, digit, f, Episode);
    CutNumbers(tokens, digit, f, Special);
    assert Power10(3) == 1000 && Power10(2) == 100;
  }

  /** The season of an episode is the captured one if that is in ASCII digits, and else silently the default. */
  lemma SeasonIsCaptured(tokens: seq<Token>, digit: char -> bool, f: string, defaultSeason: nat)
    requires !digit('+') && Reading(tokens, digit, f, defaultSeason).Some? && Number(Episode) in tokens
    ensures var piece := PieceOf(tokens, Greedy(tokens, digit, f).value, Season);
            var season := Reading(tokens, digit, f, defaultSeason).value.0;
            && (piece.Some? && AllIn(piece.value, IsAsciiDigit) ==>
                ParseU32(piece.value) == Some(season) && season <= 99)
            && (!(piece.Some? && AllIn(piece.value, IsAsciiDigit)) ==> season == defaultSeason)
  {
    CutNumbers(tokens, digit, f, Season);
    CutNumbers(tokens, digit, f, Episode);
    assert Power10(2) == 100;
  }

  // ------------------------------- filenames that always yield numbers

  /** Where there are as many characters as pieces, and no piece is empty, each piece is one character. */
  lemma {:induction false} OneEach(pieces: seq<string>)
    requires forall p :: 0 <= p < |pieces| ==> |pieces[p]| >= 1
    ensures |Join(pieces)| >= |pieces|
    ensures |Join(pieces)| == |pieces| ==> forall p :: 0 <= p < |pieces| ==> pieces[p] == [Join(pieces)[p]]
    decreases |pieces|
  {
    if pieces != [] {
      OneEach(pieces[1..]);
      if |Join(pieces)| == |pieces| {
        assert |pieces[0]| == 1 && pieces[0] == [Join(pieces)[0]];
        forall p | 1 <= p < |pieces| ensures pieces[p] == [Join(pieces)[p]] {
          assert pieces[p] == pieces[1..][p - 1] && Join(pieces)[p] == Join(pieces[1..])[p - 1];
        }
      }
    }
  }

  lemma {:induction false} JoinSingles(f: string)
    ensures Join(seq(|f|, i requires 0 <= i < |f| => [f[i]])) == f
    decreases |f|
  {
    if f != [] {
      JoinSingles(f[1..]);
      var rest := f[1..];
      assert seq(|f|, i requires 0 <= i < |f| => [f[i]])[1..] == seq(|rest|, i requires 0 <= i < |rest| => [rest[i]]);
    }
  }

  /** When there is a token for every character, and each fits its own, the cut is the only one. */
  lemma SingleCut(tokens: seq<Token>, digit: char -> bool, f: string)
    requires |tokens| == |f| && forall i :: 0 <= i < |f| ==> !tokens[i].AnyText?
    requires forall i :: 0 <= i < |f| ==> Fits(tokens[i], NotNewline, digit, [f[i]])
    ensures Greedy(tokens, digit, f).Some? && |Greedy(tokens, digit, f).value| == |f|
    ensures forall i :: 0 <= i < |f| ==> Greedy(tokens, digit, f).value[i] == [f[i]]
  {
    JoinSingles(f);
    GreedyComesFirst(tokens, digit, f);
    assert IsCut(tokens, seq(|f|, i requires 0 <= i < |f| => [f[i]]), digit, f);
    var cut := Greedy(tokens, digit, f).value;
    forall p | 0 <= p < |cut| ensures |cut[p]| >= 1 {
      assert Fits(tokens[p], NotNewline, digit, cut[p]);
    }
    OneEach(cut);
  }

  lemma {:induction false} PieceAt(tokens: seq<Token>, pieces: seq<string>, kind: NumberKind, q: nat)
    requires |pieces| == |tokens| && q < |tokens| && tokens[q] == Number(kind)
    requires forall p :: 0 <= p < q ==> tokens[p] != Number(kind)
    ensures PieceOf(tokens, pieces, kind) == Some(pieces[q])
    decreases |tokens|
  {
    if q > 0 {
      PieceAt(tokens[1..], pieces[1..], kind, q - 1);
    }
  }

  /** The spelling of a token in a pattern. */
  function SpellToken(token: Token): string
  {
    match token
    case AnyText => "*"
    case AnyOne => "?"
    case Number(kind) => "{" + GroupName(kind) + "}"
    case Literal(c) => [c]
  }

  function Spell(tokens: seq<Token>): string
  {
    if tokens == [] then [] else SpellToken(tokens[0]) + Spell(tokens[1..])
  }

  lemma SpelledKind(kind: NumberKind)
    ensures KindOf(Trim(GroupName(kind))) == Some(kind) && '}' !in GroupName(kind)
  {
    var name := GroupName(kind);
    assert !IsWhitespace(name[0]) && !IsWhitespace(name[|name| - 1]);
    assert TrimStart(name) == name && TrimEnd(name) == name;
    NamesDiffer(kind, Season);
    NamesDiffer(kind, Episode);
    NamesDiffer(kind, Special);
    assert "season"[0] != "episode"[0] && "season"[1] != "special"[1] && "episode"[0] != "special"[0];
  }

  lemma SpelledToken(token: Token, rest: string)
    requires token.Literal? ==> token.c !in "*?{"
    ensures SpellToken(token) != [] && NextToken(SpellToken(token) + rest) == Some((token, |SpellToken(token)|))
  {
    var text := SpellToken(token) + rest;
    if token.Number? {
      SpelledNumber(token.kind, rest, text);
    }
  }

  lemma SpelledNumber(kind: NumberKind, rest: string, text: string)
    requires text == "{" + GroupName(kind) + "}" + rest
    ensures NextToken(text) == Some((Number(kind), |GroupName(kind)| + 2))
  {
    var name := GroupName(kind);
    SpelledKind(kind);
    assert text[1..] == name + ("}" + rest);
    assert text[1..][..|name|] == name && text[1..][|name|] == '}';
    SplitAtFirst(text[1..], '}', |name|);
  }

  /** Every list of tokens is the reading of some pattern, as long as its literals can be written. */
  lemma {:induction false} SpelledTokens(tokens: seq<Token>)
    requires forall t :: t in tokens && t.Literal? ==> t.c !in "*?{"
    ensures Tokenize(Spell(tokens)) == Some(tokens)
  {
    if tokens != [] {
      var rest := Spell(tokens[1..]);
      var text := SpellToken(tokens[0]) + rest;
      SpelledTokens(tokens[1..]);
      SpelledToken(tokens[0], rest);
      assert text[|SpellToken(tokens[0])|..] == rest;
      assert [tokens[0]] + tokens[1..] == tokens;
    }
  }

  /** If the pattern names no number twice, asks for one, and describes the filename, it yields numbers. */
  ghost predicate YieldsIfAsked(pattern: string, digit: char -> bool, f: string, defaultSeason: nat)
    requires Tokenize(pattern).Some?
  {
    var tokens := Tokenize(pattern).value;
    NamesOnce(tokens) && Describes(tokens, NotNewline, digit, f)
        && (Number(Episode) in tokens || Number(Special) in tokens)
    ==> Reading(tokens, digit, f, defaultSeason).Some?
  }

  /** The filenames from which every pattern that describes them reads its numbers: those without other digits. */
  lemma NumbersOfAllPatterns(digit: char -> bool, f: string, defaultSeason: nat)
    requires !digit('+')
    ensures (forall pattern :: Tokenize(pattern).Some? ==> YieldsIfAsked(pattern, digit, f, defaultSeason))
       <==> forall c :: c in f && digit(c) ==> IsAsciiDigit(c)
  {
    if forall c :: c in f && digit(c) ==> IsAsciiDigit(c) {
      forall pattern | Tokenize(pattern).Some? ensures YieldsIfAsked(pattern, digit, f, defaultSeason) {
        AsciiMatchesYieldNumbers(Tokenize(pattern).value, digit, f, defaultSeason);
      }
    } else {
      var p: nat :| p < |f| && digit(f[p]) && !IsAsciiDigit(f[p]);
      var tokens := Spot(f, p);
      SpotYieldsNothing(digit, f, p, defaultSeason);
      SpelledTokens(tokens);
      assert !YieldsIfAsked(Spell(tokens), digit, f, defaultSeason);
    }
  }

  /** Tokens for the characters of a filename one by one, with an episode number at one position. */
  function Spot(f: string, p: nat): seq<Token>
  {
    seq(|f|, i requires 0 <= i < |f| => if i == p then Number(Episode) else if f[i] == '\n' then Literal('\n')
        else AnyOne)
  }

  lemma SpotFits(digit: char -> bool, f: string, p: nat)
    requires p < |f| && digit(f[p])
    ensures |Spot(f, p)| == |f| && forall i :: 0 <= i < |f| ==> !Spot(f, p)[i].AnyText?
    ensures forall i :: 0 <= i < |f| ==> Fits(Spot(f, p)[i], NotNewline, digit, [f[i]])
    ensures Spot(f, p)[p] == Number(Episode) && forall i :: 0 <= i < |f| && i != p ==> !Spot(f, p)[i].Number?
    ensures forall t :: t in Spot(f, p) && t.Literal? ==> t.c !in "*?{"
  {
    forall t | t in Spot(f, p) && t.Literal? ensures t.c !in "*?{" {
      assert t.c == '\n';
    }
  }

  lemma NotDecidedInAscii(tokens: seq<Token>, digit: char -> bool, f: string, q: nat)
    requires |tokens| == |f| && q < |f| && tokens[q] == Number(Episode) && !IsAsciiDigit(f[q])
    requires forall i :: 0 <= i < q ==> tokens[i] != Number(Episode)
    requires Greedy(tokens, digit, f).Some? && |Greedy(tokens, digit, f).value| == |f|
    requires Greedy(tokens, digit, f).value[q] == [f[q]]
    ensures !DecidedInAscii(tokens, digit, f)
  {
    PieceAt(tokens, Greedy(tokens, digit, f).value, Episode, q);
    assert f[q] in [f[q]];
  }

  lemma SpotYieldsNothing(digit: char -> bool, f: string, p: nat, defaultSeason: nat)
    requires p < |f| && digit(f[p]) && !IsAsciiDigit(f[p]) && !digit('+')
    ensures NamesOnce(Spot(f, p)) && Describes(Spot(f, p), NotNewline, digit, f) && Number(Episode) in Spot(f, p)
    ensures Reading(Spot(f, p), digit, f, defaultSeason) == None
    ensures forall t :: t in Spot(f, p) && t.Literal? ==> t.c !in "*?{"
  {
    var tokens := Spot(f, p);
    SpotFits(digit, f, p);
    SingleCut(tokens, digit, f);
    GreedyFindsAll(tokens, digit, f);
    NotDecidedInAscii(tokens, digit, f, p);
    MatchYieldsNumbers(tokens, digit, f, defaultSeason);
  }

  /** A season in other digits is lost without a trace: the name is read as one of the default season. */
  lemma SeasonIsLost(digit: char -> bool, c: char, defaultSeason: nat)
    requires digit(c) && !IsAsciiDigit(c) && digit('1') && !digit('+')
    ensures var tokens := [Number(Season), Literal('x'), Number(Episode)];
            && Tokenize(Spell(tokens)) == Some(tokens)
            && Reading(tokens, digit, [c, 'x', '1'], defaultSeason) == Some((defaultSeason, 1))
  {
    var tokens, f := [Number(Season), Literal('x'), Number(Episode)], [c, 'x', '1'];
    SpelledTokens(tokens);
    SingleFits(digit, c);
    SingleCut(tokens, digit, f);
    var cut := Greedy(tokens, digit, f).value;
    PieceAt(tokens, cut, Season, 0);
    PieceAt(tokens, cut, Episode, 2);
    assert cut[0] == [c] && cut[2] == ['1'];
    ReadsOne();
    NotAscii(c);
  }

  lemma SingleFits(digit: char -> bool, c: char)
    requires digit(c) && digit('1')
    ensures Fits(Number(Season), NotNewline, digit, [c]) && Fits(Literal('x'), NotNewline, digit, ['x'])
    ensures Fits(Number(Episode), NotNewline, digit, ['1'])
  {
  }

  lemma ReadsOne()
    ensures ParseU32(['1']) == Some(1)
  {
    NumbersReadBack(1, 0);
  }

  lemma NotAscii(c: char)
    requires !IsAsciiDigit(c)
    ensures ParseU32([c]) == None
  {
  }

  /** A number in decimal, with leading zeros. */
  function Decimal(n: nat, zeros: nat): string
  {
    if zeros > 0 then ['0'] + Decimal(n, zeros - 1)
    else if n < 10 then [('0' as int + n) as char]
    else Decimal(n / 10, 0) + [('0' as int + n % 10) as char]
  }

  lemma {:induction false} ReadsOneMore(s: string, c: char, acc: nat)
    requires AllIn(s, IsAsciiDigit) && IsAsciiDigit(c)
    ensures ParseNumber(s + [c], acc) == (ParseNumber(s, acc).0 * 10 + (c as int - '0' as int), [])
  {
    if s == [] {
      assert s + [c] == [c] && [c][1..] == [];
      assert ParseNumber([], acc * 10 + (c as int - '0' as int)).1 == [];
    } else {
      assert (s + [c])[1..] == s[1..] + [c] && s[0] in s;
      ReadsOneMore(s[1..], c, acc * 10 + (s[0] as int - '0' as int));
    }
  }

  lemma {:induction false} ReadsDecimal(n: nat, zeros: nat)
    ensures Decimal(n, zeros) != [] && AllIn(Decimal(n, zeros), IsAsciiDigit)
    ensures ParseNumber(Decimal(n, zeros), 0) == (n, [])
    decreases n + zeros
  {
    if zeros > 0 {
      ReadsDecimal(n, zeros - 1);
      assert (['0'] + Decimal(n, zeros - 1))[1..] == Decimal(n, zeros - 1);
    } else if n < 10 {
      assert Decimal(n, 0)[1..] == [];
    } else {
      ReadsDecimal(n / 10, 0);
      ReadsOneMore(Decimal(n / 10, 0), ('0' as int + n % 10) as char, 0);
    }
  }

  /** The number parser undoes decimal notation, with or without leading zeros, within its range. */
  lemma NumbersReadBack(n: nat, zeros: nat)
    ensures ParseU32(Decimal(n, zeros)) == if n <= 4294967295 then Some(n) else None
    ensures ParseU32(['+'] + Decimal(n, zeros)) == ParseU32(Decimal(n, zeros))
  {
    ReadsDecimal(n, zeros);
    assert Decimal(n, zeros)[0] in Decimal(n, zeros);
    assert (['+'] + Decimal(n, zeros))[1..] == Decimal(n, zeros);
  }

  // ---------------------------------------------- what number comes out

  /** The number of a match is what its deciding piece says. */
  lemma NumberIsCaptured(tokens: seq<Token>, digit: char -> bool, f: string, defaultSeason: nat)
    requires Reading(tokens, digit, f, defaultSeason).Some?
    ensures Greedy(tokens, digit, f).Some?
    ensures DecidingPiece(tokens, Greedy(tokens, digit, f).value).Some?
    ensures ParseU32(DecidingPiece(tokens, Greedy(tokens, digit, f).value).value)
         == Some(Reading(tokens, digit, f, defaultSeason).value.1)
  {
    CutNumbers(tokens, digit, f, Episode);
    CutNumbers(tokens, digit, f, Special);
  }

  /** Digits that a number token has room for. */
  lemma DecimalFits(kind: NumberKind, digit: char -> bool, n: nat, zeros: nat)
    requires forall c :: IsAsciiDigit(c) ==> digit(c)
    requires |Decimal(n, zeros)| <= MostDigits(kind)
    ensures Fits(Number(kind), NotNewline, digit, Decimal(n, zeros))
    ensures ParseU32(Decimal(n, zeros)) == Some(n)
  {
    ReadsDecimal(n, zeros);
    NumberBound(Decimal(n, zeros), 0, 3, 1);
    assert Power10(3) == 1000 && Power10(2) == 100 && Power10(1) == 10;
    NumbersReadBack(n, zeros);
  }

  /** Before the first separator the texts are the same, and so behind it. */
  lemma SplitUnique(a: string, b: string, c: string, d: string, sep: char)
    requires a + [sep] + b == c + [sep] + d && sep !in a && sep !in c
    ensures a == c && b == d
  {
    var s := a + [sep] + b;
    assert s[|a|] == sep && s[|c|] == sep;
    forall i | 0 <= i < |a| ensures s[i] != sep {
      assert s[i] == a[i] && a[i] in a;
    }
    forall i | 0 <= i < |c| ensures s[i] != sep {
      assert s[i] == c[i] && c[i] in c;
    }
    assert |a| == |c|;
    assert s[..|a|] == a && s[..|c|] == c && s[|a| + 1..] == b && s[|c| + 1..] == d;
  }

  lemma JoinThree(a: string, b: string, c: string)
    ensures Join([a, b, c]) == a + b + c
  {
    assert [a, b, c][1..] == [b, c] && [b, c][1..] == [c] && [c][1..] == [];
    assert Join([c]) == c + Join([]) == c;
    assert Join([b, c]) == b + c;
    assert a + (b + c) == a + b + c;
  }

  const SeasonXEpisode: seq<Token> := [Number(Season), Literal('x'), Number(Episode)]

  lemma SeasonXEpisodeCut(digit: char -> bool, a: string, b: string)
    requires !digit('x')
    requires Fits(Number(Season), NotNewline, digit, a) && Fits(Number(Episode), NotNewline, digit, b)
    ensures Greedy(SeasonXEpisode, digit, a + "x" + b) == Some([a, "x", b])
  {
    var f := a + "x" + b;
    JoinThree(a, "x", b);
    assert IsCut(SeasonXEpisode, [a, "x", b], digit, f);
    GreedyComesFirst(SeasonXEpisode, digit, f);
    var cut := Greedy(SeasonXEpisode, digit, f).value;
    assert Fits(SeasonXEpisode[0], NotNewline, digit, cut[0]) && Fits(SeasonXEpisode[1], NotNewline, digit, cut[1]);
    assert cut == [cut[0], cut[1], cut[2]];
    JoinThree(cut[0], cut[1], cut[2]);
    SplitUnique(cut[0], cut[2], a, b, 'x');
  }

  /** The pattern `{s}x{e}` gives back season and episode from their decimal notations, zeros included. */
  lemma EpisodeReadsBack(digit: char -> bool, s: nat, y: nat, e: nat, z: nat, defaultSeason: nat)
    requires (forall c :: IsAsciiDigit(c) ==> digit(c)) && !digit('x')
    requires |Decimal(s, y)| <= 2 && |Decimal(e, z)| <= 3
    ensures Reading(SeasonXEpisode, digit, Decimal(s, y) + "x" + Decimal(e, z), defaultSeason) == Some((s, e))
  {
    DecimalFits(Season, digit, s, y);
    DecimalFits(Episode, digit, e, z);
    var cut := [Decimal(s, y), "x", Decimal(e, z)];
    SeasonXEpisodeCut(digit, Decimal(s, y), Decimal(e, z));
    PieceAt(SeasonXEpisode, cut, Season, 0);
    PieceAt(SeasonXEpisode, cut, Episode, 2);
  }

  /** The pattern `{sp}` gives back a special's number, in season zero. */
  lemma SpecialReadsBack(digit: char -> bool, n: nat, z: nat, defaultSeason: nat)
    requires (forall c :: IsAsciiDigit(c) ==> digit(c)) && |Decimal(n, z)| <= 3
    ensures Reading([Number(Special)], digit, Decimal(n, z), defaultSeason) == Some((0, n))
  {
    var tokens, f := [Number(Special)], Decimal(n, z);
    DecimalFits(Special, digit, n, z);
    assert [f][1..] == [] && Join([f]) == f + Join([]) == f;
    assert IsCut(tokens, [f], digit, f);
    GreedyComesFirst(tokens, digit, f);
    var cut := Greedy(tokens, digit, f).value;
    assert cut == [cut[0]] && cut[1..] == [] && Join(cut) == cut[0] + Join([]) == cut[0];
    PieceAt(tokens, cut, Special, 0);
    PieceFits(tokens, cut, digit, Episode);
  }

  lemma TokenizeCons(text: string, token: Token, length: nat, rest: string, tokens: seq<Token>)
    requires text != [] && NextToken(text) == Some((token, length))
    requires text[length..] == rest && Tokenize(rest) == Some(tokens)
    ensures Tokenize(text) == Some([token] + tokens)
  {
  }

  lemma ShortBrace(name: string, rest: string, tokens: seq<Token>)
    requires (name == "s" || name == "e" || name == "sp") && Tokenize(rest) == Some(tokens)
    ensures Tokenize("{" + name + "}" + rest)
         == Some([Number(if name == "s" then Season else if name == "e" then Episode else Special)] + tokens)
  {
    var text := "{" + name + "}" + rest;
    ShortToken(name, rest);
    assert text[|name| + 2..] == rest;
    TokenizeCons(text, NextToken(text).value.0, |name| + 2, rest, tokens);
  }

  lemma SpecialPattern()
    ensures Tokenize("{sp}") == Some([Number(Special)])
  {
    ShortBrace("sp", "", []);
    assert "{sp}" == "{" + "sp" + "}" + "" && [Number(Special)] + [] == [Number(Special)];
  }

  lemma EpisodePattern()
    ensures Tokenize("{e}") == Some([Number(Episode)])
  {
    ShortBrace("e", "", []);
    assert "{e}" == "{" + "e" + "}" + "" && [Number(Episode)] + [] == [Number(Episode)];
  }

  /** The patterns read by these theorems, as they are written. */
  lemma ShortSpellings()
    ensures Tokenize("{s}x{e}") == Some(SeasonXEpisode) && Tokenize("{sp}") == Some([Number(Special)])
  {
    SpecialPattern();
    EpisodePattern();
    XThenEpisode();
    SeasonText();
    SeasonThenX("{" + "s" + "}" + "x{e}");
  }

  lemma SeasonText()
    ensures "{s}x{e}" == "{" + "s" + "}" + "x{e}"
  {
  }

  lemma SeasonThenX(text: string)
    requires text == "{" + "s" + "}" + "x{e}" && Tokenize("x{e}") == Some([Literal('x'), Number(Episode)])
    ensures Tokenize(text) == Some(SeasonXEpisode)
  {
    ShortBrace("s", "x{e}", [Literal('x'), Number(Episode)]);
    assert [Number(Season)] + [Literal('x'), Number(Episode)] == SeasonXEpisode;
  }

  lemma XThenEpisode()
    requires Tokenize("{e}") == Some([Number(Episode)])
    ensures Tokenize("x{e}") == Some([Literal('x'), Number(Episode)])
  {
    assert "x{e}"[1..] == "{e}" && NextToken("x{e}") == Some((Literal('x'), 1));
    TokenizeCons("x{e}", Literal('x'), 1, "{e}", [Number(Episode)]);
    assert [Literal('x')] + [Number(Episode)] == [Literal('x'), Number(Episode)];
  }

  lemma ShortToken(name: string, rest: string)
    requires name == "s" || name == "e" || name == "sp"
    ensures NextToken("{" + name + "}" + rest)
         == Some((Number(if name == "s" then Season else if name == "e" then Episode else Special), |name| + 2))
  {
    assert !IsWhitespace(name[0]) && !IsWhitespace(name[|name| - 1]);
    TrimPadded([], name, []);
    assert [] + name + [] == name;
    BraceMeaning(name, rest);
  }
}
