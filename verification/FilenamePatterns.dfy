/**
 The filename patterns of `.media-match` files (`services/media_matching.rs`): `*` stands for any
 text, `?` for one character, `{s}`, `{e}` and `{sp}` for the season, episode and special number,
 and every other character for itself. The program compiles a pattern into the text of a regular
 expression; the theorems here say that reading that text back as a regular expression accepts
 exactly the filenames that the pattern describes.
 */
module FilenamePatterns {
  import opened Options
  import opened RegexSubset
  import opened Text

  // ------------------------------------------------- the wildcard reading

  datatype NumberKind = Season | Episode | Special

  datatype Token =
    | AnyText
    | AnyOne
    | Number(kind: NumberKind)
    | Literal(c: char)

  function MostDigits(kind: NumberKind): nat
  {
    if kind == Season then 2 else 3
  }

  function GroupName(kind: NumberKind): string
  {
    match kind
    case Season => "season"
    case Episode => "episode"
    case Special => "special"
  }

  predicate AllIn(s: string, kind: char -> bool)
  {
    forall c :: c in s ==> kind(c)
  }

  /** One piece of a filename fits one token; `wild` says what a wildcard may stand for. */
  ghost predicate Fits(token: Token, wild: char -> bool, digit: char -> bool, piece: string)
  {
    match token
    case AnyText => AllIn(piece, wild)
    case AnyOne => |piece| == 1 && wild(piece[0])
    case Number(kind) => 1 <= |piece| <= MostDigits(kind) && AllIn(piece, digit)
    case Literal(c) => piece == [c]
  }

  /** The filename falls into consecutive pieces, one for each token in order. */
  ghost predicate Describes(tokens: seq<Token>, wild: char -> bool, digit: char -> bool, f: string)
    decreases |tokens|
  {
    if tokens == [] then f == []
    else exists k :: 0 <= k <= |f| && Fits(tokens[0], wild, digit, f[..k])
                     && Describes(tokens[1..], wild, digit, f[k..])
  }

  /** What a wildcard stands for in the pattern language. */
  const Anything: char -> bool := c => true

  /** What the compiled `.` stands for. */
  const NotNewline: char -> bool := c => c != '\n'

  // -------------------------------------------------- reading a pattern

  function KindOf(name: string): Option<NumberKind>
  {
    if name == "s" || name == "season" then Some(Season)
    else if name == "e" || name == "ep" || name == "episode" then Some(Episode)
    else if name == "sp" || name == "special" then Some(Special)
    else None
  }

  /** The token at the front of a pattern and the number of characters that spell it. */
  function NextToken(pattern: string): (r: Option<(Token, nat)>)
    requires pattern != []
    ensures r.Some? ==> 0 < r.value.1 <= |pattern|
    ensures r.Some? && r.value.0.Literal? ==> r.value.0.c !in "*?{"
  {
    if pattern[0] == '{' then
      match SplitAt(pattern[1..], '}')
      case None => None
      case Some((content, _)) =>
        match KindOf(Trim(content))
        case None => None
        case Some(kind) => Some((Number(kind), |content| + 2))
    else if pattern[0] == '*' then Some((AnyText, 1))
    else if pattern[0] == '?' then Some((AnyOne, 1))
    else Some((Literal(pattern[0]), 1))
  }

  /** The tokens of a pattern; none when a brace is not closed or names no number. */
  function Tokenize(pattern: string): (r: Option<seq<Token>>)
    ensures r.Some? ==> forall t :: t in r.value && t.Literal? ==> t.c !in "*?{"
    decreases |pattern|
  {
    if pattern == [] then Some([]) else
    match NextToken(pattern)
    case None => None
    case Some((token, length)) =>
      match Tokenize(pattern[length..])
      case None => None
      case Some(tokens) => Some([token] + tokens)
  }

  // ------------------------------------------------------ the compiler

  function EscapeSet(): string
  {
    ".\\+|^${}()|[]"
  }

  function EmitNumber(kind: NumberKind): string
  {
    match kind
    case Season => "(?P<season>\\d{1,2})"
    case Episode => "(?P<episode>\\d{1,3})"
    case Special => "(?P<special>\\d{1,3})"
  }

  function EmitToken(token: Token): string
  {
    match token
    case AnyText => ".*"
    case AnyOne => "."
    case Number(kind) => EmitNumber(kind)
    case Literal(c) => if c in EscapeSet() then ['\\', c] else [c]
  }

  function Emit(tokens: seq<Token>): string
  {
    if tokens == [] then [] else EmitToken(tokens[0]) + Emit(tokens[1..])
  }

  lemma {:induction false} EmitAppend(tokens: seq<Token>, last: Token)
    ensures Emit(tokens + [last]) == Emit(tokens) + EmitToken(last)
  {
    if tokens == [] {
      assert [last][1..] == [];
      assert Emit([]) == [] && Emit([last]) == EmitToken(last) + Emit([]);
    } else {
      assert (tokens + [last])[1..] == tokens[1..] + [last];
      EmitAppend(tokens[1..], last);
    }
  }

  /** The position of the first `}` at or after `from`, or the length of the text. */
  method FindClose(chars: string, from: nat) returns (close: nat)
    requires from <= |chars|
    ensures from <= close <= |chars|
    ensures '}' !in chars[from..close]
    ensures close < |chars| ==> chars[close] == '}'
  {
    close := from;
    while close < |chars| && chars[close] != '}'
      invariant from <= close <= |chars|
      invariant '}' !in chars[from..close]
    {
      close := close + 1;
    }
  }

  lemma {:induction false} SplitAtFirst(s: string, stop: char, k: nat)
    requires k <= |s| && stop !in s[..k]
    ensures k < |s| && s[k] == stop ==> SplitAt(s, stop) == Some((s[..k], s[k + 1..]))
    ensures k == |s| ==> SplitAt(s, stop) == None
    decreases k
  {
    if k > 0 {
      assert s[0] in s[..k];
      assert s[1..][..k - 1] == s[..k][1..];
      SplitAtFirst(s[1..], stop, k - 1);
      assert [s[0]] + s[..k][1..] == s[..k];
    }
  }

  /** Joining the reading of a prefix of the pattern with the reading of what is left. */
  ghost function Continue(done: seq<Token>, left: Option<seq<Token>>): Option<seq<Token>>
  {
    match left
    case None => None
    case Some(tokens) => Some(done + tokens)
  }

  lemma TokenizeStep(rest: string)
    requires rest != []
    ensures NextToken(rest) == None ==> Tokenize(rest) == None
    ensures NextToken(rest).Some? ==>
              Tokenize(rest) == Continue([NextToken(rest).value.0], Tokenize(rest[NextToken(rest).value.1..]))
  {
  }

  lemma ContinueAssociates(a: seq<Token>, b: seq<Token>, left: Option<seq<Token>>)
    ensures Continue(a, Continue(b, left)) == Continue(a + b, left)
  {
    if left.Some? {
      assert a + (b + left.value) == a + b + left.value;
    }
  }

  lemma BraceToken(rest: string, close: nat)
    requires 0 < close <= |rest| && rest[0] == '{' && '}' !in rest[..close]
    ensures close == |rest| ==> NextToken(rest) == None
    ensures close < |rest| && rest[close] == '}' ==>
              NextToken(rest) == (match KindOf(Trim(rest[1..close]))
                                  case None => None
                                  case Some(kind) => Some((Number(kind), close + 1)))
  {
    assert rest[1..][..close - 1] == rest[1..close] == rest[..close][1..];
    SplitAtFirst(rest[1..], '}', close - 1);
  }

  lemma ConcatAssociates(a: string, b: string, c: string)
    ensures a + b + c == a + (b + c)
  {
  }

  /** The brace at `i`: the number it names and the position after it. */
  method ReadBrace(pattern: string, i: nat) returns (token: Option<(NumberKind, nat)>)
    requires i < |pattern| && pattern[i] == '{'
    ensures token == None <==> NextToken(pattern[i..]) == None
    ensures token.Some? ==> NextToken(pattern[i..]) == Some((Number(token.value.0), token.value.1 - i))
  {
    ghost var rest := pattern[i..];
    var close := FindClose(pattern, i);
    assert rest[..close - i] == pattern[i..close];
    BraceToken(rest, close - i);
    if close == |pattern| {
      return None;
    }
    var content := pattern[i + 1..close];
    assert content == rest[1..close - i];
    match KindOf(Trim(content)) {
      case None => return None;
      case Some(kind) => return Some((kind, close + 1));
    }
  }

  /** One turn of the loop: the text for the token at `i` and the position after it. */
  method EmitNext(pattern: string, i: nat) returns (piece: Option<(string, nat)>)
    requires i < |pattern|
    ensures NextToken(pattern[i..]) == None ==> piece == None
    ensures NextToken(pattern[i..]).Some? ==>
              var step := NextToken(pattern[i..]).value;
              piece == Some((EmitToken(step.0), i + step.1))
  {
    if pattern[i] == '{' {
      var token := ReadBrace(pattern, i);
      match token {
        case None => return None;
        case Some((kind, next)) => return Some((EmitNumber(kind), next));
      }
    } else if pattern[i] == '*' {
      return Some((".*", i + 1));
    } else if pattern[i] == '?' {
      return Some((".", i + 1));
    } else {
      return Some((if pattern[i] in EscapeSet() then ['\\', pattern[i]] else [pattern[i]], i + 1));
    }
  }

  method PatternToRegex(pattern: string) returns (r: Option<string>)
    ensures r == (match Tokenize(pattern)
                  case None => None
                  case Some(tokens) => Some("^" + Emit(tokens) + "$"))
  {
    var result := "^";
    var i := 0;
    ghost var done: seq<Token> := [];
    assert pattern[0..] == pattern;
    assert Tokenize(pattern).Some? ==> [] + Tokenize(pattern).value == Tokenize(pattern).value;
    while i < |pattern|
      invariant i <= |pattern|
      invariant result == "^" + Emit(done)
      invariant Tokenize(pattern) == Continue(done, Tokenize(pattern[i..]))
    {
      ghost var rest := pattern[i..];
      TokenizeStep(rest);
      var piece := EmitNext(pattern, i);
      if piece == None {
        return None;
      }
      ghost var token := NextToken(rest).value.0;
      var (text, next) := piece.value;
      ConcatAssociates("^", Emit(done), text);
      EmitAppend(done, token);
      ContinueAssociates(done, [token], Tokenize(pattern[next..]));
      assert rest[next - i..] == pattern[next..];
      result, i, done := result + text, next, done + [token];
    }
    assert pattern[i..] == [] && done + [] == done;
    r := Some(result + "$");
  }

  // ------------------------------- the text read back as an expression

  /** The expression that a token's text stands for. */
  function TokenRegex(token: Token): Regex
  {
    match token
    case AnyText => Star(AnyChar)
    case AnyOne => AnyChar
    case Number(kind) => Group(GroupName(kind), Cat(Repeat(Digit, 1, MostDigits(kind)), Empty))
    case Literal(c) => Lit(c)
  }

  function TokensRegex(tokens: seq<Token>): Regex
  {
    if tokens == [] then Cat(End, Empty) else Cat(TokenRegex(tokens[0]), TokensRegex(tokens[1..]))
  }

  lemma ParseOneDigit(d: char, after: string)
    requires IsAsciiDigit(d)
    requires after != [] && !IsAsciiDigit(after[0])
    ensures ParseNumber([d] + after, 0) == (d as int - '0' as int, after)
  {
    assert ([d] + after)[1..] == after;
    assert ParseNumber(after, d as int - '0' as int) == (d as int - '0' as int, after);
  }

  lemma ParseDigitBounds(low: char, high: char, after: string)
    requires IsAsciiDigit(low) && IsAsciiDigit(high)
    ensures ParseBounds([low, ',', high, '}'] + after)
         == Some(((low as int - '0' as int, high as int - '0' as int), after))
  {
    var text := [low, ',', high, '}'] + after;
    assert text == [low] + ([',', high, '}'] + after);
    ParseOneDigit(low, [',', high, '}'] + after);
    assert ([',', high, '}'] + after)[1..] == [high] + (['}'] + after);
    ParseOneDigit(high, ['}'] + after);
    assert (['}'] + after)[1..] == after;
  }

  /** A counted digit class closed by a parenthesis. */
  lemma ParseDigits(high: char, after: string)
    requires IsAsciiDigit(high)
    ensures ParseSequence("\\d{1," + [high] + "})" + after)
         == Some((Cat(Repeat(Digit, 1, high as int - '0' as int), Empty), ")" + after))
  {
    var text := "\\d{1," + [high] + "})" + after;
    var closing := ")" + after;
    var bounds := ['1', ',', high, '}'] + closing;
    assert text == ['\\', 'd'] + (['{'] + bounds);
    assert text[2..] == ['{'] + bounds;
    assert ParseAtom(text) == Some((Digit, ['{'] + bounds));
    assert (['{'] + bounds)[1..] == bounds;
    ParseDigitBounds('1', high, closing);
    assert ParseQuantifier(Digit, ['{'] + bounds) == Some((Repeat(Digit, 1, high as int - '0' as int), closing));
    assert ParseSequence(closing) == Some((Empty, closing));
  }

  /** A counted digit class inside a named group reads back as just that. */
  lemma ParseNumberGroup(name: string, high: char, after: string)
    requires '>' !in name && IsAsciiDigit(high)
    ensures ParseAtom("(?P<" + name + ">\\d{1," + [high] + "})" + after)
         == Some((Group(name, Cat(Repeat(Digit, 1, high as int - '0' as int), Empty)), after))
  {
    var body := "\\d{1," + [high] + "})" + after;
    GroupText(name, high, after, body);
    ParseDigits(high, after);
    AtomGroup(name, body, Cat(Repeat(Digit, 1, high as int - '0' as int), Empty), after);
  }

  lemma GroupText(name: string, high: char, after: string, body: string)
    requires body == "\\d{1," + [high] + "})" + after
    ensures "(?P<" + name + ">\\d{1," + [high] + "})" + after == "(?P<" + (name + ">" + body)
  {
    assert ">\\d{1," == ">" + "\\d{1,";
  }

  lemma AtomGroup(name: string, body: string, inner: Regex, after: string)
    requires '>' !in name && ParseSequence(body) == Some((inner, ")" + after))
    ensures ParseAtom("(?P<" + (name + ">" + body)) == Some((Group(name, inner), after))
  {
    var rest := name + ">" + body;
    var text := "(?P<" + rest;
    assert text[0] == '(' && "(?P<" <= text && text[4..] == rest;
    assert rest[..|name|] == name && rest[|name|] == '>' && rest[|name| + 1..] == body;
    SplitAtFirst(rest, '>', |name|);
    assert (")" + after)[1..] == after;
  }

  /** An atom that no repetition operator follows is a term of its sequence. */
  lemma SequenceOfAtom(text: string, atom: Regex, after: string)
    requires text != [] && text[0] != ')' && ParseAtom(text) == Some((atom, after))
    requires after != [] && after[0] !in "*+?{"
    ensures ParseSequence(text) == Prepend(atom, ParseSequence(after))
  {
    assert ParseQuantifier(atom, after) == Some((atom, after));
  }

  function Prepend(term: Regex, parsed: Option<(Regex, string)>): Option<(Regex, string)>
  {
    match parsed
    case None => None
    case Some((re, rest)) => Some((Cat(term, re), rest))
  }

  lemma QuantifierStar(atom: Regex, after: string)
    requires after == [] || after[0] !in "*+?{"
    ensures ParseQuantifier(atom, "*" + after) == Some((Star(atom), after))
  {
    var text := "*" + after;
    assert text[1..] == after && text[0] == '*';
  }

  lemma AtomDot(after: string)
    ensures ParseAtom("." + after) == Some((AnyChar, after))
  {
    assert ("." + after)[1..] == after;
  }

  lemma SequenceOfTerm(text: string, atom: Regex, afterAtom: string, term: Regex, after: string)
    requires text != [] && text[0] != ')' && ParseAtom(text) == Some((atom, afterAtom))
    requires ParseQuantifier(atom, afterAtom) == Some((term, after))
    ensures ParseSequence(text) == Prepend(term, ParseSequence(after))
  {
  }

  lemma DotStar(after: string, rest: string)
    requires rest == "*" + after
    ensures ".*" + after == "." + rest && ("." + rest)[0] == '.'
  {
  }

  lemma SequenceOfStar(after: string)
    requires after != [] && after[0] !in "*+?{"
    ensures ParseSequence(".*" + after) == Prepend(Star(AnyChar), ParseSequence(after))
  {
    var rest := "*" + after;
    DotStar(after, rest);
    AtomDot(rest);
    QuantifierStar(AnyChar, after);
    SequenceOfTerm("." + rest, AnyChar, rest, Star(AnyChar), after);
  }

  lemma ParseLiteral(c: char, after: string)
    requires c !in "*?{"
    ensures ParseAtom(EmitToken(Literal(c)) + after) == Some((Lit(c), after))
  {
    var text := EmitToken(Literal(c)) + after;
    if c in EscapeSet() {
      assert text[2..] == after;
    } else {
      assert text[1..] == after;
    }
  }

  lemma ParseWildcard(after: string)
    requires after != [] && after[0] !in "*+?{"
    ensures ParseSequence("." + after) == Prepend(AnyChar, ParseSequence(after))
  {
    assert ("." + after)[1..] == after;
    SequenceOfAtom("." + after, AnyChar, after);
  }

  lemma SeasonText()
    ensures "(?P<season>\\d{1,2})" == "(?P<" + "season" + ">\\d{1," + ['2'] + "})"
  {
  }

  lemma EpisodeText()
    ensures "(?P<episode>\\d{1,3})" == "(?P<" + "episode" + ">\\d{1," + ['3'] + "})"
  {
  }

  lemma SpecialText()
    ensures "(?P<special>\\d{1,3})" == "(?P<" + "special" + ">\\d{1," + ['3'] + "})"
  {
  }

  lemma NumberText(kind: NumberKind)
    ensures EmitNumber(kind) == "(?P<" + GroupName(kind) + ">\\d{1," + [if kind == Season then '2' else '3'] + "})"
  {
    match kind
    case Season => SeasonText();
    case Episode => EpisodeText();
    case Special => SpecialText();
  }

  lemma ParseNumberToken(kind: NumberKind, text: string, after: string)
    requires text == "(?P<" + GroupName(kind) + ">\\d{1," + [if kind == Season then '2' else '3'] + "})"
    ensures ParseAtom(text + after) == Some((TokenRegex(Number(kind)), after))
  {
    NamesHaveNoBracket(kind);
    ParseNumberGroup(GroupName(kind), if kind == Season then '2' else '3', after);
  }

  lemma NamesHaveNoBracket(kind: NumberKind)
    ensures '>' !in GroupName(kind)
  {
  }

  /** One token's text, followed by anything but a repetition operator, reads back as the token. */
  lemma ParseToken(token: Token, after: string)
    requires token.Literal? ==> token.c !in "*?{"
    requires after != [] && after[0] !in "*+?{"
    ensures EmitToken(token) != [] && EmitToken(token)[0] !in "*+?{)"
    ensures ParseSequence(EmitToken(token) + after) == Prepend(TokenRegex(token), ParseSequence(after))
  {
    var text := EmitToken(token) + after;
    match token {
      case AnyText =>
        SequenceOfStar(after);
      case AnyOne =>
        ParseWildcard(after);
      case Number(kind) =>
        NumberText(kind);
        ParseNumberToken(kind, EmitNumber(kind), after);
        SequenceOfAtom(text, TokenRegex(token), after);
      case Literal(c) =>
        ParseLiteral(c, after);
        SequenceOfAtom(text, Lit(c), after);
    }
  }

  lemma {:induction false} ParseEmitted(tokens: seq<Token>)
    requires forall t :: t in tokens && t.Literal? ==> t.c !in "*?{"
    ensures (Emit(tokens) + "$")[0] !in "*+?{)"
    ensures ParseSequence(Emit(tokens) + "$") == Some((TokensRegex(tokens), ""))
  {
    if tokens == [] {
      assert Emit(tokens) + "$" == "$" && "$"[1..] == "";
    } else {
      var after := Emit(tokens[1..]) + "$";
      ParseEmitted(tokens[1..]);
      assert Emit(tokens) + "$" == EmitToken(tokens[0]) + after;
      ParseToken(tokens[0], after);
    }
  }

  // ----------------------------------------------- meaning is preserved

  lemma {:induction false} StarMeaning(digit: char -> bool, s: string, i: nat, j: nat)
    requires i <= j <= |s|
    ensures Matches(Star(AnyChar), digit, s, i, j) <==> AllIn(s[i..j], NotNewline)
    decreases j - i
  {
    if i < j {
      StarMeaning(digit, s, i + 1, j);
      assert s[i..j] == [s[i]] + s[i + 1..j];
      assert Matches(AnyChar, digit, s, i, i + 1) <==> NotNewline(s[i]);
    }
  }

  lemma {:induction false} DigitsMeaning(lo: nat, hi: nat, digit: char -> bool, s: string, i: nat, j: nat)
    requires i <= j <= |s| && lo <= hi
    ensures MatchesTimes(Digit, lo, hi, digit, s, i, j) <==> lo <= j - i <= hi && AllIn(s[i..j], digit)
    decreases hi
  {
    if hi > 0 && i < j {
      var less := if lo == 0 then 0 else lo - 1;
      DigitsMeaning(less, hi - 1, digit, s, i + 1, j);
      assert s[i..j] == [s[i]] + s[i + 1..j];
      if lo <= j - i <= hi && AllIn(s[i..j], digit) {
        assert Matches(Digit, digit, s, i, i + 1) && MatchesTimes(Digit, less, hi - 1, digit, s, i + 1, j);
      }
    }
  }

  lemma TokenMeaning(token: Token, digit: char -> bool, s: string, i: nat, j: nat)
    requires i <= j <= |s|
    ensures Matches(TokenRegex(token), digit, s, i, j) <==> Fits(token, NotNewline, digit, s[i..j])
  {
    match token
    case AnyText => StarMeaning(digit, s, i, j);
    case AnyOne =>
    case Number(kind) =>
      var digits := Repeat(Digit, 1, MostDigits(kind));
      DigitsMeaning(1, MostDigits(kind), digit, s, i, j);
      assert Matches(TokenRegex(token), digit, s, i, j) <==> Matches(Cat(digits, Empty), digit, s, i, j);
      assert Matches(Empty, digit, s, j, j);
      assert Matches(Cat(digits, Empty), digit, s, i, j) <==> Matches(digits, digit, s, i, j);
    case Literal(c) =>
  }

  /** Cutting at `k`, the expression and the token list agree about the two sides. */
  ghost predicate AgreeAt(tokens: seq<Token>, digit: char -> bool, s: string, i: nat, j: nat, k: nat)
    requires i <= k <= j <= |s| && tokens != []
  {
    (Matches(TokenRegex(tokens[0]), digit, s, i, k) && Matches(TokensRegex(tokens[1..]), digit, s, k, j))
    <==>
    (j == |s| && Fits(tokens[0], NotNewline, digit, s[i..][..k - i])
     && Describes(tokens[1..], NotNewline, digit, s[i..][k - i..]))
  }

  /** From position `i`, the compiled tokens match exactly the rest of a filename they describe. */
  lemma {:induction false} TokensMeaning(tokens: seq<Token>, digit: char -> bool, s: string, i: nat, j: nat)
    requires i <= j <= |s|
    ensures Matches(TokensRegex(tokens), digit, s, i, j)
       <==> j == |s| && Describes(tokens, NotNewline, digit, s[i..])
    decreases |tokens|, 0
  {
    if tokens == [] {
      assert Matches(Cat(End, Empty), digit, s, i, j) <==> i == j == |s| by {
        if i == j == |s| {
          assert Matches(End, digit, s, i, j) && Matches(Empty, digit, s, j, j);
        }
      }
    } else {
      forall k: nat | i <= k <= j ensures AgreeAt(tokens, digit, s, i, j, k) {
        AgreeAtCut(tokens, digit, s, i, j, k);
      }
      CatMeaning(tokens, digit, s, i, j);
    }
  }

  lemma {:induction false} AgreeAtCut(tokens: seq<Token>, digit: char -> bool, s: string, i: nat, j: nat, k: nat)
    requires i <= k <= j <= |s| && tokens != []
    ensures AgreeAt(tokens, digit, s, i, j, k)
    decreases |tokens| - 1, 1
  {
    assert s[i..][..k - i] == s[i..k] && s[i..][k - i..] == s[k..];
    TokenMeaning(tokens[0], digit, s, i, k);
    TokensMeaning(tokens[1..], digit, s, k, j);
  }

  /** If the two readings agree at every cut, they agree on the whole. */
  lemma CatMeaning(tokens: seq<Token>, digit: char -> bool, s: string, i: nat, j: nat)
    requires i <= j <= |s| && tokens != []
    requires forall k: nat :: i <= k <= j ==> AgreeAt(tokens, digit, s, i, j, k)
    ensures Matches(TokensRegex(tokens), digit, s, i, j)
       <==> j == |s| && Describes(tokens, NotNewline, digit, s[i..])
  {
    var first, rest := TokenRegex(tokens[0]), TokensRegex(tokens[1..]);
    if Matches(Cat(first, rest), digit, s, i, j) {
      var k := CatCut(first, rest, digit, s, i, j);
      CutDescribes(tokens, digit, s, i, j, k);
    }
    if j == |s| && Describes(tokens, NotNewline, digit, s[i..]) {
      var n := FirstPiece(tokens, NotNewline, digit, s[i..]);
      CutMatches(tokens, digit, s, i, j, n);
    }
  }

  lemma CutDescribes(tokens: seq<Token>, digit: char -> bool, s: string, i: nat, j: nat, k: nat)
    requires i <= k <= j <= |s| && tokens != [] && AgreeAt(tokens, digit, s, i, j, k)
    requires Matches(TokenRegex(tokens[0]), digit, s, i, k) && Matches(TokensRegex(tokens[1..]), digit, s, k, j)
    ensures j == |s| && Describes(tokens, NotNewline, digit, s[i..])
  {
  }

  lemma CutMatches(tokens: seq<Token>, digit: char -> bool, s: string, i: nat, j: nat, n: nat)
    requires i + n <= j == |s| && tokens != [] && AgreeAt(tokens, digit, s, i, j, i + n)
    requires Fits(tokens[0], NotNewline, digit, s[i..][..n]) && Describes(tokens[1..], NotNewline, digit, s[i..][n..])
    ensures Matches(Cat(TokenRegex(tokens[0]), TokensRegex(tokens[1..])), digit, s, i, j)
  {
    CatJoin(TokenRegex(tokens[0]), TokensRegex(tokens[1..]), digit, s, i, i + n, j);
  }

  /** The length of the piece that fits the first token. */
  lemma FirstPiece(tokens: seq<Token>, wild: char -> bool, digit: char -> bool, f: string) returns (n: nat)
    requires tokens != [] && Describes(tokens, wild, digit, f)
    ensures n <= |f| && Fits(tokens[0], wild, digit, f[..n]) && Describes(tokens[1..], wild, digit, f[n..])
  {
    n :| 0 <= n <= |f| && Fits(tokens[0], wild, digit, f[..n]) && Describes(tokens[1..], wild, digit, f[n..]);
  }

  function Kinds(tokens: seq<Token>): seq<string>
  {
    if tokens == [] then []
    else (if tokens[0].Number? then [GroupName(tokens[0].kind)] else []) + Kinds(tokens[1..])
  }

  lemma {:induction false} NamesOfTokens(tokens: seq<Token>)
    ensures GroupNames(TokensRegex(tokens)) == Kinds(tokens)
  {
    if tokens != [] {
      NamesOfTokens(tokens[1..]);
    }
  }

  /** No season, episode or special token stands twice in the pattern. */
  predicate NamesOnce(tokens: seq<Token>)
  {
    forall i, j :: 0 <= i < j < |tokens| && tokens[i].Number? && tokens[j].Number? ==>
                     tokens[i].kind != tokens[j].kind
  }

  lemma {:induction false} KindOccurs(tokens: seq<Token>, kind: NumberKind)
    ensures GroupName(kind) in Kinds(tokens) <==> Number(kind) in tokens
  {
    if tokens != [] {
      KindOccurs(tokens[1..], kind);
      assert "season"[0] != "episode"[0] && "season"[1] != "special"[1];
    }
  }

  lemma NamesOnceStep(tokens: seq<Token>)
    requires tokens != []
    ensures NamesOnce(tokens) <==> NamesOnce(tokens[1..]) && (tokens[0].Number? ==> tokens[0] !in tokens[1..])
  {
    var rest := tokens[1..];
    if NamesOnce(tokens) {
      forall i, j | 0 <= i < j < |rest| && rest[i].Number? && rest[j].Number? ensures rest[i].kind != rest[j].kind {
        assert tokens[i + 1] == rest[i] && tokens[j + 1] == rest[j];
      }
    }
  }

  lemma DistinctStep(name: string, names: seq<string>)
    ensures Distinct([name] + names) <==> Distinct(names) && name !in names
  {
    var all := [name] + names;
    if Distinct(all) {
      forall i, j | 0 <= i < j < |names| ensures names[i] != names[j] {
        assert all[i + 1] == names[i] && all[j + 1] == names[j];
      }
      forall j | 0 <= j < |names| ensures names[j] != name {
        assert all[j + 1] == names[j] && all[0] == name;
      }
    }
  }

  lemma {:induction false} KindsOnce(tokens: seq<Token>)
    ensures Distinct(Kinds(tokens)) <==> NamesOnce(tokens)
  {
    if tokens != [] {
      KindsOnce(tokens[1..]);
      NamesOnceStep(tokens);
      if tokens[0].Number? {
        KindOccurs(tokens[1..], tokens[0].kind);
        DistinctStep(GroupName(tokens[0].kind), Kinds(tokens[1..]));
      } else {
        assert Kinds(tokens) == Kinds(tokens[1..]);
      }
    }
  }

  lemma {:induction false} WildcardsOverNewlineFree(tokens: seq<Token>, digit: char -> bool, f: string)
    requires AllIn(f, NotNewline)
    ensures Describes(tokens, NotNewline, digit, f) <==> Describes(tokens, Anything, digit, f)
    decreases |tokens|
  {
    if tokens != [] {
      forall k | 0 <= k <= |f|
        ensures Fits(tokens[0], NotNewline, digit, f[..k]) <==> Fits(tokens[0], Anything, digit, f[..k])
        ensures Describes(tokens[1..], NotNewline, digit, f[k..]) <==> Describes(tokens[1..], Anything, digit, f[k..])
      {
        WildcardsOverNewlineFree(tokens[1..], digit, f[k..]);
      }
    }
  }

  lemma ParseStart(after: string)
    requires after != [] && after[0] !in "*+?{"
    ensures ParseSequence("^" + after) == Prepend(Start, ParseSequence(after))
  {
    assert ("^" + after)[1..] == after;
    SequenceOfAtom("^" + after, Start, after);
  }

  lemma ParseCompiled(tokens: seq<Token>)
    requires forall t :: t in tokens && t.Literal? ==> t.c !in "*?{"
    ensures ParseSequence("^" + Emit(tokens) + "$") == Some((Cat(Start, TokensRegex(tokens)), ""))
  {
    ConcatAssociates("^", Emit(tokens), "$");
    ParseEmitted(tokens);
    ParseStart(Emit(tokens) + "$");
  }

  /** The compiled text of a tokenized pattern, read back, is the expression of its tokens. */
  lemma CompiledText(tokens: seq<Token>, text: string)
    requires forall t :: t in tokens && t.Literal? ==> t.c !in "*?{"
    requires text == "^" + Emit(tokens) + "$"
    ensures CompileRegex(text) == if NamesOnce(tokens) then Some(Cat(Start, TokensRegex(tokens))) else None
  {
    ParseCompiled(tokens);
    NamesOfTokens(tokens);
    KindsOnce(tokens);
    assert GroupNames(Cat(Start, TokensRegex(tokens))) == Kinds(tokens);
  }

  /** Both anchors hold the expression to the whole filename. */
  lemma AnchoredMeaning(tokens: seq<Token>, digit: char -> bool, f: string)
    ensures IsMatch(Cat(Start, TokensRegex(tokens)), digit, f) <==> Describes(tokens, NotNewline, digit, f)
  {
    var re := TokensRegex(tokens);
    assert f[0..] == f;
    if IsMatch(Cat(Start, re), digit, f) {
      var i: nat, j: nat :| i <= j <= |f| && Matches(Cat(Start, re), digit, f, i, j);
      var k := CatCut(Start, re, digit, f, i, j);
      TokensMeaning(tokens, digit, f, 0, j);
    }
    if Describes(tokens, NotNewline, digit, f) {
      TokensMeaning(tokens, digit, f, 0, |f|);
      assert Matches(Start, digit, f, 0, 0);
      assert Matches(Cat(Start, re), digit, f, 0, |f|);
    }
  }

  /**
   Compiling preserves meaning. A pattern whose text the compiler emits is accepted by the regex
   engine exactly when it names no number twice, and then the engine finds a match in a filename
   exactly when the pattern describes it, wildcards standing for anything but a line break. For
   a filename without line breaks that is the pattern language's own reading.
   */
  lemma CompilingPreservesMeaning(pattern: string, digit: char -> bool, f: string)
    requires Tokenize(pattern).Some?
    ensures var tokens := Tokenize(pattern).value;
            var compiled := CompileRegex("^" + Emit(tokens) + "$");
            && (compiled.Some? <==> NamesOnce(tokens))
            && (compiled.Some? ==>
                  && (IsMatch(compiled.value, digit, f) <==> Describes(tokens, NotNewline, digit, f))
                  && ('\n' !in f ==> (IsMatch(compiled.value, digit, f) <==> Describes(tokens, Anything, digit, f))))
  {
    var tokens := Tokenize(pattern).value;
    CompiledText(tokens, "^" + Emit(tokens) + "$");
    AnchoredMeaning(tokens, digit, f);
    if '\n' !in f {
      WildcardsOverNewlineFree(tokens, digit, f);
    }
  }

  /** What the pattern `*` compiles to, and that it describes every filename. */
  lemma AnyFilename(digit: char -> bool, f: string)
    ensures Tokenize("*") == Some([AnyText])
    ensures CompileRegex("^" + Emit([AnyText]) + "$") == Some(Cat(Start, TokensRegex([AnyText])))
    ensures Describes([AnyText], Anything, digit, f)
    ensures Describes([AnyText], NotNewline, digit, f) <==> '\n' !in f
  {
    assert "*"[1..] == "" && NextToken("*") == Some((AnyText, 1));
    assert Tokenize("") == Some([]);
    assert [AnyText] + [] == [AnyText] && [AnyText][1..] == [];
    CompiledText([AnyText], "^" + Emit([AnyText]) + "$");
    WholePiece(Anything, digit, f);
    WholePiece(NotNewline, digit, f);
  }

  lemma WholePiece(wild: char -> bool, digit: char -> bool, f: string)
    ensures Describes([AnyText], wild, digit, f) <==> AllIn(f, wild)
  {
    assert [AnyText][1..] == [];
    assert f[..|f|] == f && f[|f|..] == "";
    if AllIn(f, wild) {
      assert Fits(AnyText, wild, digit, f[..|f|]) && Describes([], wild, digit, f[|f|..]);
    }
    if Describes([AnyText], wild, digit, f) {
      var n := FirstPiece([AnyText], wild, digit, f);
      assert n == |f|;
    }
  }

  /** A line break is what the compiled wildcard leaves out: `*` describes every filename and matches those without. */
  lemma WildcardStopsAtNewline(digit: char -> bool, f: string)
    ensures Tokenize("*") == Some([AnyText]) && Describes([AnyText], Anything, digit, f)
    ensures var compiled := CompileRegex("^" + Emit([AnyText]) + "$");
            compiled.Some? && (IsMatch(compiled.value, digit, f) <==> '\n' !in f)
  {
    AnyFilename(digit, f);
    AnchoredMeaning([AnyText], digit, f);
  }

  /** The compiled form of the pattern matches the filename exactly when the pattern describes it. */
  ghost predicate KeepsMeaning(pattern: string, digit: char -> bool, f: string)
    requires Tokenize(pattern).Some?
  {
    var tokens := Tokenize(pattern).value;
    var compiled := CompileRegex("^" + Emit(tokens) + "$");
    compiled.Some? ==> (IsMatch(compiled.value, digit, f) <==> Describes(tokens, Anything, digit, f))
  }

  /** The filenames for which every pattern keeps its plain meaning are exactly those without a line break. */
  lemma PlainMeaningOfAllPatterns(digit: char -> bool, f: string)
    ensures (forall pattern :: Tokenize(pattern).Some? ==> KeepsMeaning(pattern, digit, f)) <==> '\n' !in f
  {
    if '\n' !in f {
      forall pattern | Tokenize(pattern).Some? ensures KeepsMeaning(pattern, digit, f) {
        CompilingPreservesMeaning(pattern, digit, f);
      }
    } else {
      WildcardStopsAtNewline(digit, f);
      assert !KeepsMeaning("*", digit, f);
    }
  }

  /** What stands between braces, up to white space around it, and what it asks for; anything else is refused. */
  lemma BraceMeaning(content: string, rest: string)
    requires '}' !in content
    ensures var name := Trim(content);
            NextToken("{" + content + "}" + rest)
            == if name == "s" || name == "season" then Some((Number(Season), |content| + 2))
               else if name == "e" || name == "ep" || name == "episode" then Some((Number(Episode), |content| + 2))
               else if name == "sp" || name == "special" then Some((Number(Special), |content| + 2))
               else None
  {
    var text := "{" + content + "}" + rest;
    assert text[1..] == content + ("}" + rest);
    assert text[1..][..|content|] == content && text[1..][|content|] == '}';
    SplitAtFirst(text[1..], '}', |content|);
  }

  /** The characters that are written with a backslash, one by one. */
  lemma EscapedLiterals(c: char)
    requires c !in "*?{"
    ensures Emit([Literal(c)])
         == if c in ['.', '\\', '+', '|', '^', '$', '{', '}', '(', ')', '[', ']'] then ['\\', c] else [c]
  {
    assert [Literal(c)][1..] == [];
    assert Emit([]) == [];
  }
}
