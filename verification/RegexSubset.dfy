/**
 The regular expressions that the filename-pattern compiler emits: their abstract syntax, a
 parser for their concrete text, and what it means for one to match a stretch of a text.

 The parser covers more than the compiler produces (nested groups, repetition of any atom), so a
 character that the compiler forgot to escape is read as the operator it is, or refused.
 The class of `\d` is the Unicode one in the regex engine, so it is a parameter here.
 */
module RegexSubset {
  import opened Options

  datatype Regex =
    | Empty
    | Start
    | End
    | AnyChar
    | Digit
    | Lit(c: char)
    | Star(body: Regex)
    | Repeat(body: Regex, min: nat, max: nat)
    | Group(name: string, body: Regex)
    | Cat(first: Regex, second: Regex)

  // ---------------------------------------------------------------- meaning

  /** `re` matches exactly `s[i..j]`. */
  ghost predicate Matches(re: Regex, digit: char -> bool, s: string, i: nat, j: nat)
    requires i <= j <= |s|
    decreases re, 0, j - i
  {
    match re
    case Empty => i == j
    case Start => i == j == 0
    case End => i == j == |s|
    case AnyChar => j == i + 1 && s[i] != '\n'
    case Digit => j == i + 1 && digit(s[i])
    case Lit(c) => j == i + 1 && s[i] == c
    case Star(r) =>
      i == j || exists k :: i < k <= j && Matches(r, digit, s, i, k) && Matches(re, digit, s, k, j)
    case Repeat(r, lo, hi) => MatchesTimes(r, lo, hi, digit, s, i, j)
    case Group(_, r) => Matches(r, digit, s, i, j)
    case Cat(a, b) =>
      exists k :: i <= k <= j && Matches(a, digit, s, i, k) && Matches(b, digit, s, k, j)
  }

  /** Between `lo` and `hi` consecutive copies of `re` match exactly `s[i..j]`. */
  ghost predicate MatchesTimes(re: Regex, lo: nat, hi: nat, digit: char -> bool, s: string, i: nat, j: nat)
    requires i <= j <= |s|
    decreases re, hi + 1, 0
  {
    || (lo == 0 && i == j)
    || (hi > 0 && exists k :: i <= k <= j && Matches(re, digit, s, i, k)
                          && MatchesTimes(re, if lo == 0 then 0 else lo - 1, hi - 1, digit, s, k, j))
  }

  /** The expression matches somewhere in the text, which is what a search asks. */
  ghost predicate IsMatch(re: Regex, digit: char -> bool, s: string)
  {
    exists i: nat, j: nat :: i <= j <= |s| && Matches(re, digit, s, i, j)
  }

  /** Where a match of a concatenation passes from its first part to its second. */
  lemma CatCut(a: Regex, b: Regex, digit: char -> bool, s: string, i: nat, j: nat) returns (k: nat)
    requires i <= j <= |s| && Matches(Cat(a, b), digit, s, i, j)
    ensures i <= k <= j && Matches(a, digit, s, i, k) && Matches(b, digit, s, k, j)
  {
    k :| i <= k <= j && Matches(a, digit, s, i, k) && Matches(b, digit, s, k, j);
  }

  lemma CatJoin(a: Regex, b: Regex, digit: char -> bool, s: string, i: nat, k: nat, j: nat)
    requires i <= k <= j <= |s| && Matches(a, digit, s, i, k) && Matches(b, digit, s, k, j)
    ensures Matches(Cat(a, b), digit, s, i, j)
  {
  }

  // ------------------------------------------------------ preferred matches

  /** A named group and the text that it captured. */
  datatype Span = Span(name: string, text: string)

  /** A match from a given position: where it ends, and what its groups captured. */
  datatype Found = Found(end: nat, groups: seq<Span>)

  /**
   All matches of `re` from position `i`, most preferred first: the engine tries a further
   repetition before it stops, and an earlier part's preferences come before a later part's.
   */
  function Ends(re: Regex, digit: char -> bool, s: string, i: nat): (r: seq<Found>)
    requires i <= |s|
    ensures forall p :: 0 <= p < |r| ==> i <= r[p].end <= |s|
    decreases re, |s| - i, 0, 0
  {
    match re
    case Empty => [Found(i, [])]
    case Start => if i == 0 then [Found(i, [])] else []
    case End => if i == |s| then [Found(i, [])] else []
    case AnyChar => if i < |s| && s[i] != '\n' then [Found(i + 1, [])] else []
    case Digit => if i < |s| && digit(s[i]) then [Found(i + 1, [])] else []
    case Lit(c) => if i < |s| && s[i] == c then [Found(i + 1, [])] else []
    case Star(r) =>
      (if i < |s| then Then(Longer(Ends(r, digit, s, i), i), re, digit, s, i + 1) else []) + [Found(i, [])]
    case Repeat(r, lo, hi) => EndsTimes(r, lo, hi, digit, s, i)
    case Group(name, r) => Capture(name, s, i, Ends(r, digit, s, i))
    case Cat(a, b) => Then(Ends(a, digit, s, i), b, digit, s, i)
  }

  function EndsTimes(re: Regex, lo: nat, hi: nat, digit: char -> bool, s: string, i: nat): (r: seq<Found>)
    requires i <= |s|
    ensures forall p :: 0 <= p < |r| ==> i <= r[p].end <= |s|
    decreases re, |s| + 1 + 2 * hi, 0, 0
  {
    (if hi > 0 then ThenTimes(Ends(re, digit, s, i), re, if lo == 0 then 0 else lo - 1, hi - 1, digit, s, i) else [])
    + (if lo == 0 then [Found(i, [])] else [])
  }

  /** Each match in turn, continued by the matches of `re` from its end. */
  function Then(found: seq<Found>, re: Regex, digit: char -> bool, s: string, low: nat): (r: seq<Found>)
    requires low <= |s| && forall p :: 0 <= p < |found| ==> low <= found[p].end <= |s|
    ensures forall p :: 0 <= p < |r| ==> low <= r[p].end <= |s|
    decreases re, |s| - low, 1, |found|
  {
    if found == [] then []
    else Prefixed(found[0].groups, Ends(re, digit, s, found[0].end)) + Then(found[1..], re, digit, s, low)
  }

  function ThenTimes(found: seq<Found>, re: Regex, lo: nat, hi: nat, digit: char -> bool, s: string,
                     low: nat): (r: seq<Found>)
    requires low <= |s| && forall p :: 0 <= p < |found| ==> low <= found[p].end <= |s|
    ensures forall p :: 0 <= p < |r| ==> low <= r[p].end <= |s|
    decreases re, |s| + 2 + 2 * hi, 0, |found|
  {
    if found == [] then []
    else Prefixed(found[0].groups, EndsTimes(re, lo, hi, digit, s, found[0].end))
         + ThenTimes(found[1..], re, lo, hi, digit, s, low)
  }

  function Prefixed(groups: seq<Span>, found: seq<Found>): (r: seq<Found>)
    ensures |r| == |found| && forall p :: 0 <= p < |r| ==> r[p] == Found(found[p].end, groups + found[p].groups)
  {
    seq(|found|, p requires 0 <= p < |found| => Found(found[p].end, groups + found[p].groups))
  }

  function Capture(name: string, s: string, i: nat, found: seq<Found>): (r: seq<Found>)
    requires forall p :: 0 <= p < |found| ==> i <= found[p].end <= |s|
    ensures |r| == |found|
    ensures forall p :: 0 <= p < |r| ==> r[p] == Found(found[p].end, found[p].groups + [Span(name, s[i..found[p].end])])
  {
    seq(|found|, p requires 0 <= p < |found| => Found(found[p].end, found[p].groups + [Span(name, s[i..found[p].end])]))
  }

  /** The matches that are not empty: a repetition must make progress. */
  function Longer(found: seq<Found>, i: nat): (r: seq<Found>)
    ensures forall p :: 0 <= p < |r| ==> r[p].end > i && r[p] in found
  {
    if found == [] then []
    else (if found[0].end > i then [found[0]] else []) + Longer(found[1..], i)
  }

  /** The engine's search: the most preferred match from the earliest position that has one. */
  function Search(re: Regex, digit: char -> bool, s: string, i: nat): Option<Found>
    requires i <= |s|
    decreases |s| - i
  {
    var found := Ends(re, digit, s, i);
    if found != [] then Some(found[0])
    else if i < |s| then Search(re, digit, s, i + 1)
    else None
  }

  // ----------------------------------------------------------------- syntax

  /** The characters that the engine gives a meaning when they stand alone. */
  predicate IsMeta(c: char)
  {
    c in ".\\+|^${}()|[]*?"
  }

  predicate IsAsciiDigit(c: char)
  {
    '0' <= c <= '9'
  }

  /** The decimal number at the front of `s`, and what follows it. */
  function ParseNumber(s: string, acc: nat): (r: (nat, string))
    ensures |r.1| <= |s|
  {
    if s != [] && IsAsciiDigit(s[0]) then
      ParseNumber(s[1..], acc * 10 + (s[0] as int - '0' as int))
    else
      (acc, s)
  }

  /** The text up to the first `stop`, and what follows that character. */
  function SplitAt(s: string, stop: char): (r: Option<(string, string)>)
    ensures r.Some? ==> s == r.value.0 + [stop] + r.value.1 && stop !in r.value.0
  {
    if s == [] then None
    else if s[0] == stop then Some(([], s[1..]))
    else
      match SplitAt(s[1..], stop)
      case None => None
      case Some((before, after)) => Some(([s[0]] + before, after))
  }

  /** A counted repetition `m,n}` whose opening brace has been read. */
  function ParseBounds(s: string): (r: Option<((nat, nat), string)>)
    ensures r.Some? ==> |r.value.1| < |s|
  {
    if s == [] || !IsAsciiDigit(s[0]) then None else
    var (lo, afterLo) := ParseNumber(s, 0);
    if afterLo == [] || afterLo[0] != ',' || |afterLo| < 2 || !IsAsciiDigit(afterLo[1]) then None else
    var (hi, afterHi) := ParseNumber(afterLo[1..], 0);
    if afterHi == [] || afterHi[0] != '}' then None
    else Some(((lo, hi), afterHi[1..]))
  }

  /** One repetition operator after an atom; a second operator is outside the subset. */
  function ParseQuantifier(atom: Regex, s: string): (r: Option<(Regex, string)>)
    ensures r.Some? ==> |r.value.1| <= |s|
  {
    if s == [] || s[0] !in "*+?{" then Some((atom, s))
    else if s[0] == '*' then
      if |s| > 1 && s[1] in "*+?{" then None else Some((Star(atom), s[1..]))
    else if s[0] == '{' then
      match ParseBounds(s[1..])
      case None => None
      case Some(((lo, hi), rest)) =>
        if rest != [] && rest[0] in "*+?{" then None else Some((Repeat(atom, lo, hi), rest))
    else None
  }

  function ParseAtom(s: string): (r: Option<(Regex, string)>)
    requires s != []
    ensures r.Some? ==> |r.value.1| < |s|
    decreases |s|, 0
  {
    if s[0] == '^' then Some((Start, s[1..]))
    else if s[0] == '$' then Some((End, s[1..]))
    else if s[0] == '.' then Some((AnyChar, s[1..]))
    else if s[0] == '\\' then
      if |s| < 2 then None
      else if s[1] == 'd' then Some((Digit, s[2..]))
      else if IsMeta(s[1]) then Some((Lit(s[1]), s[2..]))
      else None
    else if s[0] == '(' then
      if !("(?P<" <= s) then None else
      match SplitAt(s[4..], '>')
      case None => None
      case Some((name, afterName)) =>
        match ParseSequence(afterName)
        case None => None
        case Some((body, afterBody)) =>
          if afterBody == [] then None else Some((Group(name, body), afterBody[1..]))
    else if s[0] in "*+?|[{)" then None
    else Some((Lit(s[0]), s[1..]))
  }

  /** Atoms up to the end of the text or an unmatched closing parenthesis. */
  function ParseSequence(s: string): (r: Option<(Regex, string)>)
    ensures r.Some? ==> |r.value.1| <= |s|
    ensures r.Some? ==> r.value.1 == [] || r.value.1[0] == ')'
    decreases |s|, 1
  {
    if s == [] || s[0] == ')' then Some((Empty, s)) else
    match ParseAtom(s)
    case None => None
    case Some((atom, afterAtom)) =>
      match ParseQuantifier(atom, afterAtom)
      case None => None
      case Some((term, afterTerm)) =>
        match ParseSequence(afterTerm)
        case None => None
        case Some((others, rest)) => Some((Cat(term, others), rest))
  }

  function GroupNames(re: Regex): seq<string>
  {
    match re
    case Star(r) => GroupNames(r)
    case Repeat(r, _, _) => GroupNames(r)
    case Group(name, r) => [name] + GroupNames(r)
    case Cat(a, b) => GroupNames(a) + GroupNames(b)
    case _ => []
  }

  predicate Distinct(names: seq<string>)
  {
    forall i, j :: 0 <= i < j < |names| ==> names[i] != names[j]
  }

  /** The engine's constructor: the whole text must parse, and a group name may occur only once. */
  function CompileRegex(text: string): Option<Regex>
  {
    match ParseSequence(text)
    case None => None
    case Some((re, rest)) => if rest == [] && Distinct(GroupNames(re)) then Some(re) else None
  }
}
