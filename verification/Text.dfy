/** Character classes and trimming, as the standard library of the program defines them. */
module Text {

  /** The characters that Unicode counts as white space, which `trim` removes. */
  predicate IsWhitespace(c: char)
  {
    || '\t' <= c <= '\r'
    || c in " \U{85}\U{A0}\U{1680}\U{2028}\U{2029}\U{202F}\U{205F}\U{3000}"
    || '\U{2000}' <= c <= '\U{200A}'
  }

  function TrimStart(s: string): (r: string)
    ensures |r| <= |s|
  {
    if s != [] && IsWhitespace(s[0]) then TrimStart(s[1..]) else s
  }

  function TrimEnd(s: string): (r: string)
    ensures |r| <= |s|
  {
    if s != [] && IsWhitespace(s[|s| - 1]) then TrimEnd(s[..|s| - 1]) else s
  }

  function Trim(s: string): string
  {
    TrimEnd(TrimStart(s))
  }

  function ToAsciiLower(c: char): char
  {
    if 'A' <= c <= 'Z' then c - 'A' + 'a' else c
  }

  function AsciiLower(s: string): (r: string)
    ensures |r| == |s|
  {
    seq(|s|, i requires 0 <= i < |s| => ToAsciiLower(s[i]))
  }

  predicate AllWhitespace(s: string)
  {
    forall i :: 0 <= i < |s| ==> IsWhitespace(s[i])
  }

  lemma {:induction false} TrimStartPadded(left: string, s: string)
    requires AllWhitespace(left) && (s == [] || !IsWhitespace(s[0]))
    ensures TrimStart(left + s) == s
    decreases |left|
  {
    if left == [] {
      assert left + s == s;
    } else {
      assert (left + s)[0] == left[0] && (left + s)[1..] == left[1..] + s;
      TrimStartPadded(left[1..], s);
    }
  }

  lemma TrimEndStep(s: string, c: char)
    requires IsWhitespace(c)
    ensures TrimEnd(s + [c]) == TrimEnd(s)
  {
    assert (s + [c])[..|s|] == s && (s + [c])[|s|] == c;
  }

  lemma {:induction false} TrimEndPadded(s: string, right: string)
    requires AllWhitespace(right) && (s == [] || !IsWhitespace(s[|s| - 1]))
    ensures TrimEnd(s + right) == s
    decreases |right|
  {
    if right == [] {
      assert s + right == s;
    } else {
      var n := |right| - 1;
      assert s + right == s + right[..n] + [right[n]];
      TrimEndStep(s + right[..n], right[n]);
      TrimEndPadded(s, right[..n]);
    }
  }

  /** Trimming removes the white space around a text that neither begins nor ends with any, and nothing else. */
  lemma TrimPadded(left: string, s: string, right: string)
    requires AllWhitespace(left) && AllWhitespace(right)
    requires s != [] && !IsWhitespace(s[0]) && !IsWhitespace(s[|s| - 1])
    ensures Trim(left + s + right) == s
  {
    assert left + s + right == left + (s + right);
    TrimStartPadded(left, s + right);
    TrimEndPadded(s, right);
  }

  /** The texts are equal up to the case of the ASCII letters. */
  predicate SameButCase(a: string, b: string)
  {
    |a| == |b| && forall i :: 0 <= i < |a| ==> SameLetter(a[i], b[i])
  }

  predicate SameLetter(c: char, d: char)
  {
    || c == d
    || ('A' <= c <= 'Z' && d as int == c as int + 32)
    || ('A' <= d <= 'Z' && c as int == d as int + 32)
  }

  lemma LowerLetter(c: char, d: char)
    ensures ToAsciiLower(c) == ToAsciiLower(d) <==> SameLetter(c, d)
    ensures ToAsciiLower(c) as int == if 'A' <= c <= 'Z' then c as int + 32 else c as int
  {
  }

  /** Comparing in lower case is comparing up to the case of the ASCII letters. */
  lemma LowerMeans(a: string, b: string)
    ensures AsciiLower(a) == AsciiLower(b) <==> SameButCase(a, b)
  {
    if |a| == |b| {
      forall i | 0 <= i < |a| ensures AsciiLower(a)[i] == AsciiLower(b)[i] <==> SameLetter(a[i], b[i]) {
        LowerLetter(a[i], b[i]);
      }
    }
  }

  /** Among the ASCII characters: tab, the line and page breaks, and the space. */
  lemma AsciiWhitespace(c: char)
    requires c as int < 128
    ensures IsWhitespace(c) <==> 9 <= c as int <= 13 || c as int == 32
  {
  }
}
