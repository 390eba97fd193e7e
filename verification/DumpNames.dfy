/**
 The names of database dumps (`pg_dump_filename`, `sanitize_label` and `parse_dump_timestamp` in
 `services/backup.rs`). A name carries a label and an instant; retention reads the instant back.
 */
module DumpNames {
  import opened Options
  import opened Text

  /** A whole second of the proleptic Gregorian calendar, in UTC. */
  datatype Instant = Instant(year: int, month: int, day: int, hour: int, minute: int, second: int)

  predicate IsLeap(year: int)
  {
    year % 4 == 0 && (year % 100 != 0 || year % 400 == 0)
  }

  function DaysIn(year: int, month: int): int
  {
    if month == 2 then (if IsLeap(year) then 29 else 28)
    else if month in [4, 6, 9, 11] then 30
    else 31
  }

  predicate IsInstant(t: Instant)
  {
    && 1 <= t.month <= 12 && 1 <= t.day <= DaysIn(t.year, t.month)
    && 0 <= t.hour < 24 && 0 <= t.minute < 60 && 0 <= t.second < 60
  }

  // ---------------------------------------------------------------- printing

  function DigitChar(d: int): char
    requires 0 <= d < 10
  {
    '0' + d as char
  }

  function TwoDigits(n: int): string
    requires 0 <= n < 100
  {
    [DigitChar(n / 10), DigitChar(n % 10)]
  }

  function FourDigits(n: int): string
    requires 0 <= n < 10000
  {
    TwoDigits(n / 100) + TwoDigits(n % 100)
  }

  /** The format `%Y%m%dT%H%M%SZ`. */
  function Stamp(t: Instant): (r: string)
    requires IsInstant(t) && 0 <= t.year < 10000
    ensures |r| == 16
  {
    FourDigits(t.year) + TwoDigits(t.month) + TwoDigits(t.day) + "T"
    + TwoDigits(t.hour) + TwoDigits(t.minute) + TwoDigits(t.second) + "Z"
  }

  predicate IsLabelChar(c: char)
  {
    'a' <= c <= 'z' || '0' <= c <= '9' || c == '-' || c == '_'
  }

  function KeepLabelChars(text: string): (r: string)
    ensures forall c :: c in r ==> IsLabelChar(c)
    decreases |text|
  {
    if text == [] then [] else
    var last := text[|text| - 1];
    var kept := KeepLabelChars(text[..|text| - 1]);
    if 'a' <= last <= 'z' || 'A' <= last <= 'Z' || '0' <= last <= '9' then kept + [ToAsciiLower(last)]
    else if last == '-' || last == '_' then kept + [last]
    else kept
  }

  /** At most 64 characters, none of which a path or a shell gives a meaning. */
  function SanitizeLabel(text: string): (r: string)
    ensures |r| <= 64 && forall c :: c in r ==> IsLabelChar(c)
  {
    var kept := KeepLabelChars(text);
    if |kept| <= 64 then kept else kept[..64]
  }

  /** ASCII letters and digits, hyphens and underscores. */
  predicate IsAllowed(c: char)
  {
    'a' <= c <= 'z' || 'A' <= c <= 'Z' || '0' <= c <= '9' || c == '-' || c == '_'
  }

  /** How many of the first `n` characters are allowed. */
  function CountAllowed(text: string, n: nat): (c: nat)
    requires n <= |text|
    ensures c <= n
  {
    if n == 0 then 0 else CountAllowed(text, n - 1) + (if IsAllowed(text[n - 1]) then 1 else 0)
  }

  lemma KeepStep(text: string, n: nat)
    requires n < |text|
    ensures KeepLabelChars(text[..n + 1])
         == if IsAllowed(text[n]) then KeepLabelChars(text[..n]) + [ToAsciiLower(text[n])]
             else KeepLabelChars(text[..n])
  {
    assert text[..n + 1][..n] == text[..n];
  }

  /** An allowed character is kept, in lower case, behind the allowed ones before it; no other is kept. */
  lemma {:induction false} KeptInOrder(text: string, n: nat, i: nat)
    requires i <= n <= |text|
    ensures |KeepLabelChars(text[..n])| == CountAllowed(text, n) >= CountAllowed(text, i)
    ensures i < n && IsAllowed(text[i]) ==>
              CountAllowed(text, i) < CountAllowed(text, n)
              && KeepLabelChars(text[..n])[CountAllowed(text, i)] == ToAsciiLower(text[i])
    decreases n
  {
    if n > 0 {
      KeptInOrder(text, n - 1, if i < n then i else n - 1);
      KeepStep(text, n - 1);
    }
  }

  /** The label is made of the first 64 allowed characters, in order and in lower case. */
  lemma LabelIsKept(text: string)
    ensures |SanitizeLabel(text)| == if CountAllowed(text, |text|) <= 64 then CountAllowed(text, |text|) else 64
    ensures forall i :: 0 <= i < |text| && IsAllowed(text[i]) && CountAllowed(text, i) < |SanitizeLabel(text)| ==>
              SanitizeLabel(text)[CountAllowed(text, i)] == ToAsciiLower(text[i])
  {
    assert text[..|text|] == text;
    forall i | 0 <= i < |text| && IsAllowed(text[i]) && CountAllowed(text, i) < |SanitizeLabel(text)|
      ensures SanitizeLabel(text)[CountAllowed(text, i)] == ToAsciiLower(text[i])
    {
      KeptInOrder(text, |text|, i);
    }
    KeptInOrder(text, |text|, |text|);
  }

  function DumpName(given: Option<string>, t: Instant): string
    requires IsInstant(t) && 0 <= t.year < 10000
  {
    var safe := if given.Some? && SanitizeLabel(given.value) != [] then SanitizeLabel(given.value) else "manual";
    "duskcue_" + safe + "_" + Stamp(t) + ".dump"
  }

  // ----------------------------------------------------------------- reading

  /** Up to `most` digits from the front: their value and what follows; none when there is no digit. */
  function TakeDigits(s: string, most: nat, acc: nat, seen: bool): Option<(nat, string)>
    decreases most
  {
    if most > 0 && s != [] && '0' <= s[0] <= '9' then
      TakeDigits(s[1..], most - 1, acc * 10 + (s[0] as int - '0' as int), true)
    else if seen then Some((acc, s))
    else None
  }

  /** A numeric field of the format, which tolerates white space in front of the number. */
  function Field(s: string, width: nat): Option<(nat, string)>
  {
    TakeDigits(TrimStart(s), width, 0, false)
  }

  /** The year field, which also takes a sign and then any number of digits. */
  function YearField(s: string): Option<(int, string)>
  {
    var t := TrimStart(s);
    var signed := t != [] && (t[0] == '-' || t[0] == '+');
    var digits := if signed then TakeDigits(t[1..], |t|, 0, false) else TakeDigits(t, 4, 0, false);
    if digits == None then None
    else
      var n: int := digits.value.0;
      Some((if signed && t[0] == '-' then -n else n, digits.value.1))
  }

  function Expect(s: string, c: char): Option<string>
  {
    if s != [] && s[0] == c then Some(s[1..]) else None
  }

  function ParseDate(s: string): Option<((int, int, int), string)>
  {
    match YearField(s)
    case None => None
    case Some((year, s1)) =>
      match Field(s1, 2)
      case None => None
      case Some((month, s2)) =>
        match Field(s2, 2)
        case None => None
        case Some((day, s3)) => Some(((year, month, day), s3))
  }

  function ParseTime(s: string): Option<((int, int, int), string)>
  {
    match Field(s, 2)
    case None => None
    case Some((hour, s1)) =>
      match Field(s1, 2)
      case None => None
      case Some((minute, s2)) =>
        match Field(s2, 2)
        case None => None
        case Some((second, s3)) => Some(((hour, minute, second), s3))
  }

  /** The stamp's instant; a leap second is read as the last second of its minute plus one. */
  function ParseStamp(s: string): Option<Instant>
  {
    match ParseDate(s)
    case None => None
    case Some(((year, month, day), afterDate)) =>
      match Expect(afterDate, 'T')
      case None => None
      case Some(timeText) =>
        match ParseTime(timeText)
        case None => None
        case Some(((hour, minute, second), afterTime)) =>
          if afterTime != "Z" then None else
          var t := Instant(year, month, day, hour, minute, second);
          if IsInstant(t.(second := if second == 60 then 59 else second)) then Some(t) else None
  }

  /** What follows the last underscore, or all of the text when there is none. */
  function AfterLastUnderscore(s: string): string
  {
    if s == [] || s[|s| - 1] == '_' then [] else AfterLastUnderscore(s[..|s| - 1]) + [s[|s| - 1]]
  }

  function ParseDumpName(name: string): Option<Instant>
  {
    if |name| < 5 || name[|name| - 5..] != ".dump" then None else
    var stamp := AfterLastUnderscore(name[..|name| - 5]);
    if |stamp| != 16 then None else ParseStamp(stamp)
  }

  // -------------------------------------------------------------- round trip

  lemma {:induction false} LastSegment(before: string, segment: string)
    requires '_' !in segment
    ensures AfterLastUnderscore(before + "_" + segment) == segment
  {
    var s := before + "_" + segment;
    if segment != [] {
      var shorter := segment[..|segment| - 1];
      assert s[..|s| - 1] == before + "_" + shorter;
      LastSegment(before, shorter);
    }
  }

  lemma TwoDigitsRead(n: int, rest: string)
    requires 0 <= n < 100
    ensures Field(TwoDigits(n) + rest, 2) == Some((n, rest))
  {
    var s := TwoDigits(n) + rest;
    assert s[1..] == [DigitChar(n % 10)] + rest && s[1..][1..] == rest;
    assert TrimStart(s) == s;
    assert TakeDigits(s[1..], 1, n / 10, true) == TakeDigits(rest, 0, n, true);
  }

  lemma FourDigitsRead(n: int, rest: string)
    requires 0 <= n < 10000
    ensures YearField(FourDigits(n) + rest) == Some((n, rest))
  {
    var s := FourDigits(n) + rest;
    var high, low := n / 100, n % 100;
    assert s == TwoDigits(high) + (TwoDigits(low) + rest);
    assert s[1..][1..] == TwoDigits(low) + rest;
    assert s[1..][1..][1..][1..] == rest;
    assert TrimStart(s) == s;
    assert TakeDigits(s, 4, 0, false) == TakeDigits(TwoDigits(low) + rest, 2, high, true);
    assert TakeDigits(TwoDigits(low) + rest, 2, high, true) == TakeDigits(rest, 0, n, true);
  }

  lemma DateRead(t: Instant, rest: string)
    requires IsInstant(t) && 0 <= t.year < 10000
    ensures ParseDate(FourDigits(t.year) + TwoDigits(t.month) + TwoDigits(t.day) + rest)
         == Some(((t.year, t.month, t.day), rest))
  {
    var s := FourDigits(t.year) + TwoDigits(t.month) + TwoDigits(t.day) + rest;
    assert s == FourDigits(t.year) + (TwoDigits(t.month) + (TwoDigits(t.day) + rest));
    FourDigitsRead(t.year, TwoDigits(t.month) + (TwoDigits(t.day) + rest));
    TwoDigitsRead(t.month, TwoDigits(t.day) + rest);
    TwoDigitsRead(t.day, rest);
  }

  lemma TimeRead(t: Instant, rest: string)
    requires IsInstant(t)
    ensures ParseTime(TwoDigits(t.hour) + TwoDigits(t.minute) + TwoDigits(t.second) + rest)
         == Some(((t.hour, t.minute, t.second), rest))
  {
    var s := TwoDigits(t.hour) + TwoDigits(t.minute) + TwoDigits(t.second) + rest;
    assert s == TwoDigits(t.hour) + (TwoDigits(t.minute) + (TwoDigits(t.second) + rest));
    TwoDigitsRead(t.hour, TwoDigits(t.minute) + (TwoDigits(t.second) + rest));
    TwoDigitsRead(t.minute, TwoDigits(t.second) + rest);
    TwoDigitsRead(t.second, rest);
  }

  lemma StampRead(t: Instant)
    requires IsInstant(t) && 0 <= t.year < 10000
    ensures ParseStamp(Stamp(t)) == Some(t)
  {
    var time := TwoDigits(t.hour) + TwoDigits(t.minute) + TwoDigits(t.second) + "Z";
    assert Stamp(t) == FourDigits(t.year) + TwoDigits(t.month) + TwoDigits(t.day) + ("T" + time);
    DateRead(t, "T" + time);
    assert ("T" + time)[1..] == time;
    TimeRead(t, "Z");
  }

  /**
   Reading a generated name gives back the instant it was generated at, whatever the label: one
   with underscores, one that nothing is left of, or none. Generated dumps are never undated.
   */
  lemma DumpNameRoundTrip(given: Option<string>, t: Instant)
    requires IsInstant(t) && 0 <= t.year < 10000
    ensures ParseDumpName(DumpName(given, t)) == Some(t)
  {
    var safe := if given.Some? && SanitizeLabel(given.value) != [] then SanitizeLabel(given.value) else "manual";
    var before := "duskcue_" + safe;
    var name := DumpName(given, t);
    assert name == before + "_" + Stamp(t) + ".dump";
    assert name[|name| - 5..] == ".dump" && name[..|name| - 5] == before + "_" + Stamp(t);
    StampHasNoUnderscore(t);
    LastSegment(before, Stamp(t));
    StampRead(t);
  }

  lemma StampHasNoUnderscore(t: Instant)
    requires IsInstant(t) && 0 <= t.year < 10000
    ensures '_' !in Stamp(t)
  {
    forall n | 0 <= n < 100 ensures '_' !in TwoDigits(n) {
    }
  }

  // ----------------------------------------------------- what the name shows

  /** The label that stands in a name. */
  function LabelOf(given: Option<string>): string
  {
    if given.Some? && SanitizeLabel(given.value) != [] then SanitizeLabel(given.value) else "manual"
  }

  lemma NameLayout(given: Option<string>, t: Instant)
    requires IsInstant(t) && 0 <= t.year < 10000
    ensures DumpName(given, t) == "duskcue_" + LabelOf(given) + ("_" + Stamp(t) + ".dump")
  {
    assert "duskcue_" + LabelOf(given) + "_" + Stamp(t) + ".dump"
           == "duskcue_" + LabelOf(given) + ("_" + Stamp(t) + ".dump");
  }

  /** The label stands between the fixed beginning of eight characters and the last 22. */
  lemma NameShowsLabel(given: Option<string>, t: Instant)
    requires IsInstant(t) && 0 <= t.year < 10000
    ensures var name := DumpName(given, t);
            && |name| >= 30 && name[..8] == "duskcue_" && name[|name| - 5..] == ".dump"
            && name[8..|name| - 22] == LabelOf(given)
  {
    NameLayout(given, t);
    var tail := "_" + Stamp(t) + ".dump";
    assert |tail| == 22 && tail[17..] == ".dump";
    NameSlices("duskcue_", LabelOf(given), tail);
  }

  lemma NameSlices(a: string, b: string, c: string)
    requires |a| == 8 && |c| == 22
    ensures var s := a + b + c;
            s[..8] == a && s[8..|s| - 22] == b && s[|s| - 5..] == c[17..]
  {
  }

  /** Names agree only if label and instant do. */
  lemma NamesDiffer(a: Option<string>, t: Instant, b: Option<string>, u: Instant)
    requires IsInstant(t) && 0 <= t.year < 10000 && IsInstant(u) && 0 <= u.year < 10000
    requires DumpName(a, t) == DumpName(b, u)
    ensures LabelOf(a) == LabelOf(b) && t == u
  {
    NameShowsLabel(a, t);
    NameShowsLabel(b, u);
    DumpNameRoundTrip(a, t);
    DumpNameRoundTrip(b, u);
  }

  /** The months of the calendar; February has its leap day every four years, less every hundred, plus every 400. */
  lemma CalendarMeans(year: int, month: int)
    requires 1 <= month <= 12
    ensures month != 2 ==> DaysIn(year, month) == [31, 28, 31, 30, 31, 30, 31, 31, 30, 31, 30, 31][month - 1]
    ensures DaysIn(year, 2) == 28
            + (if year % 400 == 0 then 1 else if year % 100 == 0 then 0 else if year % 4 == 0 then 1 else 0)
  {
  }

  /** What is read from a name is an instant, up to a leap second. */
  lemma ReadInstantExists(name: string)
    requires ParseDumpName(name).Some?
    ensures var t := ParseDumpName(name).value;
            && 1 <= t.month <= 12 && 1 <= t.day <= DaysIn(t.year, t.month)
            && 0 <= t.hour <= 23 && 0 <= t.minute <= 59 && 0 <= t.second <= 60
    ensures |name| >= 21 && name[|name| - 5..] == ".dump"
  {
    SuffixShort(name[..|name| - 5]);
  }

  lemma {:induction false} SuffixShort(s: string)
    ensures |AfterLastUnderscore(s)| <= |s|
    decreases |s|
  {
    if s != [] {
      SuffixShort(s[..|s| - 1]);
    }
  }
}
