/**
 The fingerprint of an item's overlay configuration (`compute_config_hash` in
 `services/clean_art.rs`): the bytes fed to the hash are the source artwork's id and then, sorted
 by id, each overlay's id and time of last change. What is shown here is about those bytes.
 */
module ConfigFingerprint {
  import opened Options

  type byte = n: nat | n < 256 witness 0

  /** A 16-byte identifier. */
  type Id = s: seq<byte> | |s| == 16 witness [0, 0, 0, 0, 0, 0, 0, 0, 0, 0, 0, 0, 0, 0, 0, 0]

  /** An overlay and when it last changed, in nanoseconds from the epoch. */
  datatype Input = Input(id: Id, updatedAt: int)

  // ---------------------------------------------------------- order of ids

  /** Byte by byte, the first difference decides. */
  predicate Less(a: seq<byte>, b: seq<byte>)
    requires |a| == |b|
    decreases |a|
  {
    a != [] && (a[0] < b[0] || (a[0] == b[0] && Less(a[1..], b[1..])))
  }

  lemma {:induction false} LessTotal(a: seq<byte>, b: seq<byte>)
    requires |a| == |b|
    ensures Less(a, b) || Less(b, a) || a == b
    ensures !(Less(a, b) && Less(b, a)) && (Less(a, b) ==> a != b)
    decreases |a|
  {
    if a != [] {
      LessTotal(a[1..], b[1..]);
      assert a == [a[0]] + a[1..] && b == [b[0]] + b[1..];
    }
  }

  lemma {:induction false} LessTransitive(a: seq<byte>, b: seq<byte>, c: seq<byte>)
    requires |a| == |b| == |c| && Less(a, b) && Less(b, c)
    ensures Less(a, c)
    decreases |a|
  {
    if a[0] == b[0] == c[0] {
      LessTransitive(a[1..], b[1..], c[1..]);
    }
  }

  // ------------------------------------------------------------- sorting

  /** Behind every input whose id is not greater. */
  function InsertById(sorted: seq<Input>, x: Input): (r: seq<Input>)
    ensures multiset(r) == multiset(sorted) + multiset{x}
    decreases |sorted|
  {
    if sorted == [] then [x]
    else
      var last := sorted[|sorted| - 1];
      assert sorted == sorted[..|sorted| - 1] + [last];
      if !Less(x.id, last.id) then sorted + [x] else InsertById(sorted[..|sorted| - 1], x) + [last]
  }

  /** A stable sort by id. */
  function SortById(inputs: seq<Input>): (r: seq<Input>)
    ensures multiset(r) == multiset(inputs)
    decreases |inputs|
  {
    if inputs == [] then []
    else
      assert inputs == inputs[..|inputs| - 1] + [inputs[|inputs| - 1]];
      InsertById(SortById(inputs[..|inputs| - 1]), inputs[|inputs| - 1])
  }

  ghost predicate Ascending(s: seq<Input>)
  {
    forall i, j :: 0 <= i < j < |s| ==> Less(s[i].id, s[j].id)
  }

  ghost predicate DistinctIds(s: seq<Input>)
  {
    forall i, j :: 0 <= i < j < |s| ==> s[i].id != s[j].id
  }

  lemma AppendAscending(s: seq<Input>, x: Input)
    requires Ascending(s) && forall i :: 0 <= i < |s| ==> Less(s[i].id, x.id)
    ensures Ascending(s + [x])
  {
  }

  lemma BelowLast(s: seq<Input>, x: Input)
    requires Ascending(s) && s != [] && Less(s[|s| - 1].id, x.id)
    ensures forall i :: 0 <= i < |s| ==> Less(s[i].id, x.id)
  {
    forall i | 0 <= i < |s| - 1 ensures Less(s[i].id, x.id) {
      LessTransitive(s[i].id, s[|s| - 1].id, x.id);
    }
  }

  lemma {:induction false} InsertAscending(sorted: seq<Input>, x: Input)
    requires Ascending(sorted) && forall y :: y in sorted ==> y.id != x.id
    ensures Ascending(InsertById(sorted, x))
    decreases |sorted|
  {
    if sorted != [] {
      var before, last := sorted[..|sorted| - 1], sorted[|sorted| - 1];
      assert sorted == before + [last];
      LessTotal(x.id, last.id);
      if Less(x.id, last.id) {
        InsertAscending(before, x);
        var r := InsertById(before, x);
        forall i | 0 <= i < |r| ensures Less(r[i].id, last.id) {
          assert r[i] in multiset(r);
          assert r[i] in before || r[i] == x;
        }
        AppendAscending(r, last);
      } else {
        BelowLast(sorted, x);
        AppendAscending(sorted, x);
      }
    }
  }

  lemma {:induction false} SortAscending(inputs: seq<Input>)
    requires DistinctIds(inputs)
    ensures Ascending(SortById(inputs))
    decreases |inputs|
  {
    if inputs != [] {
      var before, last := inputs[..|inputs| - 1], inputs[|inputs| - 1];
      SortAscending(before);
      forall y | y in SortById(before) ensures y.id != last.id {
        assert y in multiset(SortById(before));
        assert y in before;
      }
      InsertAscending(SortById(before), last);
    }
  }

  lemma SmallestFirst(a: seq<Input>, b: seq<Input>)
    requires Ascending(a) && Ascending(b) && multiset(a) == multiset(b) && a != [] && b != []
    ensures a[0] == b[0]
  {
    assert a[0] in multiset(b) && b[0] in multiset(a);
    var i :| 0 <= i < |b| && b[i] == a[0];
    var j :| 0 <= j < |a| && a[j] == b[0];
    LessTotal(a[0].id, b[0].id);
  }

  lemma RestOf(a: seq<Input>)
    requires a != []
    ensures multiset(a[1..]) == multiset(a) - multiset{a[0]}
    ensures Ascending(a) ==> Ascending(a[1..])
  {
    assert a == [a[0]] + a[1..];
  }

  /** Two ascending arrangements of the same inputs are the same. */
  lemma {:induction false} AscendingDetermined(a: seq<Input>, b: seq<Input>)
    requires Ascending(a) && Ascending(b) && multiset(a) == multiset(b)
    ensures a == b
    decreases |a|
  {
    assert |multiset(a)| == |a| && |multiset(b)| == |b|;
    if a != [] {
      SmallestFirst(a, b);
      RestOf(a);
      RestOf(b);
      AscendingDetermined(a[1..], b[1..]);
      assert a == [a[0]] + a[1..] && b == [b[0]] + b[1..];
    }
  }

  // --------------------------------------------------------------- bytes

  function Power256(width: nat): nat
  {
    if width == 0 then 1 else 256 * Power256(width - 1)
  }

  function BigEndian(n: nat, width: nat): (r: seq<byte>)
    ensures |r| == width
  {
    if width == 0 then [] else BigEndian(n / 256, width - 1) + [n % 256]
  }

  lemma {:induction false} BigEndianInjective(a: nat, b: nat, width: nat)
    requires a < Power256(width) && b < Power256(width) && BigEndian(a, width) == BigEndian(b, width)
    ensures a == b
    decreases width
  {
    if width > 0 {
      var x, y := BigEndian(a, width), BigEndian(b, width);
      assert x[..width - 1] == BigEndian(a / 256, width - 1) && y[..width - 1] == BigEndian(b / 256, width - 1);
      assert x[width - 1] == a % 256 && y[width - 1] == b % 256;
      BigEndianInjective(a / 256, b / 256, width - 1);
    }
  }

  const HALF_64: int := 0x8000_0000_0000_0000

  /** The nanoseconds as a signed 64-bit number, when they fit. */
  function NanosOpt(t: int): Option<int>
  {
    if -HALF_64 <= t < HALF_64 then Some(t) else None
  }

  /** Two's complement, most significant byte first. */
  function SignedBytes(t: int): seq<byte>
    requires -HALF_64 <= t < HALF_64
  {
    BigEndian(if t < 0 then t + 2 * HALF_64 else t, 8)
  }

  lemma SignedBytesInjective(a: int, b: int)
    requires -HALF_64 <= a < HALF_64 && -HALF_64 <= b < HALF_64 && SignedBytes(a) == SignedBytes(b)
    ensures a == b
  {
    assert Power256(8) == 2 * HALF_64 by {
      assert Power256(4) == 0x1_0000_0000;
    }
    BigEndianInjective(if a < 0 then a + 2 * HALF_64 else a, if b < 0 then b + 2 * HALF_64 else b, 8);
  }

  function EntryBytes(x: Input): seq<byte>
  {
    x.id + (if NanosOpt(x.updatedAt).Some? then SignedBytes(NanosOpt(x.updatedAt).value) else [])
  }

  function AllBytes(inputs: seq<Input>): seq<byte>
    decreases |inputs|
  {
    if inputs == [] then [] else AllBytes(inputs[..|inputs| - 1]) + EntryBytes(inputs[|inputs| - 1])
  }

  function HashedBytes(inputs: seq<Input>, source: Id): seq<byte>
  {
    source + AllBytes(SortById(inputs))
  }

  lemma Associates(a: seq<byte>, b: seq<byte>, c: seq<byte>)
    ensures a + b + c == a + (b + c)
  {
  }

  /** What the hasher has been fed when the loop ends. */
  method FeedHasher(inputs: seq<Input>, source: Id) returns (fed: seq<byte>)
    ensures fed == HashedBytes(inputs, source)
  {
    var sorted := SortById(inputs);
    fed := source;
    var n := 0;
    while n < |sorted|
      invariant n <= |sorted|
      invariant fed == source + AllBytes(sorted[..n])
    {
      assert sorted[..n + 1][..n] == sorted[..n];
      ghost var before := AllBytes(sorted[..n]);
      fed := fed + sorted[n].id;
      var nanos := NanosOpt(sorted[n].updatedAt);
      if nanos.Some? {
        Associates(source + before, sorted[n].id, SignedBytes(nanos.value));
        fed := fed + SignedBytes(nanos.value);
      }
      assert fed == source + before + EntryBytes(sorted[n]);
      Associates(source, before, EntryBytes(sorted[n]));
      n := n + 1;
    }
    assert sorted[..n] == sorted;
  }

  // ------------------------------------------------------------ canonical

  /** The order in which the overlays are listed does not show. */
  lemma OrderDoesNotShow(inputs: seq<Input>, other: seq<Input>, source: Id)
    requires DistinctIds(inputs) && DistinctIds(other) && multiset(inputs) == multiset(other)
    ensures HashedBytes(inputs, source) == HashedBytes(other, source)
  {
    SortAscending(inputs);
    SortAscending(other);
    AscendingDetermined(SortById(inputs), SortById(other));
  }

  ghost predicate Representable(inputs: seq<Input>)
  {
    forall i :: 0 <= i < |inputs| ==> NanosOpt(inputs[i].updatedAt).Some?
  }

  lemma {:induction false} AllBytesInjective(a: seq<Input>, b: seq<Input>)
    requires Representable(a) && Representable(b) && AllBytes(a) == AllBytes(b)
    ensures a == b
    decreases |a|
  {
    AllBytesLength(a);
    AllBytesLength(b);
    if a != [] {
      var m := |a| - 1;
      var x, y := a[m], b[m];
      AllBytesLength(a[..m]);
      AllBytesLength(b[..m]);
      SplitEqual(AllBytes(a[..m]), EntryBytes(x), AllBytes(b[..m]), EntryBytes(y));
      SplitEqual(x.id, SignedBytes(x.updatedAt), y.id, SignedBytes(y.updatedAt));
      SignedBytesInjective(x.updatedAt, y.updatedAt);
      AllBytesInjective(a[..m], b[..m]);
      assert a == a[..m] + [x] && b == b[..m] + [y];
    }
  }

  lemma {:induction false} AllBytesLength(a: seq<Input>)
    requires Representable(a)
    ensures |AllBytes(a)| == 24 * |a|
    decreases |a|
  {
    if a != [] {
      AllBytesLength(a[..|a| - 1]);
    }
  }

  lemma SplitEqual<T>(a: seq<T>, b: seq<T>, c: seq<T>, d: seq<T>)
    requires |a| == |c| && a + b == c + d
    ensures a == c && b == d
  {
    assert (a + b)[..|a|] == a && (c + d)[..|c|] == c;
    assert (a + b)[|a|..] == b && (c + d)[|c|..] == d;
  }

  /** Equal bytes come only from the same source artwork and the same overlays at the same times. */
  lemma BytesIdentifyConfiguration(a: seq<Input>, s: Id, b: seq<Input>, t: Id)
    requires HashedBytes(a, s) == HashedBytes(b, t)
    requires Representable(a) && Representable(b)
    ensures s == t && multiset(a) == multiset(b)
  {
    SplitEqual(s, AllBytes(SortById(a)), t, AllBytes(SortById(b)));
    SortRepresentable(a);
    SortRepresentable(b);
    AllBytesInjective(SortById(a), SortById(b));
  }

  lemma SortRepresentable(a: seq<Input>)
    requires Representable(a)
    ensures Representable(SortById(a))
  {
    var r := SortById(a);
    forall i | 0 <= i < |r| ensures NanosOpt(r[i].updatedAt).Some? {
      assert r[i] in multiset(a);
    }
  }

  // ---------------------------------------------- beyond the 64-bit range

  lemma InsertStep(front: seq<Input>, last: Input, y: Input)
    ensures InsertById(front + [last], y)
         == if !Less(y.id, last.id) then front + [last] + [y] else InsertById(front, y) + [last]
  {
    assert (front + [last])[..|front|] == front;
  }

  lemma SortStep(front: seq<Input>, last: Input)
    ensures SortById(front + [last]) == InsertById(SortById(front), last)
  {
    assert (front + [last])[..|front|] == front;
  }

  lemma ReplaceBefore<T>(a: seq<T>, q: nat, x: T, b: seq<T>)
    requires q < |a|
    ensures (a + b)[q] == a[q] && (a + b)[q := x] == a[q := x] + b
  {
  }

  lemma ReplaceAfter<T>(a: seq<T>, last: T, x: T)
    ensures (a + [last])[|a|] == last && (a + [last])[|a| := x] == a + [x]
  {
  }

  /** Inserting before or after another input with the same id. */
  lemma InsertAroundReplaced(front: seq<Input>, last: Input, x: Input, y: Input) returns (q: nat)
    requires last.id == x.id
    ensures q < |InsertById(front + [last], y)| && InsertById(front + [last], y)[q] == last
    ensures InsertById(front + [x], y) == InsertById(front + [last], y)[q := x]
  {
    InsertStep(front, last, y);
    InsertStep(front, x, y);
    if Less(y.id, last.id) {
      ReplaceAfter(InsertById(front, y), last, x);
      q := |InsertById(front, y)|;
    } else {
      ReplaceAfter(front, last, x);
      ReplaceBefore(front + [last], |front|, x, [y]);
      q := |front|;
    }
  }

  /** Replacing an input that is already in place by another with its id. */
  lemma {:induction false} InsertAmongReplaced(sorted: seq<Input>, p: nat, x: Input, y: Input) returns (q: nat)
    requires p < |sorted| && sorted[p].id == x.id
    ensures q < |InsertById(sorted, y)| && InsertById(sorted, y)[q] == sorted[p]
    ensures InsertById(sorted[p := x], y) == InsertById(sorted, y)[q := x]
    decreases |sorted|
  {
    var front, last := sorted[..|sorted| - 1], sorted[|sorted| - 1];
    assert sorted == front + [last];
    if p == |front| {
      ReplaceAfter(front, last, x);
      q := InsertAroundReplaced(front, last, x, y);
    } else {
      ReplaceBefore(front, p, x, [last]);
      InsertStep(front, last, y);
      InsertStep(front[p := x], last, y);
      if Less(y.id, last.id) {
        q := InsertAmongReplaced(front, p, x, y);
        ReplaceBefore(InsertById(front, y), q, x, [last]);
      } else {
        ReplaceBefore(sorted, p, x, [y]);
        q := p;
      }
    }
  }

  /** Inserting another input with the same id. */
  lemma {:induction false} InsertReplaced(sorted: seq<Input>, x: Input, y: Input) returns (q: nat)
    requires x.id == y.id
    ensures q < |InsertById(sorted, y)| && InsertById(sorted, y)[q] == y
    ensures InsertById(sorted, x) == InsertById(sorted, y)[q := x]
    decreases |sorted|
  {
    var n := |sorted| - 1;
    if sorted == [] || !Less(y.id, sorted[n].id) {
      q := |sorted|;
    } else {
      q := InsertReplaced(sorted[..n], x, y);
    }
  }

  /** The sort looks at ids only. */
  lemma {:induction false} SortReplaced(inputs: seq<Input>, k: nat, x: Input) returns (q: nat)
    requires k < |inputs| && inputs[k].id == x.id
    ensures q < |SortById(inputs)| && SortById(inputs)[q] == inputs[k]
    ensures SortById(inputs[k := x]) == SortById(inputs)[q := x]
    decreases |inputs|
  {
    var n := |inputs| - 1;
    var front, last := inputs[..n], inputs[n];
    assert inputs == front + [last];
    SortStep(front, last);
    if k == n {
      ReplaceAfter(front, last, x);
      SortStep(front, x);
      q := InsertReplaced(SortById(front), x, last);
    } else {
      ReplaceBefore(front, k, x, [last]);
      SortStep(front[k := x], last);
      var p := SortReplaced(front, k, x);
      q := InsertAmongReplaced(SortById(front), p, x, last);
    }
  }

  lemma AppendCancels(a: seq<byte>, b: seq<byte>, c: seq<byte>)
    ensures a + c == b + c ==> a == b
    ensures c + a == c + b ==> a == b
  {
    if a + c == b + c {
      assert |a| == |b| && (a + c)[..|a|] == a && (b + c)[..|b|] == b;
    }
    if c + a == c + b {
      assert (c + a)[|c|..] == a && (c + b)[|c|..] == b;
    }
  }

  lemma {:induction false} BytesReplaced(s: seq<Input>, q: nat, x: Input)
    requires q < |s|
    ensures AllBytes(s[q := x]) == AllBytes(s) <==> EntryBytes(x) == EntryBytes(s[q])
    decreases |s|
  {
    var n := |s| - 1;
    if q == n {
      assert s[q := x][..n] == s[..n];
      AppendCancels(EntryBytes(x), EntryBytes(s[n]), AllBytes(s[..n]));
    } else {
      assert s[q := x][..n] == s[..n][q := x];
      BytesReplaced(s[..n], q, x);
      AppendCancels(AllBytes(s[..n][q := x]), AllBytes(s[..n]), EntryBytes(s[n]));
    }
  }

  lemma EntryShowsTime(id: Id, t: int, u: int)
    ensures EntryBytes(Input(id, t)) == EntryBytes(Input(id, u))
       <==> t == u || (NanosOpt(t) == None && NanosOpt(u) == None)
  {
    if EntryBytes(Input(id, t)) == EntryBytes(Input(id, u)) && NanosOpt(t).Some? && NanosOpt(u).Some? {
      SplitEqual(id, SignedBytes(t), id, SignedBytes(u));
      SignedBytesInjective(t, u);
    }
  }

  /**
   A change of one overlay's time shows, among any other overlays, except when neither the old nor
   the new time fits: such a time contributes nothing.
   */
  lemma TimeChangeShows(inputs: seq<Input>, k: nat, u: int, source: Id)
    requires k < |inputs|
    ensures HashedBytes(inputs[k := Input(inputs[k].id, u)], source) == HashedBytes(inputs, source)
       <==> u == inputs[k].updatedAt || (NanosOpt(u) == None && NanosOpt(inputs[k].updatedAt) == None)
  {
    var x := Input(inputs[k].id, u);
    var q := SortReplaced(inputs, k, x);
    BytesReplaced(SortById(inputs), q, x);
    EntryShowsTime(x.id, u, inputs[k].updatedAt);
    AppendCancels(AllBytes(SortById(inputs[k := x])), AllBytes(SortById(inputs)), source);
  }

  /** So a configuration with a time that does not fit always shares its bytes with a different one. */
  lemma FarTimeIsAmbiguous(inputs: seq<Input>, k: nat, source: Id) returns (other: seq<Input>)
    requires k < |inputs| && NanosOpt(inputs[k].updatedAt) == None
    ensures HashedBytes(other, source) == HashedBytes(inputs, source) && multiset(other) != multiset(inputs)
    ensures |other| == |inputs| && forall i :: 0 <= i < |other| ==> other[i].id == inputs[i].id
  {
    var was := inputs[k].updatedAt;
    var u := if was < 0 then was - 1 else was + 1;
    var x := Input(inputs[k].id, u);
    other := inputs[k := x];
    TimeChangeShows(inputs, k, u, source);
    ReplacedDiffers(inputs, k, x);
  }

  lemma ReplacedDiffers<T>(s: seq<T>, k: nat, x: T)
    requires k < |s| && x != s[k]
    ensures multiset(s[k := x]) != multiset(s)
  {
    assert multiset(s[k := x]) == multiset(s) - multiset{s[k]} + multiset{x};
    assert multiset(s[k := x])[x] == multiset(s)[x] + 1;
  }

  const FAR_0: Id := [0, 0, 0, 0, 0, 0, 0, 0, 0, 0, 0, 0, 0, 0, 0, 0]
  const FAR_1: Id := [1, 0, 0, 0, 0, 0, 0, 0, 1, 0, 0, 0, 0, 0, 0, 0]
  const FAR_2: Id := [2, 0, 0, 0, 0, 0, 0, 0, 0, 0, 0, 0, 0, 0, 0, 0]
  const NEAR_1: Id := [1, 0, 0, 0, 0, 0, 0, 0, 2, 0, 0, 0, 0, 0, 0, 0]

  lemma SortedAlready(s: seq<Input>)
    requires Ascending(s)
    ensures SortById(s) == s
  {
    forall i, j | 0 <= i < j < |s| ensures s[i].id != s[j].id {
      LessTotal(s[i].id, s[j].id);
    }
    SortAscending(s);
    AscendingDetermined(SortById(s), s);
  }

  lemma {:induction false} ZeroBytes(width: nat)
    ensures BigEndian(0, width) == seq(width, _ => 0)
  {
    if width > 0 {
      ZeroBytes(width - 1);
    }
  }

  lemma {:induction false} HighByte(width: nat)
    ensures BigEndian(Power256(width), width + 1) == [1] + seq(width, _ => 0)
  {
    if width == 0 {
      assert BigEndian(0, 0) == [];
    } else {
      HighByte(width - 1);
      assert Power256(width) / 256 == Power256(width - 1) && Power256(width) % 256 == 0;
      assert seq(width, _ => 0) == seq(width - 1, _ => 0) + [0];
    }
  }

  lemma TimesOfNear()
    ensures Power256(7) < HALF_64
    ensures SignedBytes(Power256(7)) == [1, 0, 0, 0, 0, 0, 0, 0] && SignedBytes(0) == [0, 0, 0, 0, 0, 0, 0, 0]
  {
    assert Power256(7) == 0x1_00_0000_0000_0000 by {
      assert Power256(4) == 0x1_0000_0000;
    }
    HighByte(7);
    ZeroBytes(8);
  }

  lemma TwoEntries(x: Input, y: Input)
    ensures AllBytes([x, y]) == EntryBytes(x) + EntryBytes(y)
  {
    assert [x, y][..1] == [x] && [x][..0] == [];
    assert AllBytes([x]) == [] + EntryBytes(x) == EntryBytes(x);
  }

  lemma ThreeEntries(x: Input, y: Input, z: Input)
    ensures AllBytes([x, y, z]) == EntryBytes(x) + EntryBytes(y) + EntryBytes(z)
  {
    assert [x, y, z][..2] == [x, y];
    TwoEntries(x, y);
  }

  lemma AscendingThree(x: Input, y: Input, z: Input)
    requires x.id[0] < y.id[0] < z.id[0]
    ensures Ascending([x, y, z])
  {
    assert Less(x.id, y.id) && Less(x.id, z.id) && Less(y.id, z.id);
  }

  lemma FarEntry(id: Id, far: int)
    requires NanosOpt(far) == None
    ensures EntryBytes(Input(id, far)) == id
  {
  }

  lemma SameFortyEight()
    ensures FAR_0 + FAR_1 + FAR_2 == (FAR_0 + [1, 0, 0, 0, 0, 0, 0, 0]) + (NEAR_1 + [0, 0, 0, 0, 0, 0, 0, 0])
  {
  }

  lemma FarBytes(far: int)
    requires NanosOpt(far) == None
    ensures AllBytes(SortById([Input(FAR_0, far), Input(FAR_1, far), Input(FAR_2, far)])) == FAR_0 + FAR_1 + FAR_2
  {
    var x, y, z := Input(FAR_0, far), Input(FAR_1, far), Input(FAR_2, far);
    AscendingThree(x, y, z);
    SortedAlready([x, y, z]);
    ThreeEntries(x, y, z);
    FarEntry(FAR_0, far);
    FarEntry(FAR_1, far);
    FarEntry(FAR_2, far);
  }

  lemma NearEntry(id: Id, t: int)
    requires -HALF_64 <= t < HALF_64
    ensures EntryBytes(Input(id, t)) == id + SignedBytes(t)
  {
  }

  lemma NearBytes(t: int, u: int)
    requires -HALF_64 <= t < HALF_64 && -HALF_64 <= u < HALF_64
    ensures AllBytes(SortById([Input(FAR_0, t), Input(NEAR_1, u)]))
            == (FAR_0 + SignedBytes(t)) + (NEAR_1 + SignedBytes(u))
  {
    var x, y := Input(FAR_0, t), Input(NEAR_1, u);
    SortedAlready([x, y]);
    TwoEntries(x, y);
    NearEntry(FAR_0, t);
    NearEntry(NEAR_1, u);
  }

  /** Nor can the entries be told apart any more: three without a time read like two with one. */
  lemma FarTimesCollide(far: int, source: Id)
    requires NanosOpt(far) == None
    ensures HashedBytes([Input(FAR_0, far), Input(FAR_1, far), Input(FAR_2, far)], source)
         == HashedBytes([Input(FAR_0, Power256(7)), Input(NEAR_1, 0)], source)
  {
    TimesOfNear();
    FarBytes(far);
    NearBytes(Power256(7), 0);
    SameFortyEight();
  }

  // ------------------------------------------------------ numbers as bytes

  /** The number that bytes stand for, the most significant first. */
  function ValueOf(b: seq<byte>): nat
  {
    if b == [] then 0 else ValueOf(b[..|b| - 1]) * 256 + b[|b| - 1] as nat
  }

  lemma {:induction false} BigEndianValue(n: nat, width: nat)
    requires n < Power256(width)
    ensures ValueOf(BigEndian(n, width)) == n
    decreases width
  {
    if width > 0 {
      BigEndianValue(n / 256, width - 1);
      assert BigEndian(n, width)[..width - 1] == BigEndian(n / 256, width - 1);
    }
  }

  /** A time enters when it fits a signed 64-bit number of nanoseconds, and then as that number. */
  lemma NanosMean(t: int)
    ensures NanosOpt(t) == if -9223372036854775808 <= t <= 9223372036854775807 then Some(t) else None
  {
  }

  /** The bytes of a time are those of its two's complement. */
  lemma SignedBytesValue(t: int)
    requires -HALF_64 <= t < HALF_64
    ensures |SignedBytes(t)| == 8
    ensures ValueOf(SignedBytes(t)) == if t < 0 then t + 18446744073709551616 else t
  {
    assert Power256(8) == 2 * HALF_64 by {
      assert Power256(4) == 0x1_0000_0000;
    }
    BigEndianValue(if t < 0 then t + 2 * HALF_64 else t, 8);
  }
}
