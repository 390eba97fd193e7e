/**
 The loader of sealed seccomp policies (`native/ffmpeg-bootstrap/bootstrap.c`): a 40-byte header
 and a run of 8-byte filter instructions, guarded by an FNV-1a checksum over the header, with the
 checksum's own field zeroed, followed by the instructions. Every failed check ends the process;
 here that is the result `None`.
 */
module PolicyLoader {
  import opened Options

  type byte = bv8

  const HEADER_BYTES: nat := 40
  const INSTRUCTION_BYTES: nat := 8
  const MAX_INSTRUCTIONS: nat := 4096
  const MAGIC: seq<byte> := [0x44, 0x55, 0x53, 0x4b, 0x53, 0x43, 0x30, 0x31]
  const ACK_MAGIC: seq<byte> := [0x44, 0x55, 0x53, 0x4b, 0x41, 0x43, 0x4b, 0x31]
  const OFFSET_BASIS: bv64 := 0xcbf29ce484222325
  const ZEROS: seq<byte> := [0, 0, 0, 0, 0, 0, 0, 0]

  // ---------------------------------------------------- little-endian fields

  function Word(b0: byte, b1: byte, b2: byte, b3: byte): bv32
  {
    (b0 as bv32) | ((b1 as bv32) << 8) | ((b2 as bv32) << 16) | ((b3 as bv32) << 24)
  }

  function Read32(b: seq<byte>): bv32
    requires |b| == 4
  {
    Word(b[0], b[1], b[2], b[3])
  }

  function Read64(b: seq<byte>): bv64
    requires |b| == 8
  {
    (Read32(b[..4]) as bv64) | ((Read32(b[4..]) as bv64) << 32)
  }

  lemma WordInjective(a0: byte, a1: byte, a2: byte, a3: byte, b0: byte, b1: byte, b2: byte, b3: byte)
    requires Word(a0, a1, a2, a3) == Word(b0, b1, b2, b3)
    ensures a0 == b0 && a1 == b1 && a2 == b2 && a3 == b3
  {
  }

  lemma Read32Injective(a: seq<byte>, b: seq<byte>)
    requires |a| == |b| == 4 && Read32(a) == Read32(b)
    ensures a == b
  {
    WordInjective(a[0], a[1], a[2], a[3], b[0], b[1], b[2], b[3]);
  }

  lemma JoinInjective(a: bv32, b: bv32, c: bv32, d: bv32)
    requires (a as bv64) | ((b as bv64) << 32) == (c as bv64) | ((d as bv64) << 32)
    ensures a == c && b == d
  {
  }

  lemma Read64Injective(a: seq<byte>, b: seq<byte>)
    requires |a| == |b| == 8 && Read64(a) == Read64(b)
    ensures a == b
  {
    JoinInjective(Read32(a[..4]), Read32(a[4..]), Read32(b[..4]), Read32(b[4..]));
    Read32Injective(a[..4], b[..4]);
    Read32Injective(a[4..], b[4..]);
    assert a == a[..4] + a[4..] && b == b[..4] + b[4..];
  }

  // ------------------------------------------------------------- checksum

  function TimesPrime(x: bv64): bv64
  {
    x * 0x100000001b3
  }

  function MixWord(hash: bv64, w: bv64): bv64
  {
    TimesPrime(hash ^ w)
  }

  /** One FNV-1a step. */
  function Mix(hash: bv64, b: byte): bv64
  {
    MixWord(hash, b as bv64)
  }

  function Checksum(bytes: seq<byte>, hash: bv64): bv64
  {
    if bytes == [] then hash else Checksum(bytes[1..], Mix(hash, bytes[0]))
  }

  /** Multiplication by the inverse of the prime modulo 2^64; the prime is odd, so it has one. */
  function UndoPrime(x: bv64): bv64
  {
    x * 0xce965057aff6957b
  }

  lemma PrimeUndone(a: bv64, product: bv64)
    requires product == a * 0x100000001b3
    ensures a == UndoPrime(product)
  {
  }

  lemma PrimeInjective(a: bv64, b: bv64)
    requires TimesPrime(a) == TimesPrime(b)
    ensures a == b
  {
    PrimeUndone(a, TimesPrime(a));
    PrimeUndone(b, TimesPrime(b));
  }

  /** The inverse spelled out once more: the solver multiplies numerals. */
  lemma PrimeUndoes(g: bv64)
    ensures TimesPrime(g * 0xce965057aff6957b) == g
  {
  }

  lemma PrimeSurjective(g: bv64)
    ensures TimesPrime(UndoPrime(g)) == g
  {
    PrimeUndoes(g);
  }

  lemma XorInjective(a: bv64, b: bv64, c: bv64)
    requires a ^ c == b ^ c
    ensures a == b
  {
  }

  lemma XorCommutes(a: bv64, b: bv64)
    ensures a ^ b == b ^ a
  {
  }

  lemma XorTwice(h: bv64, w: bv64)
    ensures (h ^ w) ^ w == h
  {
  }

  lemma MixWordInjectiveInHash(h: bv64, g: bv64, w: bv64)
    requires MixWord(h, w) == MixWord(g, w)
    ensures h == g
  {
    PrimeInjective(h ^ w, g ^ w);
    XorInjective(h, g, w);
  }

  lemma MixWordInjectiveInWord(h: bv64, v: bv64, w: bv64)
    requires MixWord(h, v) == MixWord(h, w)
    ensures v == w
  {
    PrimeInjective(h ^ v, h ^ w);
    XorCommutes(h, v);
    XorCommutes(h, w);
    XorInjective(v, w, h);
  }

  /** A step permutes the hashes, and from one hash different bytes lead to different hashes. */
  lemma MixInjective(h: bv64, a: byte, g: bv64, b: byte)
    requires Mix(h, a) == Mix(g, b)
    ensures h == g <==> a == b
  {
    if a == b {
      MixWordInjectiveInHash(h, g, a as bv64);
    } else if h == g {
      MixWordInjectiveInWord(h, a as bv64, b as bv64);
    }
  }

  lemma MixWordReaches(h: bv64, w: bv64, g: bv64)
    requires TimesPrime(h) == g
    ensures MixWord(h ^ w, w) == g
  {
    XorTwice(h, w);
  }

  /** Every 64-bit value is the outcome of a step. */
  lemma MixSurjective(g: bv64, b: byte)
    ensures exists h :: Mix(h, b) == g
  {
    var h := UndoPrime(g);
    PrimeSurjective(g);
    MixWordReaches(h, b as bv64, g);
    assert Mix(h ^ (b as bv64), b) == g;
  }

  lemma {:induction false} ChecksumInjectiveInHash(bytes: seq<byte>, h: bv64, g: bv64)
    requires Checksum(bytes, h) == Checksum(bytes, g)
    ensures h == g
  {
    if bytes != [] {
      ChecksumInjectiveInHash(bytes[1..], Mix(h, bytes[0]), Mix(g, bytes[0]));
      MixInjective(h, bytes[0], g, bytes[0]);
    }
  }

  lemma {:induction false} ChecksumAppend(a: seq<byte>, b: seq<byte>, h: bv64)
    ensures Checksum(a + b, h) == Checksum(b, Checksum(a, h))
  {
    if a == [] {
      assert a + b == b;
    } else {
      assert (a + b)[1..] == a[1..] + b;
      ChecksumAppend(a[1..], b, Mix(h, a[0]));
    }
  }

  /** Changing one byte of a hashed run always changes the hash. */
  lemma ChecksumSeesOneByte(bytes: seq<byte>, k: nat, b: byte, h: bv64)
    requires k < |bytes| && b != bytes[k]
    ensures Checksum(bytes[k := b], h) != Checksum(bytes, h)
  {
    var before, after := bytes[..k], bytes[k + 1..];
    var g := Checksum(before, h);
    assert bytes == before + ([bytes[k]] + after);
    assert bytes[k := b] == before + ([b] + after);
    ChecksumAppend(before, [bytes[k]] + after, h);
    ChecksumAppend(before, [b] + after, h);
    assert ([bytes[k]] + after)[1..] == after && ([b] + after)[1..] == after;
    if Checksum(after, Mix(g, b)) == Checksum(after, Mix(g, bytes[k])) {
      ChecksumInjectiveInHash(after, Mix(g, b), Mix(g, bytes[k]));
      MixInjective(g, b, g, bytes[k]);
    }
  }

  method ComputeChecksum(bytes: array<byte>, size: nat, start: bv64) returns (hash: bv64)
    requires size <= bytes.Length
    ensures hash == Checksum(bytes[..size], start)
  {
    hash := start;
    var index := 0;
    assert bytes[0..size] == bytes[..size];
    while index < size
      invariant index <= size
      invariant Checksum(bytes[index..size], hash) == Checksum(bytes[..size], start)
    {
      assert bytes[index..size][1..] == bytes[index + 1..size];
      hash := Mix(hash, bytes[index]);
      index := index + 1;
    }
  }

  // ----------------------------------------------------- complete reads

  /** What one `pread` does: deliver at most so many bytes, be interrupted by a signal, or fail. */
  datatype Pread = Delivers(most: nat) | Interrupted | Fails

  /** The answers to the calls of one read, in order. */
  type Calls = nat -> Pread

  function Offered(calls: Calls, n: nat): nat
  {
    if n == 0 then 0
    else Offered(calls, n - 1) + (if calls(n - 1).Delivers? then calls(n - 1).most else 0)
  }

  function Interruptions(calls: Calls, n: nat): nat
  {
    if n == 0 then 0
    else Interruptions(calls, n - 1) + (if calls(n - 1).Interrupted? then 1 else 0)
  }

  /** None of the first `n` calls fails or reports the end of the file. */
  ghost predicate Clean(calls: Calls, n: nat)
  {
    forall m: nat :: m < n ==> calls(m).Interrupted? || (calls(m).Delivers? && calls(m).most > 0)
  }

  /** Some clean run of calls with at most eight interruptions offers all the bytes wanted. */
  ghost predicate Delivered(calls: Calls, size: nat)
  {
    exists n: nat :: Clean(calls, n) && Interruptions(calls, n) <= 8 && Offered(calls, n) >= size
  }

  lemma {:induction false} OfferedMonotone(calls: Calls, m: nat, n: nat)
    requires m <= n
    ensures Offered(calls, m) <= Offered(calls, n) && Interruptions(calls, m) <= Interruptions(calls, n)
    decreases n
  {
    if m < n {
      OfferedMonotone(calls, m, n - 1);
    }
  }

  /** After a call that ends the read early, no longer run of calls can count as delivered. */
  lemma NotDelivered(calls: Calls, n: nat, size: nat)
    requires Offered(calls, n) < size
    requires calls(n).Fails? || calls(n) == Delivers(0) || (calls(n).Interrupted? && Interruptions(calls, n) >= 8)
    ensures !Delivered(calls, size)
  {
    forall m: nat | Clean(calls, m) && Interruptions(calls, m) <= 8
      ensures Offered(calls, m) < size
    {
      if m <= n {
        OfferedMonotone(calls, m, n);
      } else {
        OfferedMonotone(calls, n + 1, m);
        assert m > n && Clean(calls, m);
      }
    }
  }

  function Min(a: int, b: int): int
  {
    if a <= b then a else b
  }

  /**
   Fills the first `size` bytes of the buffer from the file, call by call. It succeeds exactly
   when the file reaches that far and the calls deliver; then the bytes are the file's.
   */
  method ReadExact(file: seq<byte>, calls: Calls, bytes: array<byte>, size: nat, offset: nat) returns (ok: bool)
    requires size <= bytes.Length
    modifies bytes
    ensures ok <==> (size == 0 || offset + size <= |file|) && Delivered(calls, size)
    ensures ok && size > 0 ==> bytes[..size] == file[offset..offset + size]
    ensures bytes[size..] == old(bytes[size..])
  {
    var completed, interruptions := 0, 0;
    var n := 0;
    while completed < size
      invariant completed <= size
      invariant completed > 0 ==> offset + completed <= |file|
      invariant forall k :: 0 <= k < completed ==> bytes[k] == file[offset + k]
      invariant bytes[size..] == old(bytes[size..])
      invariant interruptions == Interruptions(calls, n) <= 8
      invariant Clean(calls, n)
      invariant completed <= Offered(calls, n)
      invariant completed < size && offset + size <= |file| ==> completed == Offered(calls, n)
      decreases size - completed, 8 - interruptions
    {
      var call := calls(n);
      if call.Interrupted? && interruptions < 8 {
        interruptions := interruptions + 1;
        n := n + 1;
        continue;
      }
      var at := offset + completed;
      var count := if call.Delivers? then Min(call.most, Min(size - completed, if at < |file| then |file| - at else 0))
                   else 0;
      if count <= 0 {
        if offset + size <= |file| {
          NotDelivered(calls, n, size);
        }
        return false;
      }
      forall k | 0 <= k < count {
        bytes[completed + k] := file[at + k];
      }
      completed := completed + count;
      n := n + 1;
    }
    return true;
  }

  // ----------------------------------------------------------- descriptors

  predicate AllDigits(text: string)
  {
    forall i :: 0 <= i < |text| ==> '0' <= text[i] <= '9'
  }

  function DecimalValue(text: string): nat
    requires AllDigits(text)
  {
    if text == [] then 0
    else DecimalValue(text[..|text| - 1]) * 10 + (text[|text| - 1] as int - '0' as int)
  }

  lemma {:induction false} DecimalValueOfPrefix(text: string, n: nat)
    requires AllDigits(text) && n <= |text|
    ensures DecimalValue(text[..n]) <= DecimalValue(text)
    decreases |text| - n
  {
    if n == |text| {
      assert text[..n] == text;
    } else {
      assert text[..n + 1][..n] == text[..n];
      DecimalValueOfPrefix(text, n + 1);
    }
  }

  /** One to nine digits, of a value between 3 and 100000000. */
  ghost predicate GoodDescriptor(text: Option<string>)
  {
    && text.Some? && 1 <= |text.value| <= 9 && AllDigits(text.value)
    && 3 <= DecimalValue(text.value) <= 100000000
  }

  /** A file descriptor from the environment. */
  method ParseDescriptor(text: Option<string>) returns (fd: Option<nat>)
    ensures fd.Some? <==> GoodDescriptor(text)
    ensures fd.Some? ==> fd.value == DecimalValue(text.value)
  {
    if text == None || text.value == [] {
      return None;
    }
    var digits := text.value;
    var value, index := 0, 0;
    while index < |digits|
      invariant index <= |digits| && index <= 9
      invariant AllDigits(digits[..index])
      invariant value == DecimalValue(digits[..index]) <= 100000000
    {
      assert digits[..index + 1][..index] == digits[..index];
      if index >= 9 || !('0' <= digits[index] <= '9') {
        return None;
      }
      value := value * 10 + (digits[index] as int - '0' as int);
      assert value < 0x1_0000_0000;
      if value > 100000000 {
        if AllDigits(digits) {
          DecimalValueOfPrefix(digits, index + 1);
        }
        return None;
      }
      index := index + 1;
    }
    assert digits[..index] == digits;
    if value < 3 {
      return None;
    }
    return Some(value);
  }

  // ------------------------------------------------------------ acceptance

  /** How many instructions the header announces. */
  function Announced(header: seq<byte>): nat
    requires |header| == HEADER_BYTES
  {
    Read32(header[16..20]) as nat
  }

  /** The header's fields suit a policy file of `size` bytes on the architecture `arch`. */
  predicate HeaderFits(header: seq<byte>, size: nat, arch: bv32)
    requires |header| == HEADER_BYTES
  {
    && header[..8] == MAGIC
    && Read32(header[8..12]) == 1
    && Read32(header[12..16]) == arch
    && Read32(header[20..24]) == 0
    && 1 <= Announced(header) <= MAX_INSTRUCTIONS
    && size == HEADER_BYTES + Announced(header) * INSTRUCTION_BYTES
  }

  /** The bytes under the checksum: the header with the checksum's field zeroed, then the rest. */
  function Hashed(file: seq<byte>): seq<byte>
    requires |file| >= HEADER_BYTES
  {
    file[..32] + ZEROS + file[HEADER_BYTES..]
  }

  /** The policy is one that this loader installs on the architecture `arch`. */
  ghost predicate Accepted(file: seq<byte>, arch: bv32)
  {
    && |file| >= HEADER_BYTES
    && HeaderFits(file[..HEADER_BYTES], |file|, arch)
    && Checksum(Hashed(file), OFFSET_BASIS) == Read64(file[32..40])
  }

  /** What the launcher has arranged besides the policy itself. */
  datatype Launch = Launch(
    policyFd: Option<string>,
    ackFd: Option<string>,
    variablesRemoved: bool,
    descriptorsSuitable: bool,
    sealed: bool,
    noNewPrivileges: bool,
    policyCloses: bool,
    filterInstalls: bool,
    replyCloses: bool)

  /** The reply to the launcher: the policy's identity and architecture, echoed. */
  function Acknowledgment(file: seq<byte>): seq<byte>
    requires |file| >= HEADER_BYTES
  {
    ACK_MAGIC + file[24..32] + file[12..16] + [1, 0, 0, 0]
  }

  ghost predicate GoodLaunch(launch: Launch)
  {
    && GoodDescriptor(launch.policyFd) && GoodDescriptor(launch.ackFd)
    && DecimalValue(launch.policyFd.value) != DecimalValue(launch.ackFd.value)
    && launch.variablesRemoved && launch.descriptorsSuitable && launch.sealed
    && launch.noNewPrivileges && launch.policyCloses && launch.filterInstalls
  }

  /** Two suitable, distinct descriptors in an environment that can be sealed off. */
  method CheckLaunch(launch: Launch) returns (ok: bool)
    ensures ok && launch.noNewPrivileges && launch.policyCloses && launch.filterInstalls <==> GoodLaunch(launch)
  {
    var policyFd := ParseDescriptor(launch.policyFd);
    if policyFd == None {
      return false;
    }
    var ackFd := ParseDescriptor(launch.ackFd);
    return ackFd != None && policyFd != ackFd && launch.variablesRemoved && launch.descriptorsSuitable && launch.sealed;
  }

  /** Reads and checks the policy; the header comes back when it is acceptable. */
  method LoadPolicy(file: seq<byte>, arch: bv32, headerCalls: Calls, bodyCalls: Calls)
    returns (header: Option<seq<byte>>)
    ensures header.Some? <==> && Accepted(file, arch) && Delivered(headerCalls, HEADER_BYTES)
                              && Delivered(bodyCalls, |file| - HEADER_BYTES)
    ensures header.Some? ==> |header.value| == 32 && header.value == file[..32]
  {
    var buffer := new byte[HEADER_BYTES];
    var ok := ReadExact(file, headerCalls, buffer, HEADER_BYTES, 0);
    if !ok {
      return None;
    }
    assert buffer[..] == buffer[..HEADER_BYTES] == file[..HEADER_BYTES];
    if !HeaderFits(buffer[..], |file|, arch) {
      return None;
    }
    var size := Announced(buffer[..]) * INSTRUCTION_BYTES;
    var instructions := new byte[MAX_INSTRUCTIONS * INSTRUCTION_BYTES];
    ok := ReadExact(file, bodyCalls, instructions, size, HEADER_BYTES);
    if !ok {
      return None;
    }
    assert instructions[..size] == file[HEADER_BYTES..];
    ok := ChecksumHolds(buffer, instructions, size, file);
    return if ok then Some(buffer[..32]) else None;
  }

  /** What one `write` of the reply does: transfer so many bytes, be interrupted by a signal, or fail. */
  datatype Write = Wrote(count: nat) | WriteInterrupted | WriteFails

  const REPLY_BYTES: nat := 24
  const WRITE_ATTEMPTS: nat := 8

  /** One of the first eight writes transfers the whole reply, and those before it were interrupted. */
  ghost predicate Written(writes: nat -> Write)
  {
    exists n: nat :: n < WRITE_ATTEMPTS && writes(n) == Wrote(REPLY_BYTES)
                     && forall m: nat :: m < n ==> writes(m).WriteInterrupted?
  }

  /** The loop over the writes; a short write is not continued. */
  method Acknowledge(writes: nat -> Write) returns (ok: bool)
    ensures ok <==> Written(writes)
  {
    for attempt := 0 to WRITE_ATTEMPTS
      invariant forall m: nat :: m < attempt ==> writes(m).WriteInterrupted?
    {
      if writes(attempt) == Wrote(REPLY_BYTES) {
        return true;
      }
      if !writes(attempt).WriteInterrupted? {
        return false;
      }
    }
    return false;
  }

  /**
   The sealed file's size is fixed, so `file` is all of it. The launcher gets the whole reply exactly
   when the launch is sound, the policy is acceptable, both reads complete, and so does the write;
   the process goes on exactly when the reply's descriptor can then be closed as well.
   */
  method InstallPolicy(launch: Launch, file: seq<byte>, arch: bv32, headerCalls: Calls, bodyCalls: Calls,
                       writes: nat -> Write)
    returns (reply: Option<seq<byte>>, running: bool)
    ensures reply.Some? <==> && GoodLaunch(launch) && Accepted(file, arch)
                             && Delivered(headerCalls, HEADER_BYTES)
                             && Delivered(bodyCalls, |file| - HEADER_BYTES)
                             && Written(writes)
    ensures reply.Some? ==> reply.value == Acknowledgment(file)
    ensures running <==> reply.Some? && launch.replyCloses
  {
    var ok := CheckLaunch(launch);
    if !ok {
      return None, false;
    }
    var header := LoadPolicy(file, arch, headerCalls, bodyCalls);
    if header == None || !launch.noNewPrivileges || !launch.policyCloses || !launch.filterInstalls {
      return None, false;
    }
    ok := Acknowledge(writes);
    if !ok {
      return None, false;
    }
    assert header.value[24..32] == file[24..32] && header.value[12..16] == file[12..16];
    return Some(ACK_MAGIC + header.value[24..32] + header.value[12..16] + [1, 0, 0, 0]), launch.replyCloses;
  }

  /** Zeroes the checksum's field of the header and compares. */
  method ChecksumHolds(header: array<byte>, instructions: array<byte>, size: nat, ghost file: seq<byte>)
    returns (holds: bool)
    requires header.Length == HEADER_BYTES && |file| >= HEADER_BYTES && header[..] == file[..HEADER_BYTES]
    requires size <= instructions.Length && instructions[..size] == file[HEADER_BYTES..] && header != instructions
    modifies header
    ensures holds <==> Checksum(Hashed(file), OFFSET_BASIS) == Read64(file[32..40])
    ensures header[..32] == file[..32]
  {
    var expected := Read64(header[32..40]);
    assert header[32..40] == header[..][32..40] == file[32..40];
    assert expected == Read64(file[32..40]);
    assert header[..32] == header[..][..32] == file[..32];
    forall k | 32 <= k < 40 {
      header[k] := 0;
    }
    assert header[..32] == file[..32];
    assert header[..HEADER_BYTES] == file[..32] + ZEROS;
    assert file[..32] + ZEROS + file[HEADER_BYTES..] == Hashed(file);
    var actual := ComputeChecksum(header, HEADER_BYTES, OFFSET_BASIS);
    assert actual == Checksum(file[..32] + ZEROS, OFFSET_BASIS);
    assert instructions[..size] == file[HEADER_BYTES..];
    actual := ComputeChecksum(instructions, size, actual);
    assert actual == Checksum(file[HEADER_BYTES..], Checksum(file[..32] + ZEROS, OFFSET_BASIS));
    ChecksumAppend(file[..32] + ZEROS, file[HEADER_BYTES..], OFFSET_BASIS);
    assert actual == Checksum(Hashed(file), OFFSET_BASIS);
    holds := actual == expected;
  }

  // -------------------------------------------------- corruption is detected

  lemma SplitThree(a: seq<byte>, low: nat, high: nat)
    requires low <= high <= |a|
    ensures a == a[..low] + a[low..high] + a[high..]
  {
  }

  lemma DifferBetween(a: seq<byte>, b: seq<byte>, low: nat, high: nat)
    requires |a| == |b| && low <= high <= |a| && a != b
    requires a[..low] == b[..low] && a[high..] == b[high..]
    ensures a[low..high] != b[low..high]
  {
    SplitThree(a, low, high);
    SplitThree(b, low, high);
  }

  /** Any change within the checksum's field is detected: the field does not enter the checksum. */
  lemma ChecksumFieldCorruption(file: seq<byte>, arch: bv32, bad: seq<byte>)
    requires Accepted(file, arch) && |bad| == |file| && bad != file
    requires bad[..32] == file[..32] && bad[40..] == file[40..]
    ensures !Accepted(bad, arch)
  {
    DifferBetween(bad, file, 32, 40);
    if Accepted(bad, arch) {
      Read64Injective(bad[32..40], file[32..40]);
    }
  }

  /** A policy with any one byte changed is refused, whatever its size and wherever the byte is. */
  lemma SingleByteCorruptionDetected(file: seq<byte>, arch: bv32, k: nat, b: byte)
    requires Accepted(file, arch) && k < |file| && b != file[k]
    ensures !Accepted(file[k := b], arch)
  {
    var bad := file[k := b];
    if 32 <= k < 40 {
      assert bad[..32] == file[..32] && bad[40..] == file[40..];
      assert bad[k] != file[k];
      ChecksumFieldCorruption(file, arch, bad);
    } else {
      assert bad[32..40] == file[32..40];
      assert Hashed(file)[k] == file[k];
      assert Hashed(bad) == Hashed(file)[k := b];
      ChecksumSeesOneByte(Hashed(file), k, b, OFFSET_BASIS);
    }
  }

  // ------------------------------------------------- limits on interruptions

  /** So many interruptions, and then everything at once. */
  function InterruptedFirst(n: nat, most: nat): Calls
  {
    (call: nat) => if call < n then Interrupted else Delivers(most)
  }

  lemma {:induction false} CountInterrupted(n: nat, most: nat, m: nat)
    ensures Interruptions(InterruptedFirst(n, most), m) == Min(m, n)
    ensures Offered(InterruptedFirst(n, most), m) == if m <= n then 0 else (m - n) * most
    decreases m
  {
    if m > 0 {
      CountInterrupted(n, most, m - 1);
    }
  }

  /** A read survives eight interruptions and not nine, however little each of its calls delivers. */
  lemma EightInterruptions(n: nat, most: nat, size: nat)
    requires size > 0 && most > 0
    ensures Delivered(InterruptedFirst(n, most), size) <==> n <= 8
  {
    var calls := InterruptedFirst(n, most);
    if n <= 8 {
      CountInterrupted(n, most, n + size);
      assert size * most >= size;
      assert Clean(calls, n + size) && Interruptions(calls, n + size) <= 8 && Offered(calls, n + size) >= size;
    }
    forall m: nat | Clean(calls, m) && Interruptions(calls, m) <= 8 && Offered(calls, m) >= size ensures n <= 8 {
      CountInterrupted(n, most, m);
    }
  }

  /** A reply survives seven interruptions and not eight, and only as one write of 24 bytes. */
  lemma EightAttempts(n: nat, count: nat)
    ensures Written((call: nat) => if call < n then WriteInterrupted else Wrote(count)) <==> n < 8 && count == 24
  {
    var writes: nat -> Write := (call: nat) => if call < n then WriteInterrupted else Wrote(count);
    if n < 8 && count == 24 {
      assert writes(n) == Wrote(24);
    }
    forall m: nat | m < WRITE_ATTEMPTS && writes(m) == Wrote(REPLY_BYTES)
      && forall k: nat :: k < m ==> writes(k).WriteInterrupted?
      ensures m == n
    {
      assert n < m ==> writes(n).WriteInterrupted?;
    }
  }
}
