/**
 The launcher's side of the policy protocol (`services/sandbox/wire.rs`): it encodes a filter into the
 file that the loader reads, and decodes the acknowledgment that comes back behind a status from the
 filesystem sandbox. The two sides agree.
 */
module PolicyWire {
  import opened Options
  import opened PolicyLoader

  /** One instruction of a filter. */
  datatype Instruction = Instruction(code: bv16, jt: byte, jf: byte, k: bv32)

  datatype Enforcement = NoEnforcement | Partial | Full

  const ENFORCEMENT_MAGIC: seq<byte> := [0x44, 0x55, 0x53, 0x4b, 0x46, 0x53, 0x30, 0x31]

  // ----------------------------------------------------- little-endian bytes

  function Bytes16(x: bv16): seq<byte>
  {
    [(x & 0xff) as byte, (x >> 8) as byte]
  }

  function Bytes32(x: bv32): (b: seq<byte>)
    ensures |b| == 4
  {
    [(x & 0xff) as byte, ((x >> 8) & 0xff) as byte, ((x >> 16) & 0xff) as byte, (x >> 24) as byte]
  }

  function Bytes64(x: bv64): (b: seq<byte>)
    ensures |b| == 8
  {
    Bytes32((x & 0xffff_ffff) as bv32) + Bytes32((x >> 32) as bv32)
  }

  lemma Bytes32Read(x: bv32)
    ensures Read32(Bytes32(x)) == x
  {
  }

  lemma HalvesJoin(x: bv64)
    ensures ((x & 0xffff_ffff) as bv32 as bv64) | (((x >> 32) as bv32 as bv64) << 32) == x
  {
  }

  lemma Bytes64Read(x: bv64)
    ensures Read64(Bytes64(x)) == x
  {
    var low, high := (x & 0xffff_ffff) as bv32, (x >> 32) as bv32;
    assert Bytes64(x)[..4] == Bytes32(low) && Bytes64(x)[4..] == Bytes32(high);
    Bytes32Read(low);
    Bytes32Read(high);
    HalvesJoin(x);
  }

  lemma NextWord(c: bv32)
    requires c as nat < MAX_INSTRUCTIONS
    ensures (c + 1) as nat == c as nat + 1
  {
    SmallWord(c);
    Successor(c);
  }

  lemma SmallWord(c: bv32)
    requires c as nat < 4096
    ensures c <= 4096
  {
  }

  lemma Successor(c: bv32)
    requires c <= 4096
    ensures (c + 1) as nat == c as nat + 1
  {
  }

  /** A number of instructions as a 32-bit word. */
  function CountWord(n: nat): (c: bv32)
    requires n <= MAX_INSTRUCTIONS
    ensures c as nat == n
  {
    if n == 0 then 0 else Next(CountWord(n - 1))
  }

  function Next(c: bv32): (r: bv32)
    requires c as nat < MAX_INSTRUCTIONS
    ensures r as nat == c as nat + 1
  {
    NextWord(c);
    c + 1
  }

  // ------------------------------------------------------------- encoding

  function InstructionBytes(i: Instruction): (b: seq<byte>)
    ensures |b| == INSTRUCTION_BYTES
  {
    Bytes16(i.code) + [i.jt, i.jf] + Bytes32(i.k)
  }

  function Body(filter: seq<Instruction>): (b: seq<byte>)
    ensures |b| == |filter| * INSTRUCTION_BYTES
    decreases |filter|
  {
    if filter == [] then []
    else Body(filter[..|filter| - 1]) + InstructionBytes(filter[|filter| - 1])
  }

  /** The header up to the checksum's field. */
  function Front(count: bv32, nonce: bv64, arch: bv32): (b: seq<byte>)
    ensures |b| == 32
  {
    MAGIC + Bytes32(1) + Bytes32(arch) + Bytes32(count) + Bytes32(0) + Bytes64(nonce)
  }

  /** The policy file for a filter; none when the filter is empty or too long. */
  function Encode(filter: seq<Instruction>, nonce: bv64, arch: bv32): Option<seq<byte>>
  {
    if filter == [] || |filter| > MAX_INSTRUCTIONS then None
    else
      var front := Front(CountWord(|filter|), nonce, arch);
      var hash := Checksum(front + ZEROS + Body(filter), OFFSET_BASIS);
      Some(front + Bytes64(hash) + Body(filter))
  }

  lemma SixParts(a: seq<byte>, b: seq<byte>, c: seq<byte>, d: seq<byte>, e: seq<byte>, f: seq<byte>, all: seq<byte>)
    requires all == a + b + c + d + e + f
    requires |a| == |f| == 8 && |b| == |c| == |d| == |e| == 4
    ensures |all| == 32 && all[..8] == a && all[8..12] == b && all[12..16] == c
    ensures all[16..20] == d && all[20..24] == e && all[24..32] == f
  {
  }

  lemma SliceOfSlice(s: seq<byte>, n: nat, low: nat, high: nat)
    requires low <= high <= n <= |s|
    ensures s[..n][low..high] == s[low..high]
  {
  }

  lemma FrontSlices(front: seq<byte>, header: seq<byte>)
    requires |header| == HEADER_BYTES && header[..32] == front
    ensures header[..8] == front[..8] && header[8..12] == front[8..12] && header[12..16] == front[12..16]
    ensures header[16..20] == front[16..20] && header[20..24] == front[20..24]
  {
    SliceOfSlice(header, 32, 0, 8);
    SliceOfSlice(header, 32, 8, 12);
    SliceOfSlice(header, 32, 12, 16);
    SliceOfSlice(header, 32, 16, 20);
    SliceOfSlice(header, 32, 20, 24);
  }

  lemma FrontFields(count: bv32, nonce: bv64, arch: bv32, header: seq<byte>)
    requires |header| == HEADER_BYTES && header[..32] == Front(count, nonce, arch)
    ensures header[..8] == MAGIC && Read32(header[8..12]) == 1 && Read32(header[12..16]) == arch
    ensures Read32(header[16..20]) == count && Read32(header[20..24]) == 0
  {
    var front := Front(count, nonce, arch);
    SixParts(MAGIC, Bytes32(1), Bytes32(arch), Bytes32(count), Bytes32(0), Bytes64(nonce), front);
    FrontSlices(front, header);
    Bytes32Read(1);
    Bytes32Read(arch);
    Bytes32Read(count);
    Bytes32Read(0);
  }

  lemma Layout(front: seq<byte>, field: seq<byte>, body: seq<byte>, file: seq<byte>)
    requires |front| == 32 && |field| == 8 && file == front + field + body
    ensures file[..HEADER_BYTES][..32] == front && file[32..40] == field && file[HEADER_BYTES..] == body
    ensures file[..32] == front && Hashed(file) == front + ZEROS + body
  {
  }

  lemma PartsAccepted(count: bv32, nonce: bv64, arch: bv32, body: seq<byte>, file: seq<byte>)
    requires 1 <= count as nat <= MAX_INSTRUCTIONS && |body| == count as nat * INSTRUCTION_BYTES
    requires file == Front(count, nonce, arch)
                     + Bytes64(Checksum(Front(count, nonce, arch) + ZEROS + body, OFFSET_BASIS)) + body
    ensures Accepted(file, arch)
  {
    var front := Front(count, nonce, arch);
    var hash := Checksum(front + ZEROS + body, OFFSET_BASIS);
    Layout(front, Bytes64(hash), body, file);
    FrontFields(count, nonce, arch, file[..HEADER_BYTES]);
    Bytes64Read(hash);
  }

  /** The loader accepts every policy that the launcher encodes. */
  lemma EncodedIsAccepted(filter: seq<Instruction>, nonce: bv64, arch: bv32)
    ensures Encode(filter, nonce, arch).Some? <==> 1 <= |filter| <= 4096
    ensures Encode(filter, nonce, arch).Some? ==> Accepted(Encode(filter, nonce, arch).value, arch)
  {
    if 1 <= |filter| <= MAX_INSTRUCTIONS {
      PartsAccepted(CountWord(|filter|), nonce, arch, Body(filter), Encode(filter, nonce, arch).value);
    }
  }

  /** Nothing of the filter is lost on the way: different filters give different bytes. */
  lemma {:induction false} BodyInjective(a: seq<Instruction>, b: seq<Instruction>)
    requires Body(a) == Body(b)
    ensures a == b
    decreases |a|
  {
    assert |a| == |b|;
    if a != [] {
      var m := |a| - 1;
      var x, y := a[m], b[m];
      assert Body(a)[..m * INSTRUCTION_BYTES] == Body(a[..m]) && Body(b)[..m * INSTRUCTION_BYTES] == Body(b[..m]);
      assert Body(a)[m * INSTRUCTION_BYTES..] == InstructionBytes(x)
             && Body(b)[m * INSTRUCTION_BYTES..] == InstructionBytes(y);
      BodyInjective(a[..m], b[..m]);
      InstructionInjective(x, y);
      assert a == a[..m] + [x] && b == b[..m] + [y];
    }
  }

  lemma Bytes16Injective(x: bv16, y: bv16)
    requires Bytes16(x) == Bytes16(y)
    ensures x == y
  {
    assert Bytes16(x)[0] == Bytes16(y)[0] && Bytes16(x)[1] == Bytes16(y)[1];
    HalvesDetermine(x, y);
  }

  lemma HalvesDetermine(x: bv16, y: bv16)
    requires (x & 0xff) as byte == (y & 0xff) as byte && (x >> 8) as byte == (y >> 8) as byte
    ensures x == y
  {
  }

  lemma InstructionInjective(x: Instruction, y: Instruction)
    requires InstructionBytes(x) == InstructionBytes(y)
    ensures x == y
  {
    var b, c := InstructionBytes(x), InstructionBytes(y);
    assert b[..2] == Bytes16(x.code) && c[..2] == Bytes16(y.code);
    assert b[2] == x.jt && b[3] == x.jf && c[2] == y.jt && c[3] == y.jf;
    assert b[4..] == Bytes32(x.k) && c[4..] == Bytes32(y.k);
    Bytes16Injective(x.code, y.code);
    Bytes32Read(x.k);
    Bytes32Read(y.k);
  }

  // -------------------------------------------------------- acknowledgment

  /** The status in front of the loader's reply, then the reply, checked field by field. */
  function DecodeAck(bytes: seq<byte>, nonce: bv64, arch: bv32): Option<Enforcement>
    requires |bytes| == 40
  {
    if || bytes[..8] != ENFORCEMENT_MAGIC || bytes[9] != 1 || bytes[10..16] != [0, 0, 0, 0, 0, 0]
       || bytes[16..24] != ACK_MAGIC || bytes[24..32] != Bytes64(nonce) || bytes[32..36] != Bytes32(arch)
       || bytes[36..40] != [1, 0, 0, 0]
    then None
    else if bytes[8] == 0 then Some(NoEnforcement)
    else if bytes[8] == 1 then Some(Partial)
    else if bytes[8] == 2 then Some(Full)
    else None
  }

  /** The sixteen bytes in front of the reply. */
  function StatusBytes(status: byte): (b: seq<byte>)
    ensures |b| == 16
  {
    ENFORCEMENT_MAGIC + [status, 1, 0, 0, 0, 0, 0, 0]
  }

  /**
   The launcher recognizes the loader's reply to its own policy exactly when it expects the nonce and
   the architecture that it encoded, and the status is one it knows.
   */
  lemma ReplyIsRecognized(filter: seq<Instruction>, nonce: bv64, arch: bv32, file: seq<byte>, status: byte,
                          expectedNonce: bv64, expectedArch: bv32)
    requires Encode(filter, nonce, arch) == Some(file)
    ensures |file| >= HEADER_BYTES && |Acknowledgment(file)| == 24
    ensures DecodeAck(StatusBytes(status) + Acknowledgment(file), expectedNonce, expectedArch).Some?
       <==> expectedNonce == nonce && expectedArch == arch && status <= 2
  {
    ReplyEchoes(filter, nonce, arch, file);
    AckDecoded(status, Bytes64(nonce), Bytes32(arch), expectedNonce, expectedArch);
    BytesDiffer(nonce, arch, expectedNonce, expectedArch);
  }

  lemma ReplyEchoes(filter: seq<Instruction>, nonce: bv64, arch: bv32, file: seq<byte>)
    requires Encode(filter, nonce, arch) == Some(file)
    ensures |file| >= HEADER_BYTES && Acknowledgment(file) == ACK_MAGIC + Bytes64(nonce) + Bytes32(arch) + [1, 0, 0, 0]
  {
    var count := CountWord(|filter|);
    var front := Front(count, nonce, arch);
    var hash := Checksum(front + ZEROS + Body(filter), OFFSET_BASIS);
    Layout(front, Bytes64(hash), Body(filter), file);
    SixParts(MAGIC, Bytes32(1), Bytes32(arch), Bytes32(count), Bytes32(0), Bytes64(nonce), front);
    SliceOfSlice(file, 32, 24, 32);
    SliceOfSlice(file, 32, 12, 16);
  }

  lemma BytesDiffer(nonce: bv64, arch: bv32, otherNonce: bv64, otherArch: bv32)
    ensures Bytes64(otherNonce) == Bytes64(nonce) <==> otherNonce == nonce
    ensures Bytes32(otherArch) == Bytes32(arch) <==> otherArch == arch
  {
    Bytes64Read(nonce);
    Bytes64Read(otherNonce);
    Bytes32Read(arch);
    Bytes32Read(otherArch);
  }

  lemma KnownStatus(status: byte)
    ensures status <= 2 <==> status == 0 || status == 1 || status == 2
  {
  }

  lemma AckDecoded(status: byte, nonce: seq<byte>, arch: seq<byte>, expectedNonce: bv64, expectedArch: bv32)
    requires |nonce| == 8 && |arch| == 4
    ensures DecodeAck(StatusBytes(status) + (ACK_MAGIC + nonce + arch + [1, 0, 0, 0]), expectedNonce,
                      expectedArch).Some?
       <==> Bytes64(expectedNonce) == nonce && Bytes32(expectedArch) == arch && status <= 2
  {
    AckFields(status, nonce, arch);
    KnownStatus(status);
  }

  lemma AckFields(status: byte, nonce: seq<byte>, arch: seq<byte>)
    requires |nonce| == 8 && |arch| == 4
    ensures var bytes := StatusBytes(status) + (ACK_MAGIC + nonce + arch + [1, 0, 0, 0]);
            && |bytes| == 40 && bytes[..8] == ENFORCEMENT_MAGIC && bytes[8] == status && bytes[9] == 1
            && bytes[10..16] == [0, 0, 0, 0, 0, 0] && bytes[16..24] == ACK_MAGIC
            && bytes[24..32] == nonce && bytes[32..36] == arch && bytes[36..40] == [1, 0, 0, 0]
  {
  }

  // -------------------------------------------- exactly what is encoded

  function Word16(b0: byte, b1: byte): bv16
  {
    (b0 as bv16) | ((b1 as bv16) << 8)
  }

  lemma Word16Bytes(b0: byte, b1: byte)
    ensures Bytes16(Word16(b0, b1)) == [b0, b1]
  {
  }

  lemma WordBytes(b0: byte, b1: byte, b2: byte, b3: byte)
    ensures Bytes32(Word(b0, b1, b2, b3)) == [b0, b1, b2, b3]
  {
  }

  lemma Read32Bytes(b: seq<byte>)
    requires |b| == 4
    ensures Bytes32(Read32(b)) == b
  {
    WordBytes(b[0], b[1], b[2], b[3]);
  }

  lemma JoinHalves(low: bv32, high: bv32)
    ensures (((low as bv64) | ((high as bv64) << 32)) & 0xffff_ffff) as bv32 == low
    ensures (((low as bv64) | ((high as bv64) << 32)) >> 32) as bv32 == high
  {
  }

  lemma Read64Bytes(b: seq<byte>)
    requires |b| == 8
    ensures Bytes64(Read64(b)) == b
  {
    JoinHalves(Read32(b[..4]), Read32(b[4..]));
    Read32Bytes(b[..4]);
    Read32Bytes(b[4..]);
    assert b == b[..4] + b[4..];
  }

  function InstructionOf(b: seq<byte>): Instruction
    requires |b| == INSTRUCTION_BYTES
  {
    Instruction(Word16(b[0], b[1]), b[2], b[3], Read32(b[4..]))
  }

  lemma InstructionOfBytes(b: seq<byte>)
    requires |b| == INSTRUCTION_BYTES
    ensures InstructionBytes(InstructionOf(b)) == b
  {
    Word16Bytes(b[0], b[1]);
    Read32Bytes(b[4..]);
    assert b == [b[0], b[1]] + [b[2], b[3]] + b[4..];
  }

  /** Any run of so many instructions' bytes is the body of a filter. */
  lemma {:induction false} BodyOf(b: seq<byte>, n: nat) returns (filter: seq<Instruction>)
    requires |b| == n * INSTRUCTION_BYTES
    ensures |filter| == n && Body(filter) == b
    decreases n
  {
    filter := [];
    if n > 0 {
      var at := (n - 1) * INSTRUCTION_BYTES;
      var front := BodyOf(b[..at], n - 1);
      var last := InstructionOf(b[at..]);
      InstructionOfBytes(b[at..]);
      filter := front + [last];
      assert filter[..n - 1] == front && b == b[..at] + b[at..];
    }
  }

  lemma Predecessor(c: bv32)
    requires 0 < c <= 4096
    ensures (c - 1) as nat + 1 == c as nat && c - 1 + 1 == c
  {
  }

  lemma SmallWordIsBounded(c: bv32)
    requires 1 <= c as nat <= 4096
    ensures 0 < c <= 4096
  {
  }

  lemma ZeroWord(c: bv32)
    requires c as nat == 0
    ensures c == 0
  {
  }

  lemma WordBefore(c: bv32, n: nat) returns (d: bv32)
    requires c as nat == n && 1 <= n <= MAX_INSTRUCTIONS
    ensures d as nat == n - 1 && d + 1 == c
  {
    SmallWordIsBounded(c);
    Predecessor(c);
    d := c - 1;
  }

  lemma CountWordStep(c: bv32, d: bv32, n: nat)
    requires 1 <= n <= MAX_INSTRUCTIONS && CountWord(n - 1) == d && d + 1 == c
    ensures CountWord(n) == c
  {
  }

  lemma CountWordZero(c: bv32)
    requires c as nat == 0
    ensures CountWord(0) == c
  {
    ZeroWord(c);
  }

  /** The word of a number is the only one with that value. */
  lemma {:induction false} CountWordUnique(c: bv32, n: nat)
    requires c as nat == n && n <= MAX_INSTRUCTIONS
    ensures CountWord(n) == c
    decreases n
  {
    if n == 0 {
      CountWordZero(c);
    } else {
      var d := WordBefore(c, n);
      CountWordUnique(d, n - 1);
      CountWordStep(c, d, n);
    }
  }

  lemma FrontOf(header: seq<byte>, arch: bv32)
    requires |header| == HEADER_BYTES && header[..8] == MAGIC && Read32(header[8..12]) == 1
    requires Read32(header[12..16]) == arch && Read32(header[20..24]) == 0
    ensures header[..32] == Front(Read32(header[16..20]), Read64(header[24..32]), arch)
  {
    Read32Bytes(header[8..12]);
    Read32Bytes(header[12..16]);
    Read32Bytes(header[16..20]);
    Read32Bytes(header[20..24]);
    Read64Bytes(header[24..32]);
    assert header[..32] == header[..8] + header[8..12] + header[12..16] + header[16..20] + header[20..24]
           + header[24..32];
  }

  lemma FileParts(file: seq<byte>)
    requires |file| >= HEADER_BYTES
    ensures file == file[..32] + file[32..40] + file[HEADER_BYTES..]
  {
  }

  lemma EncodeParts(filter: seq<Instruction>, front: seq<byte>, body: seq<byte>, field: seq<byte>, nonce: bv64,
                    arch: bv32)
    requires 1 <= |filter| <= MAX_INSTRUCTIONS
    requires front == Front(CountWord(|filter|), nonce, arch) && body == Body(filter)
    requires field == Bytes64(Checksum(front + ZEROS + body, OFFSET_BASIS))
    ensures Encode(filter, nonce, arch) == Some(front + field + body)
  {
  }

  lemma PartsEncoded(file: seq<byte>, filter: seq<Instruction>, count: bv32, nonce: bv64, arch: bv32)
    requires |file| >= HEADER_BYTES && 1 <= |filter| <= MAX_INSTRUCTIONS && CountWord(|filter|) == count
    requires file[..32] == Front(count, nonce, arch) && Body(filter) == file[HEADER_BYTES..]
    requires Checksum(Hashed(file), OFFSET_BASIS) == Read64(file[32..40])
    ensures Encode(filter, nonce, arch) == Some(file)
  {
    Read64Bytes(file[32..40]);
    FileParts(file);
    EncodeParts(filter, file[..32], file[HEADER_BYTES..], file[32..40], nonce, arch);
  }

  /** An accepted file is the encoding of some filter. */
  lemma AcceptedWasEncoded(file: seq<byte>, arch: bv32) returns (filter: seq<Instruction>, nonce: bv64)
    requires Accepted(file, arch)
    ensures Encode(filter, nonce, arch) == Some(file)
  {
    var header := file[..HEADER_BYTES];
    var count := Read32(header[16..20]);
    nonce := Read64(header[24..32]);
    FrontOf(header, arch);
    SliceOfSlice(file, HEADER_BYTES, 0, 32);
    filter := BodyOf(file[HEADER_BYTES..], count as nat);
    CountWordUnique(count, |filter|);
    PartsEncoded(file, filter, count, nonce, arch);
  }

  /** The loader accepts exactly what the launcher encodes for its architecture. */
  lemma AcceptedIsEncoded(file: seq<byte>, arch: bv32)
    ensures Accepted(file, arch) <==> exists filter, nonce :: Encode(filter, nonce, arch) == Some(file)
  {
    if Accepted(file, arch) {
      var filter, nonce := AcceptedWasEncoded(file, arch);
    }
    forall filter, nonce | Encode(filter, nonce, arch) == Some(file) ensures Accepted(file, arch) {
      EncodedIsAccepted(filter, nonce, arch);
    }
  }

  /** So a policy for one architecture is refused on every other. */
  lemma OneArchitecture(file: seq<byte>, a: bv32, b: bv32)
    requires Accepted(file, a) && Accepted(file, b)
    ensures a == b
  {
    var filter, nonce := AcceptedWasEncoded(file, a);
    var other, otherNonce := AcceptedWasEncoded(file, b);
    HeaderOf(filter, nonce, a, file);
    HeaderOf(other, otherNonce, b, file);
    Bytes32Read(a);
    Bytes32Read(b);
  }

  lemma HeaderOf(filter: seq<Instruction>, nonce: bv64, arch: bv32, file: seq<byte>)
    requires Encode(filter, nonce, arch) == Some(file)
    ensures |file| >= HEADER_BYTES && file[12..16] == Bytes32(arch) && file[24..32] == Bytes64(nonce)
    ensures file[..8] == [0x44, 0x55, 0x53, 0x4b, 0x53, 0x43, 0x30, 0x31] && file[8..12] == [1, 0, 0, 0]
    ensures file[20..24] == [0, 0, 0, 0] && 48 <= |file| == 40 + 8 * |filter| <= 32808
    ensures Read64(file[32..40]) == Checksum(file[..32] + [0, 0, 0, 0, 0, 0, 0, 0] + file[40..], 0xcbf29ce484222325)
  {
    var count := CountWord(|filter|);
    var front := Front(count, nonce, arch);
    var hash := Checksum(front + ZEROS + Body(filter), OFFSET_BASIS);
    Layout(front, Bytes64(hash), Body(filter), file);
    SixParts(MAGIC, Bytes32(1), Bytes32(arch), Bytes32(count), Bytes32(0), Bytes64(nonce), front);
    SliceOfSlice(file, 32, 0, 8);
    SliceOfSlice(file, 32, 8, 12);
    SliceOfSlice(file, 32, 12, 16);
    SliceOfSlice(file, 32, 20, 24);
    SliceOfSlice(file, 32, 24, 32);
    SmallBytes();
    Bytes64Read(hash);
  }

  lemma SmallBytes()
    ensures Bytes32(1) == [1, 0, 0, 0] && Bytes32(0) == [0, 0, 0, 0]
  {
  }
}
