/** The load balancer (LB) header and the version 2 reassembly (RE) header. */
module Headers {
  import opened Bytes

  const LB_HEADER_BYTES: nat := 16
  const RE_HEADER_BYTES: nat := 20
  const HEADER_BYTES: nat := 36

  datatype LbHeader = LbHeader(version: byte, protocol: byte, entropy: u16, tick: u64)
  datatype ReHeader = ReHeader(version: int, dataId: u16, offset: u32, length: u32, tick: u64)

  datatype Option<T> = None | Some(value: T)

  /** The 16 bytes written by setLbMetadata; the three int arguments are truncated. */
  function SetLbMetadata(tick: u64, version: int, protocol: int, entropy: int): (s: seq<byte>)
    ensures |s| == LB_HEADER_BYTES
  {
    ['L' as int, 'B' as int, version % 256, protocol % 256, 0, 0]
    + ToBigEndian(entropy % 0x1_0000, 2) + ToBigEndian(tick, 8)
  }

  /** parseLbHeader, with None for the exception it throws. */
  function ParseLbHeader(s: seq<byte>): (r: Option<LbHeader>)
    requires |s| >= LB_HEADER_BYTES
  {
    if s[0] != 'L' as int || s[1] != 'B' as int then None
    else
      RadixValues();
      ToFromBigEndian(s[6..8]);
      ToFromBigEndian(s[8..16]);
      Some(LbHeader(s[2], s[3], FromBigEndian(s[6..8]), FromBigEndian(s[8..16])))
  }

  /** The 20 bytes written by setReMetadata. Four bits of the version survive. */
  function SetReMetadata(h: ReHeader, reserved: int): (s: seq<byte>)
    ensures |s| == RE_HEADER_BYTES
  {
    [h.version * 16 % 256, reserved % 256] + ToBigEndian(h.dataId, 2) + ToBigEndian(h.offset, 4)
    + ToBigEndian(h.length, 4) + ToBigEndian(h.tick, 8)
  }

  function ParseReHeader(s: seq<byte>): (h: ReHeader)
    requires |s| >= RE_HEADER_BYTES
  {
    RadixValues();
    ToFromBigEndian(s[2..4]);
    ToFromBigEndian(s[4..8]);
    ToFromBigEndian(s[8..12]);
    ToFromBigEndian(s[12..20]);
    ReHeader(s[0] / 16, FromBigEndian(s[2..4]), FromBigEndian(s[4..8]),
             FromBigEndian(s[8..12]), FromBigEndian(s[12..20]))
  }

  /** Whatever follows the header, parsing gives back what was set, up to the version's width. */
  lemma ParseSetRe(h: ReHeader, reserved: int, rest: seq<byte>)
    ensures ParseReHeader(SetReMetadata(h, reserved) + rest) == h.(version := h.version % 16)
  {
    RadixValues();
    FromToBigEndian(h.dataId, 2);
    FromToBigEndian(h.offset, 4);
    FromToBigEndian(h.length, 4);
    FromToBigEndian(h.tick, 8);
    Parts([h.version * 16 % 256, reserved % 256], ToBigEndian(h.dataId, 2), ToBigEndian(h.offset, 4),
          ToBigEndian(h.length, 4), ToBigEndian(h.tick, 8), rest);
    Nibble(h.version);
  }

  /** Four bits survive being shifted into the upper half of a byte and back. */
  lemma Nibble(v: int)
    ensures v * 16 % 256 / 16 == v % 16
  {
    var q, r := v / 16, v % 16;
    assert v * 16 == 256 * q + 16 * r;
    assert v * 16 % 256 == 16 * r;
  }

  /** Where the fields of a reassembly header are. */
  lemma Parts(a: seq<byte>, b: seq<byte>, c: seq<byte>, d: seq<byte>, e: seq<byte>, rest: seq<byte>)
    requires |a| == 2 && |b| == 2 && |c| == 4 && |d| == 4 && |e| == 8
    ensures var s := a + b + c + d + e + rest;
      s[..2] == a && s[2..4] == b && s[4..8] == c && s[8..12] == d && s[12..20] == e
  {
    var s := a + b + c + d + e + rest;
    var ab, cd := a + b, c + d;
    assert s == ab + cd + e + rest;
    assert s[..4] == ab && s[4..12] == cd && s[12..20] == e;
    assert s[..2] == ab[..2] == a && s[2..4] == ab[2..] == b;
    assert s[4..8] == cd[..4] == c && s[8..12] == cd[4..] == d;
  }

  /** Parsing loses nothing but the low nibble of the first byte and the reserved byte. */
  lemma SetParseRe(s: seq<byte>, reserved: int)
    requires |s| == RE_HEADER_BYTES
    ensures SetReMetadata(ParseReHeader(s), reserved) == s <==> s[0] % 16 == 0 && s[1] == reserved % 256
  {
    ToFromBigEndian(s[2..4]);
    ToFromBigEndian(s[4..8]);
    ToFromBigEndian(s[8..12]);
    ToFromBigEndian(s[12..20]);
    var t := SetReMetadata(ParseReHeader(s), reserved);
    assert t[2..] == s[2..4] + s[4..8] + s[8..12] + s[12..20] == s[2..];
    assert t == t[..2] + t[2..] && s == s[..2] + s[2..];
    assert t[0] == s[0] / 16 * 16;
  }

  lemma ParseSetLb(tick: u64, version: int, protocol: int, entropy: int, rest: seq<byte>)
    ensures ParseLbHeader(SetLbMetadata(tick, version, protocol, entropy) + rest)
         == Some(LbHeader(version % 256, protocol % 256, entropy % 0x1_0000, tick))
  {
    var s := SetLbMetadata(tick, version, protocol, entropy) + rest;
    RadixValues();
    FromToBigEndian(entropy % 0x1_0000, 2);
    FromToBigEndian(tick, 8);
    assert s[6..8] == ToBigEndian(entropy % 0x1_0000, 2);
    assert s[8..16] == ToBigEndian(tick, 8);
  }

  // ------------------------------------------------------------------ The layout on the wire

  /** The number in two bytes from position i on, most significant first. */
  function Word16(s: seq<byte>, i: nat): (n: nat)
    requires i + 2 <= |s|
  {
    0x100 * s[i] as nat + s[i + 1]
  }

  function Word32(s: seq<byte>, i: nat): (n: nat)
    requires i + 4 <= |s|
  {
    0x100_0000 * s[i] as nat + 0x1_0000 * s[i + 1] as nat + 0x100 * s[i + 2] as nat + s[i + 3]
  }

  function Word64(s: seq<byte>, i: nat): (n: nat)
    requires i + 8 <= |s|
  {
    0x1_0000_0000 * Word32(s, i) + Word32(s, i + 4)
  }

  lemma Word16Value(s: seq<byte>, i: nat)
    requires i + 2 <= |s|
    ensures FromBigEndian(s[i..i + 2]) == Word16(s, i)
  {
    var t := s[i..i + 2];
    assert t[..1] == [s[i]] && t[..1][..0] == [];
    assert FromBigEndian(t[..1]) == s[i];
  }

  lemma Word32Value(s: seq<byte>, i: nat)
    requires i + 4 <= |s|
    ensures FromBigEndian(s[i..i + 4]) == Word32(s, i)
  {
    SliceConcat(s, i, i + 2, i + 4);
    ConcatValue(s[i..i + 2], s[i + 2..i + 4]);
    Word16Value(s, i);
    Word16Value(s, i + 2);
    RadixValues();
  }

  lemma {:induction false} ConcatValue(a: seq<byte>, b: seq<byte>)
    ensures FromBigEndian(a + b) == FromBigEndian(a) * Radix(|b|) + FromBigEndian(b)
    decreases |b|
  {
    if b == [] {
      assert a + b == a;
    } else {
      var n := |b| - 1;
      ConcatValue(a, b[..n]);
      assert (a + b)[..|a + b| - 1] == a + b[..n];
      assert FromBigEndian(a) * Radix(n) * 256 == FromBigEndian(a) * Radix(|b|);
    }
  }

  lemma Word64Value(s: seq<byte>, i: nat)
    requires i + 8 <= |s|
    ensures FromBigEndian(s[i..i + 8]) == Word64(s, i)
  {
    SliceConcat(s, i, i + 4, i + 8);
    ConcatValue(s[i..i + 4], s[i + 4..i + 8]);
    Word32Value(s, i);
    Word32Value(s, i + 4);
    RadixValues();
  }

  /** Where parseReHeader finds the fields, whatever the bytes are. */
  lemma ReFieldsAt(s: seq<byte>)
    requires |s| >= RE_HEADER_BYTES
    ensures var h := ParseReHeader(s);
      && h.version == s[0] / 16 && h.dataId == Word16(s, 2)
      && h.offset == Word32(s, 4) && h.length == Word32(s, 8) && h.tick == Word64(s, 12)
  {
    Word16Value(s, 2);
    Word32Value(s, 4);
    Word32Value(s, 8);
    Word64Value(s, 12);
  }

  /** Where parseLbHeader finds the fields, and exactly which headers it refuses: those without 'L' and 'B'. */
  lemma LbFieldsAt(s: seq<byte>)
    requires |s| >= LB_HEADER_BYTES
    ensures var r := ParseLbHeader(s);
      && (r.None? <==> s[0] != 76 || s[1] != 66)
      && (r.Some? ==> r.value.version == s[2] && r.value.protocol == s[3]
                      && r.value.entropy == Word16(s, 6) && r.value.tick == Word64(s, 8))
  {
    Word16Value(s, 6);
    Word64Value(s, 8);
  }

  /** The two bytes from position i on are n, most significant first. */
  predicate TwoAt(s: seq<byte>, i: nat, n: u16)
    requires i + 2 <= |s|
  {
    s[i] == n / 0x100 && s[i + 1] == n % 0x100
  }

  predicate FourAt(s: seq<byte>, i: nat, n: u32)
    requires i + 4 <= |s|
  {
    s[i] == n / 0x100_0000 && s[i + 1] == n / 0x1_0000 % 0x100 && s[i + 2] == n / 0x100 % 0x100 && s[i + 3] == n % 0x100
  }

  predicate EightAt(s: seq<byte>, i: nat, n: u64)
    requires i + 8 <= |s|
  {
    FourAt(s, i, n / 0x1_0000_0000) && FourAt(s, i + 4, n % 0x1_0000_0000)
  }

  lemma TwoBytes(n: u16)
    ensures TwoAt(ToBigEndian(n, 2), 0, n)
  {
    RadixValues();
    FromToBigEndian(n, 2);
    var t := ToBigEndian(n, 2);
    assert t[0..2] == t;
    Word16Value(t, 0);
  }

  lemma Word32Bytes(s: seq<byte>, i: nat)
    requires i + 4 <= |s|
    ensures Word32(s, i) < 0x1_0000_0000 && FourAt(s, i, Word32(s, i))
  {
    ByteOf(Word32(s, i), s[i], s[i + 1], s[i + 2], s[i + 3]);
  }

  lemma ByteOf(n: int, a: byte, b: byte, c: byte, d: byte)
    requires n == 0x100_0000 * a as nat + 0x1_0000 * b as nat + 0x100 * c as nat + d
    ensures n / 0x100_0000 == a && n / 0x1_0000 % 0x100 == b && n / 0x100 % 0x100 == c && n % 0x100 == d
  {
    var ab := 0x100 * a as nat + b;
    var abc := 0x100 * ab + c;
    assert n == 0x100 * abc + d;
    assert n == 0x1_0000 * ab + (0x100 * c as nat + d);
    assert n / 0x100 == abc && n / 0x1_0000 == ab;
  }

  lemma FourBytes(n: u32)
    ensures FourAt(ToBigEndian(n, 4), 0, n)
  {
    var t := ToBigEndian(n, 4);
    RadixValues();
    FromToBigEndian(n, 4);
    assert t[0..4] == t;
    Word32Value(t, 0);
    Word32Bytes(t, 0);
  }

  lemma EightBytes(n: u64)
    ensures EightAt(ToBigEndian(n, 8), 0, n)
  {
    var t := ToBigEndian(n, 8);
    RadixValues();
    FromToBigEndian(n, 8);
    assert t[0..8] == t;
    Word64Value(t, 0);
    Word32Bytes(t, 0);
    Word32Bytes(t, 4);
  }

  /** Every byte that setReMetadata writes. */
  lemma ReBytes(h: ReHeader, reserved: int)
    ensures var s := SetReMetadata(h, reserved);
      && s[0] == h.version % 16 * 16 && s[1] == reserved % 256 && TwoAt(s, 2, h.dataId)
      && FourAt(s, 4, h.offset) && FourAt(s, 8, h.length) && EightAt(s, 12, h.tick)
  {
    TwoBytes(h.dataId);
    FourBytes(h.offset);
    FourBytes(h.length);
    EightBytes(h.tick);
    Nibble(h.version);
  }

  /** Every byte that setLbMetadata writes: 'L', 'B', and two reserved bytes that are 0. */
  lemma LbBytes(tick: u64, version: int, protocol: int, entropy: int)
    ensures var s := SetLbMetadata(tick, version, protocol, entropy);
      && s[0] == 76 && s[1] == 66 && s[2] == version % 0x100 && s[3] == protocol % 0x100 && s[4] == 0 && s[5] == 0
      && TwoAt(s, 6, entropy % 0x1_0000) && EightAt(s, 8, tick)
  {
    TwoBytes(entropy % 0x1_0000);
    EightBytes(tick);
  }
}
