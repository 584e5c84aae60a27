/** Identifier and length octets of the ASN.1 BER engine (X.690, sections 8.1.2 and 8.1.3):
    what prepare_*, encode_prepared_* and the decoders compute, octet by octet. */
module Asn1Octets {

  type byte = b: int | 0 <= b < 256

  datatype TagClass = Universal | Application | ContextSpecific | Private | ClassUnknown

  datatype Complexity = Primitive | Constructed | ComplexityUnknown

  datatype LengthType = DefiniteShort | DefiniteLong | Indefinite | LengthTypeUnknown

  const CHOICE := 0xff
  const SET := 0x11
  const UNKNOWN_UNIVERSAL_TAG := -1
  const ANY := -2

  /** One tag-length-value record.  `owner` ties a record to the one node that holds it. */
  class TLVNode {
    ghost var owner: object?
    var tagClass: TagClass
    var complexity: Complexity
    var lengthType: LengthType
    var unlimited: bool
    var uniTag: int
    var tagValue: int
    var tagValueSize: int
    var value: seq<byte>
    var valueLength: int
    var valueLengthSize: int
    var oldValueLength: int

    constructor ()
      ensures tagClass == ClassUnknown && complexity == ComplexityUnknown
      ensures lengthType == LengthTypeUnknown && !unlimited && value == []
      ensures uniTag == tagValue == UNKNOWN_UNIVERSAL_TAG
      ensures tagValueSize == valueLength == valueLengthSize == oldValueLength == 0
    {
      owner := null;
      tagClass, complexity, lengthType, unlimited := ClassUnknown, ComplexityUnknown, LengthTypeUnknown, false;
      uniTag, tagValue, value := UNKNOWN_UNIVERSAL_TAG, UNKNOWN_UNIVERSAL_TAG, [];
      tagValueSize, valueLength, valueLengthSize, oldValueLength := 0, 0, 0, 0;
    }
  }

  // ---------------------------------------------------------------- powers and bits

  function Pow2(k: nat): (p: nat)
    ensures p > k
  {
    if k == 0 then 1 else 2 * Pow2(k - 1)
  }

  function Pow256(k: nat): (p: nat)
    ensures p > 0
  {
    if k == 0 then 1 else 256 * Pow256(k - 1)
  }

  /** The source's ceil(log2(n + 1)): the least power of two above n. */
  function Bits(n: nat): (k: nat)
    ensures n < Pow2(k) && (k > 0 ==> Pow2(k - 1) <= n)
  {
    BitsFrom(n, 0)
  }

  function BitsFrom(n: nat, from: nat): (k: nat)
    requires from > 0 ==> Pow2(from - 1) <= n
    ensures n < Pow2(k) && (k > 0 ==> Pow2(k - 1) <= n)
    decreases n - from
  {
    if n < Pow2(from) then from else BitsFrom(n, from + 1)
  }

  /** The source's ceil((double)n / d). */
  function CeilDiv(n: int, d: nat): (q: nat)
    requires d > 0
    ensures n <= d * q && (n > 0 ==> d * (q - 1) < n) && (n <= 0 ==> q == 0)
    decreases if n > 0 then n else 0
  {
    if n <= 0 then 0 else 1 + CeilDiv(n - d, d)
  }

  lemma {:induction false} Pow2Monotone(a: nat, b: nat)
    requires a <= b
    ensures Pow2(a) <= Pow2(b)
  {
    if a < b {
      Pow2Monotone(a, b - 1);
    }
  }

  lemma Pow2Plus4(m: nat)
    ensures Pow2(m + 4) == 16 * Pow2(m)
  {
    assert Pow2(m + 4) == 2 * Pow2(m + 3) == 4 * Pow2(m + 2) == 8 * Pow2(m + 1);
  }

  lemma {:induction false} Pow2Of8(k: nat)
    ensures Pow2(8 * k) == Pow256(k)
  {
    if k > 0 {
      Pow2Of8(k - 1);
      Pow2Plus4(8 * k - 8);
      Pow2Plus4(8 * k - 4);
    }
  }

  // ---------------------------------------------------------------- big-endian octets

  function BigEndian(n: nat, k: nat): (s: seq<byte>)
    ensures |s| == k
  {
    if k == 0 then [] else BigEndian(n / 256, k - 1) + [n % 256]
  }

  function FromBigEndian(s: seq<byte>): nat {
    if s == [] then 0 else FromBigEndian(s[..|s| - 1]) * 256 + s[|s| - 1]
  }

  lemma {:induction false} BigEndianRoundTrip(n: nat, k: nat)
    requires n < Pow256(k)
    ensures FromBigEndian(BigEndian(n, k)) == n
  {
    if k > 0 {
      BigEndianRoundTrip(n / 256, k - 1);
      var s := BigEndian(n, k);
      assert s[..|s| - 1] == BigEndian(n / 256, k - 1);
    }
  }

  /** The C expression n >> (8 * m). */
  function Shr8(n: nat, m: nat): nat {
    if m == 0 then n else Shr8(n / 256, m - 1)
  }

  /** The octet the encoder's shift produces at position i is the one BigEndian puts there. */
  lemma {:induction false} BigEndianAt(n: nat, k: nat, i: nat)
    requires i < k
    ensures BigEndian(n, k)[i] == Shr8(n, k - i - 1) % 256
  {
    if i < k - 1 {
      BigEndianAt(n / 256, k - 1, i);
    }
  }

  /** `before` with `octets` written over it from position pos on. */
  function Patched(before: seq<byte>, pos: nat, octets: seq<byte>): (after: seq<byte>)
    requires pos + |octets| <= |before|
    ensures |after| == |before|
  {
    before[..pos] + octets + before[pos + |octets|..]
  }

  lemma OnePatched(before: seq<byte>, pos: nat, b: byte)
    requires pos < |before|
    ensures Patched(before, pos, [b]) == before[pos := b]
  {
  }

  lemma PatchedTwice(before: seq<byte>, pos: nat, a: seq<byte>, b: seq<byte>)
    requires pos + |a| + |b| <= |before|
    ensures Patched(Patched(before, pos, a), pos + |a|, b) == Patched(before, pos, a + b)
  {
  }

  // ---------------------------------------------------------------- length octets

  /** prepare_length: total octets of the length field (a negative length counts one). */
  function LengthSize(n: int): (k: int)
    ensures k >= 1
  {
    if n > 127 then CeilDiv(Bits(n), 8) + 1 else 1
  }

  /** The length field that encode_prepared_length writes for a prepared length. */
  function LengthOctets(n: nat): (s: seq<byte>)
    ensures |s| == LengthSize(n)
  {
    if n > 127 then
      var k := LengthSize(n) - 1;
      [0x80 + k % 128] + BigEndian(n, k)
    else [n]
  }

  /** The long form uses the fewest octets that can hold the length. */
  lemma LengthSizeMinimal(n: nat)
    requires n > 127
    ensures LengthSize(n) >= 2
    ensures n < Pow256(LengthSize(n) - 1)
    ensures Pow256(LengthSize(n) - 2) <= n
    ensures forall k: nat :: n < Pow256(k) ==> LengthSize(n) - 1 <= k
  {
    var k := CeilDiv(Bits(n), 8);
    Pow2Monotone(Bits(n), 8 * k);
    Pow2Of8(k);
    assert Bits(n) >= 1;
    Pow2Monotone(8 * (k - 1), Bits(n) - 1);
    Pow2Of8(k - 1);
    forall j: nat | n < Pow256(j) ensures k <= j {
      if j < k {
        Pow2Monotone(8 * j, 8 * (k - 1));
        Pow2Of8(j);
      }
    }
  }

  method PrepareLength(tlv: TLVNode)
    modifies tlv`valueLengthSize, tlv`lengthType
    ensures tlv.valueLengthSize == LengthSize(tlv.valueLength)
    ensures tlv.lengthType == if tlv.valueLength > 127 then DefiniteLong else DefiniteShort
  {
    if tlv.valueLength > 127 {
      var reqBits := Bits(tlv.valueLength);
      var reqBytes := CeilDiv(reqBits, 8);
      tlv.valueLengthSize := reqBytes + 1;
      tlv.lengthType := DefiniteLong;
    } else {
      tlv.valueLengthSize := 1;
      tlv.lengthType := DefiniteShort;
    }
  }

  /** The length loop of encode_prepared_length: k octets, most significant first. */
  method EncodeLengthBytes(buffer: array<byte>, data: nat, n: nat, k: nat)
    requires data + k <= buffer.Length
    modifies buffer
    ensures buffer[..] == Patched(old(buffer[..]), data, BigEndian(n, k))
  {
    ghost var before := buffer[..];
    for i := 0 to k
      invariant forall j :: 0 <= j < buffer.Length && !(data <= j < data + i) ==> buffer[j] == before[j]
      invariant forall j :: data <= j < data + i ==> buffer[j] == BigEndian(n, k)[j - data]
    {
      BigEndianAt(n, k, i);
      buffer[data + i] := Shr8(n, k - i - 1) % 256;
    }
  }

  lemma LengthOctetsAre(n: nat)
    requires n < 0x8000_0000
    ensures n <= 127 ==> LengthSize(n) == 1 && LengthOctets(n) == [n]
    ensures n > 127 ==>
              && 2 <= LengthSize(n) <= 5
              && LengthOctets(n) == [0x80 + (LengthSize(n) - 1)] + BigEndian(n, LengthSize(n) - 1)
  {
    hide BigEndian;
    if n > 127 {
      LengthSizeAtMost5(n);
    }
  }

  /** Writes the length field in place. */
  method EncodePreparedLength(buffer: array<byte>, pos: nat, tlv: TLVNode)
    requires 0 <= tlv.valueLength < 0x8000_0000 && tlv.valueLengthSize == LengthSize(tlv.valueLength)
    requires pos + tlv.valueLengthSize <= buffer.Length
    modifies buffer
    ensures buffer[..] == Patched(old(buffer[..]), pos, LengthOctets(tlv.valueLength))
  {
    hide Patched, LengthSize, LengthOctets, BigEndian;
    var n := tlv.valueLength;
    ghost var before := buffer[..];
    LengthOctetsAre(n);
    if n > 127 {
      var reqBytes := tlv.valueLengthSize - 1;
      buffer[pos] := 0x80 + reqBytes;
      OnePatched(before, pos, 0x80 + reqBytes);
      EncodeLengthBytes(buffer, pos + 1, n, reqBytes);
      PatchedTwice(before, pos, [0x80 + reqBytes], BigEndian(n, reqBytes));
    } else {
      buffer[pos] := n;
      OnePatched(before, pos, n);
    }
  }

  /** The length octets in numbers, for every length of an int: one octet up to 127, and otherwise the count of the
      octets that follow, most significant first. */
  lemma LengthOctetsInNumbers(n: nat)
    requires n < 0x8000_0000
    ensures LengthOctets(n) ==
            if n < 0x80 then [n]
            else if n < 0x100 then [0x81, n]
            else if n < 0x1_0000 then [0x82, n / 0x100, n % 0x100]
            else if n < 0x100_0000 then [0x83, n / 0x1_0000, n / 0x100 % 0x100, n % 0x100]
            else [0x84, n / 0x100_0000, n / 0x1_0000 % 0x100, n / 0x100 % 0x100, n % 0x100]
  {
    hide LengthOctets, LengthSize, BigEndian;
    LengthSizes(n);
    LengthOctetsAre(n);
    BigEndianInNumbers(n, n / 0x100, n / 0x1_0000, n / 0x100_0000);
  }

  lemma BigEndianInNumbers(n: nat, a: nat, b: nat, c: nat)
    requires a == n / 0x100 && b == a / 0x100 && c == b / 0x100
    ensures BigEndian(n, 1) == [n % 0x100] && BigEndian(n, 2) == [a % 0x100, n % 0x100]
    ensures BigEndian(n, 3) == [b % 0x100, a % 0x100, n % 0x100]
    ensures BigEndian(n, 4) == [c % 0x100, b % 0x100, a % 0x100, n % 0x100]
  {
    hide BigEndian;
    OneMore(n, 0);
    OneMore(n, 1);
    OneMore(n, 2);
    OneMore(n, 3);
    OneMore(a, 0);
    OneMore(a, 1);
    OneMore(a, 2);
    OneMore(b, 0);
    OneMore(b, 1);
    OneMore(c, 0);
  }

  lemma OneMore(n: nat, k: nat)
    ensures BigEndian(n, 0) == [] && BigEndian(n, k + 1) == BigEndian(n / 0x100, k) + [n % 0x100]
  {
  }

  lemma LengthSizes(n: nat)
    requires n < 0x8000_0000
    ensures LengthSize(n) == if n < 0x80 then 1 else if n < 0x100 then 2 else if n < 0x1_0000 then 3
                             else if n < 0x100_0000 then 4 else 5
  {
    if n >= 0x80 {
      hide LengthSize;
      LengthSizeMinimal(n);
      var k := LengthSize(n) - 1;
      assert Pow256(0) == 1 && Pow256(1) == 0x100 && Pow256(2) == 0x100 * Pow256(1) == 0x1_0000;
      assert Pow256(3) == 0x100 * Pow256(2) == 0x100_0000 && Pow256(4) == 0x100 * Pow256(3) == 0x1_0000_0000;
      assert k <= 4 by { assert n < Pow256(4); }
      assert n < Pow256(1) ==> k <= 1;
      assert n < Pow256(2) ==> k <= 2;
      assert n < Pow256(3) ==> k <= 3;
    }
  }

  /** An int length never needs more than four octets after the first. */
  lemma LengthSizeAtMost5(n: nat)
    requires n < 0x8000_0000
    ensures LengthSize(n) <= 5
  {
    if n > 127 {
      LengthSizeMinimal(n);
      assert Pow256(4) == 256 * Pow256(3) == 65536 * Pow256(2) == 0x100_0000 * Pow256(1) == 0x1_0000_0000;
      assert n < Pow256(4);
    }
  }

  // ---------------------------------------------------------------- identifier octets

  function ClassBits(c: TagClass): byte
    requires c != ClassUnknown
  {
    match c
    case Universal => 0x00
    case Application => 0x40
    case ContextSpecific => 0x80
    case Private => 0xc0
  }

  /** b & 0xc0 */
  function ClassOf(b: byte): (c: TagClass)
    ensures c != ClassUnknown
  {
    if b < 0x40 then Universal else if b < 0x80 then Application else if b < 0xc0 then ContextSpecific else Private
  }

  /** (b & 0x20) != 0 */
  function Bit5(b: nat): bool {
    if b < 0x20 then false else !Bit5(b - 0x20)
  }

  /** b & 0x1f */
  function Low5(b: nat): (r: nat)
    ensures r < 0x20
  {
    if b < 0x20 then b else Low5(b - 0x20)
  }

  /** b & 0x7f */
  function Low7(b: byte): (r: nat)
    ensures r < 0x80
  {
    if b < 0x80 then b else b - 0x80
  }

  function Lead(c: TagClass, constructed: bool): (r: byte)
    requires c != ClassUnknown
    ensures r <= 0xe0
  {
    ClassBits(c) + if constructed then 0x20 else 0
  }

  /** The three fields of a leading octet do not disturb each other. */
  lemma LeadRead(c: TagClass, constructed: bool, low: nat)
    requires c != ClassUnknown && low < 0x20
    ensures var b := Lead(c, constructed) + low;
            b < 256 && Low5(b) == low && ClassOf(b) == c && (Bit5(b) <==> constructed)
  {
    var b := Lead(c, constructed) + low;
    assert Low5(low) == low && !Bit5(low);
    LeadBits(low, 1);
    LeadBits(low, 2);
    LeadBits(low, 3);
    LeadBits(low, 4);
    LeadBits(low, 5);
    LeadBits(low, 6);
    LeadBits(low, 7);
  }

  lemma {:induction false} LeadBits(low: nat, k: nat)
    requires low < 0x20
    ensures Low5(low + 0x20 * k) == low && (Bit5(low + 0x20 * k) <==> k % 2 == 1)
  {
    if k > 0 {
      LeadBits(low, k - 1);
    }
  }

  /** prepare_tag: total identifier octets (the placeholder tag -1 counts one). */
  function TagSize(t: int): (k: int)
    ensures k >= 1
    ensures k > 1 <==> t > 30
  {
    if t > 30 then CeilDiv(Bits(t), 7) + 1 else 1
  }

  /** The long form uses the fewest septets that can hold the tag number. */
  lemma TagSizeMinimal(t: nat)
    requires t > 30
    ensures TagSize(t) >= 2
    ensures t < Pow2(7 * (TagSize(t) - 1))
    ensures Pow2(7 * (TagSize(t) - 2)) <= t
    ensures forall k: nat :: t < Pow2(7 * k) ==> TagSize(t) - 1 <= k
  {
    var k := CeilDiv(Bits(t), 7);
    assert Bits(t) >= 1;
    Pow2Monotone(Bits(t), 7 * k);
    Pow2Monotone(7 * (k - 1), Bits(t) - 1);
    forall j: nat | t < Pow2(7 * j) ensures k <= j {
      if j < k {
        Pow2Monotone(7 * j, 7 * (k - 1));
      }
    }
  }

  lemma Pow2Septets()
    ensures Pow2(0) == 1 && Pow2(7) == 0x80 && Pow2(14) == 0x4000 && Pow2(21) == 0x20_0000
    ensures Pow2(28) == 0x1000_0000 && Pow2(35) == 0x8_0000_0000
  {
    Pow2Plus4(3);
    Pow2Plus4(7);
    Pow2Plus4(10);
    Pow2Plus4(14);
    Pow2Plus4(17);
    Pow2Plus4(21);
    Pow2Plus4(24);
    Pow2Plus4(28);
    Pow2Plus4(31);
  }

  /** The number of identifier octets, for every tag number of an int. */
  lemma TagSizes(t: int)
    requires t < 0x8000_0000
    ensures TagSize(t) == if t <= 30 then 1 else if t < 0x80 then 2 else if t < 0x4000 then 3
                          else if t < 0x20_0000 then 4 else if t < 0x1000_0000 then 5 else 6
  {
    if t > 30 {
      hide TagSize, Pow2;
      TagSizeMinimal(t);
      Pow2Septets();
      var k := TagSize(t) - 1;
      assert k <= 5 by { assert t < Pow2(7 * 5); }
      assert t < Pow2(7 * 1) ==> k <= 1;
      assert t < Pow2(7 * 2) ==> k <= 2;
      assert t < Pow2(7 * 3) ==> k <= 3;
      assert t < Pow2(7 * 4) ==> k <= 4;
    }
  }

  /** The octets after 0x1f.  The encoder steps by 8 bits from octet to octet, not by 7. */
  function ShiftedBy8(t: nat, k: nat): (s: seq<byte>)
    ensures |s| == k
  {
    seq(k, i requires 0 <= i < k => Septet(t, k - i - 1))
  }

  /** The octet with `left` more to come: its top bit says whether any follow. */
  function Septet(t: nat, left: nat): byte {
    (if left > 0 then 0x80 else 0) + Shr8(t, left) % 128
  }

  function TagOctets(c: TagClass, constructed: bool, t: nat): (s: seq<byte>)
    requires c != ClassUnknown
    ensures |s| == TagSize(t)
  {
    if t > 30 then [Lead(c, constructed) + 0x1f] + ShiftedBy8(t, TagSize(t) - 1)
    else [Lead(c, constructed) + t]
  }

  /** The identifier octets in numbers: two bits of class, one for constructed, and the tag number, or 31 and a row of
      octets after it, as the encoder's 8-bit steps make them. */
  lemma IdentifierOctets(c: TagClass, constructed: bool, t: nat)
    requires c != ClassUnknown && t < 0x1000_0000
    ensures TagOctets(c, constructed, t)[0] ==
            (match c case Universal => 0 case Application => 64 case ContextSpecific => 128 case _ => 192)
            + (if constructed then 32 else 0) + if t <= 30 then t else 31
    ensures TagOctets(c, constructed, t)[1..] ==
            if t <= 30 then []
            else if t < 0x80 then [t]
            else if t < 0x4000 then [128 + t / 0x100 % 128, t % 128]
            else if t < 0x20_0000 then [128 + t / 0x1_0000 % 128, 128 + t / 0x100 % 128, t % 128]
            else [128 + t / 0x100_0000 % 128, 128 + t / 0x1_0000 % 128, 128 + t / 0x100 % 128, t % 128]
  {
    TagSizes(t);
    Shr8Divides(t);
    if t > 30 {
      var k := TagSize(t) - 1;
      var s := ShiftedBy8(t, k);
      assert TagOctets(c, constructed, t)[1..] == s;
      assert Septet(t, 0) == t % 128 && Septet(t, 1) == 128 + t / 0x100 % 128;
      assert Septet(t, 2) == 128 + t / 0x1_0000 % 128 && Septet(t, 3) == 128 + t / 0x100_0000 % 128;
      assert s[k - 1] == Septet(t, 0) && (k > 1 ==> s[k - 2] == Septet(t, 1));
      assert (k > 2 ==> s[k - 3] == Septet(t, 2)) && (k > 3 ==> s[0] == Septet(t, 3));
    }
  }

  lemma Shr8Divides(n: nat)
    ensures Shr8(n, 0) == n && Shr8(n, 1) == n / 0x100 && Shr8(n, 2) == n / 0x1_0000
    ensures Shr8(n, 3) == n / 0x100_0000
  {
    assert Shr8(n / 0x100, 1) == n / 0x100 / 0x100 == n / 0x1_0000;
    assert Shr8(n / 0x1_0000, 1) == n / 0x1_0000 / 0x100 == n / 0x100_0000;
  }

  method PrepareTag(tlv: TLVNode)
    modifies tlv`tagValueSize
    ensures tlv.tagValueSize == TagSize(tlv.tagValue)
  {
    if tlv.tagValue > 30 {
      var reqBits := Bits(tlv.tagValue);
      var reqSeptetBytes := CeilDiv(reqBits, 7);
      tlv.tagValueSize := reqSeptetBytes + 1;
    } else {
      tlv.tagValueSize := 1;
    }
  }

  /** The tag loop of encode_prepared_tag: k octets, the last one with its top bit cleared again. */
  method EncodeSeptets(buffer: array<byte>, data: nat, t: nat, k: nat)
    requires 0 < k && data + k <= buffer.Length
    modifies buffer
    ensures buffer[..] == Patched(old(buffer[..]), data, ShiftedBy8(t, k))
  {
    ghost var before := buffer[..];
    ghost var septets := ShiftedBy8(t, k);
    forall i | 0 <= i < k ensures septets[i] == if i < k - 1 then 0x80 + septets[i] % 128 else septets[i] % 128 {
      assert septets[i] == Septet(t, k - i - 1);
    }
    for i := 0 to k
      invariant forall j :: 0 <= j < buffer.Length && !(data <= j < data + i) ==> buffer[j] == before[j]
      invariant forall j :: data <= j < data + i ==> buffer[j] == 0x80 + septets[j - data] % 128
    {
      var low := Shr8(t, k - i - 1) % 128;
      assert septets[i] == Septet(t, k - i - 1);
      buffer[data + i] := 0x80;
      buffer[data + i] := buffer[data + i] + low;
    }
    buffer[data + k - 1] := buffer[data + k - 1] % 128;
  }

  lemma TagOctetsAre(c: TagClass, constructed: bool, t: nat)
    requires c != ClassUnknown
    ensures Lead(c, constructed) + 0x1f < 0x100
    ensures TagSize(t) > 1 ==>
              TagOctets(c, constructed, t) == [Lead(c, constructed) + 0x1f] + ShiftedBy8(t, TagSize(t) - 1)
    ensures TagSize(t) <= 1 ==>
              Lead(c, constructed) + t < 0x100 && TagOctets(c, constructed, t) == [t + Lead(c, constructed)]
  {
    hide ShiftedBy8;
  }

  /** Tags of 2^28 and more would make the first shift 32 bits wide, which C++ leaves undefined. */
  method EncodePreparedTag(buffer: array<byte>, pos: nat, tlv: TLVNode)
    requires 0 <= tlv.tagValue < 0x1000_0000 && tlv.tagValueSize == TagSize(tlv.tagValue)
    requires tlv.tagClass != ClassUnknown && tlv.complexity != ComplexityUnknown
    requires pos + tlv.tagValueSize <= buffer.Length
    modifies buffer
    ensures buffer[..] == Patched(old(buffer[..]), pos,
                                  TagOctets(tlv.tagClass, tlv.complexity == Constructed, tlv.tagValue))
  {
    hide ShiftedBy8, TagOctets, TagSize, Lead, Patched;
    var t := tlv.tagValue;
    var lead := Lead(tlv.tagClass, tlv.complexity == Constructed);
    ghost var before := buffer[..];
    TagOctetsAre(tlv.tagClass, tlv.complexity == Constructed, t);
    if tlv.tagValueSize > 1 {
      var k := tlv.tagValueSize - 1;
      buffer[pos] := lead + 0x1f;
      OnePatched(before, pos, lead + 0x1f);
      EncodeSeptets(buffer, pos + 1, t, k);
      PatchedTwice(before, pos, [lead + 0x1f], ShiftedBy8(t, k));
    } else {
      buffer[pos] := t + lead;
      OnePatched(before, pos, t + lead);
    }
  }

  /** What the decoder reads back: seven bits from each octet. */
  function Base128(s: seq<byte>): nat {
    if s == [] then 0 else Base128(s[..|s| - 1]) * 128 + Low7(s[|s| - 1])
  }

  lemma {:induction false} ShiftedBy8Value(t: nat, k: nat)
    requires k > 0
    ensures Base128(ShiftedBy8(t, k)) <= t
    ensures t >= 128 ==> Base128(ShiftedBy8(t, k)) < t
    ensures t < 128 ==> Base128(ShiftedBy8(t, k)) == t
  {
    var s := ShiftedBy8(t, k);
    assert s[k - 1] == Septet(t, 0);
    if k == 1 {
      assert s[..0] == [];
    } else {
      var s' := ShiftedBy8(t / 256, k - 1);
      forall i | 0 <= i < k - 1 ensures Low7(s[i]) == Low7(s'[i]) {
        assert s[i] == Septet(t, k - i - 1) && s'[i] == Septet(t / 256, k - i - 2);
      }
      SameLowBits(s[..k - 1], s');
      ShiftedBy8Value(t / 256, k - 1);
    }
  }

  lemma {:induction false} SameLowBits(a: seq<byte>, b: seq<byte>)
    requires |a| == |b| && forall i :: 0 <= i < |a| ==> Low7(a[i]) == Low7(b[i])
    ensures Base128(a) == Base128(b)
  {
    if a != [] {
      SameLowBits(a[..|a| - 1], b[..|b| - 1]);
    }
  }
}
