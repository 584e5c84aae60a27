/** Reading identifier and length octets, and the search for end-of-contents octets
    (X.690, sections 8.1.2, 8.1.3 and 8.1.5): what decode_tag, decode_length and find_eoc compute.

    Memory is the whole buffer `mem`; a C++ pointer into it is an offset `off`.  A run that would read past
    the end of `mem`, or whose lengths leave the range of a non-negative int, ends in an `Outside` outcome. */
module Asn1Read {
  import opened Asn1Octets

  // ---------------------------------------------------------------- decode_tag

  datatype TagResult =
    | TagOutside
    | TagRead(tagClass: TagClass, constructed: bool, tag: nat, size: nat)

  /** How many octets the tag number takes: up to and including the first with its top bit clear; 0 if there is none. */
  function SeptetCount(mem: seq<byte>, off: nat): (n: nat)
    ensures n > 0 ==> off + n <= |mem|
    decreases |mem| - off
  {
    if off >= |mem| then 0
    else if mem[off] < 0x80 then 1
    else
      var n := SeptetCount(mem, off + 1);
      if n == 0 then 0 else n + 1
  }

  function ReadTag(mem: seq<byte>, off: nat): (r: TagResult)
    ensures r.TagRead? ==> r.tagClass != ClassUnknown && 1 <= r.size && off + r.size <= |mem|
  {
    if off >= |mem| then TagOutside
    else
      var b := mem[off];
      if Low5(b) != 0x1f then TagRead(ClassOf(b), Bit5(b), Low5(b), 1)
      else
        var n := SeptetCount(mem, off + 1);
        if n == 0 then TagOutside
        else TagRead(ClassOf(b), Bit5(b), Base128(mem[off + 1..off + 1 + n]), 1 + n)
  }

  /** The bit fields of an octet in numbers. */
  lemma OctetFields(b: byte)
    ensures ClassOf(b) ==
            match b / 64 case 0 => Universal case 1 => Application case 2 => ContextSpecific case _ => Private
    ensures (Bit5(b) <==> b / 32 % 2 == 1) && Low5(b) == b % 32 && Low7(b) == b % 128
  {
    hide ClassOf;
    LeadBits(b % 32, b / 32);
    assert b == b % 32 + 32 * (b / 32);
    ClassInNumbers(b);
  }

  lemma ClassInNumbers(b: byte)
    ensures ClassOf(b) ==
            match b / 64 case 0 => Universal case 1 => Application case 2 => ContextSpecific case _ => Private
  {
  }

  /** What decode_tag reads, in numbers: a tag number up to 30 from the leading octet itself, and a greater one from the
      octets after it, seven bits each, up to and including the first below 128. */
  lemma TagInNumbers(mem: seq<byte>, off: nat, b: nat, x: nat, y: nat, z: nat)
    requires off < |mem| && mem[off] == b && x < 128 && y < 128 && z < 128
    ensures var c := match b / 64
                     case 0 => Universal case 1 => Application case 2 => ContextSpecific case _ => Private;
            var constructed := b / 32 % 2 == 1;
            && (b % 32 != 31 ==> ReadTag(mem, off) == TagRead(c, constructed, b % 32, 1))
            && (b % 32 == 31 && [x] <= mem[off + 1..] ==> ReadTag(mem, off) == TagRead(c, constructed, x, 2))
            && (b % 32 == 31 && [128 + x, y] <= mem[off + 1..] ==>
                  ReadTag(mem, off) == TagRead(c, constructed, x * 128 + y, 3))
            && (b % 32 == 31 && [128 + x, 128 + y, z] <= mem[off + 1..] ==>
                  ReadTag(mem, off) == TagRead(c, constructed, x * 0x4000 + y * 128 + z, 4))
            && (b % 32 == 31 && (forall i | off < i < |mem| :: mem[i] >= 128) ==> ReadTag(mem, off) == TagOutside)
  {
    hide ClassOf, Bit5, Low5, Base128, SeptetCount;
    OctetFields(b);
    SeptetsInNumbers(mem, off + 1, x, y, z);
    if forall i | off < i < |mem| :: mem[i] >= 128 {
      NoSeptet(mem, off + 1);
    }
  }

  lemma SeptetsInNumbers(mem: seq<byte>, off: nat, x: nat, y: nat, z: nat)
    requires off <= |mem| && x < 128 && y < 128 && z < 128
    ensures [x] <= mem[off..] ==> SeptetCount(mem, off) == 1 && Base128(mem[off..off + 1]) == x
    ensures [128 + x, y] <= mem[off..] ==> SeptetCount(mem, off) == 2 && Base128(mem[off..off + 2]) == x * 128 + y
    ensures [128 + x, 128 + y, z] <= mem[off..] ==>
              SeptetCount(mem, off) == 3 && Base128(mem[off..off + 3]) == x * 0x4000 + y * 128 + z
  {
    Base128Octets(x, y, z);
    var t := mem[off..];
    if [x] <= t {
      assert t[0] == x && mem[off..off + 1] == [x];
    }
    if [128 + x, y] <= t {
      assert t[0] == 128 + x && t[1] == y && mem[off..off + 2] == [128 + x, y];
      assert SeptetCount(mem, off + 1) == 1;
    }
    if [128 + x, 128 + y, z] <= t {
      assert t[0] == 128 + x && t[1] == 128 + y && t[2] == z && mem[off..off + 3] == [128 + x, 128 + y, z];
      assert SeptetCount(mem, off + 2) == 1 && SeptetCount(mem, off + 1) == 2;
    }
  }

  lemma Base128Octets(x: nat, y: nat, z: nat)
    requires x < 128 && y < 128 && z < 128
    ensures Base128([x]) == x && Base128([128 + x]) == x
    ensures Base128([128 + x, y]) == Base128([128 + x, 128 + y]) == x * 128 + y
    ensures Base128([128 + x, 128 + y, z]) == x * 0x4000 + y * 128 + z
  {
    assert [x][..0] == [128 + x][..0] == [] && [128 + x, y][..1] == [128 + x, 128 + y][..1] == [128 + x];
    assert [128 + x, 128 + y, z][..2] == [128 + x, 128 + y];
  }

  lemma {:induction false} NoSeptet(mem: seq<byte>, off: nat)
    requires forall i | off <= i < |mem| :: mem[i] >= 128
    ensures SeptetCount(mem, off) == 0
    decreases |mem| - off
  {
    if off < |mem| {
      NoSeptet(mem, off + 1);
    }
  }

  method DecodeTag(mem: seq<byte>, off: nat, tlv: TLVNode) returns (inside: bool)
    modifies tlv`tagClass, tlv`complexity, tlv`tagValue, tlv`tagValueSize
    ensures inside <==> ReadTag(mem, off).TagRead?
    ensures inside ==> tlv.tagValue >= 0 && tlv.tagValueSize >= 1
    ensures inside ==>
              ReadTag(mem, off) == TagRead(tlv.tagClass, tlv.complexity == Constructed, tlv.tagValue, tlv.tagValueSize)
    ensures inside ==> tlv.complexity != ComplexityUnknown
  {
    if off >= |mem| {
      return false;
    }
    tlv.tagClass := ClassOf(mem[off]);
    tlv.complexity := if Bit5(mem[off]) then Constructed else Primitive;
    if Low5(mem[off]) == 0x1f {
      var size := 1;
      while off + size < |mem| && mem[off + size] >= 0x80
        invariant 1 <= size && off + size <= |mem|
        invariant SeptetCount(mem, off + 1) ==
                  var n := SeptetCount(mem, off + size); if n == 0 then 0 else n + size - 1
      {
        size := size + 1;
      }
      if off + size >= |mem| {
        return false;
      }
      var tag: nat := 0;
      ghost var septets := mem[off + 1..off + 1 + size];
      for i := 0 to size
        invariant tag == Base128(septets[..i])
      {
        assert septets[..i + 1][..i] == septets[..i] && septets[i] == mem[off + 1 + i];
        assert Base128(septets[..i + 1]) == Base128(septets[..i]) * 128 + Low7(septets[i]);
        tag := tag * 128 + Low7(mem[off + 1 + i]);
      }
      assert septets[..size] == septets;
      tlv.tagValue, tlv.tagValueSize := tag, size + 1;
    } else {
      tlv.tagValue, tlv.tagValueSize := Low5(mem[off]), 1;
    }
    inside := true;
  }

  // ---------------------------------------------------------------- decode_length and find_eoc

  datatype LengthResult =
    | LengthOutside
    | LengthError(code: int)
    | LengthRead(lengthType: LengthType, size: nat, length: nat)

  datatype Eoc = EocOutside | At(pos: nat)

  predicate IsIndefinite(mem: seq<byte>, off: nat, len: nat) {
    len > 0 && off < |mem| && mem[off] == 0x80
  }

  /** One length field; `found` is what the search reports if the form is indefinite. */
  function LengthAt(mem: seq<byte>, off: nat, len: nat, found: Eoc): (r: LengthResult)
    ensures r.LengthRead? ==> 1 <= r.size && off + r.size <= |mem| && r.lengthType != LengthTypeUnknown
    ensures r.LengthRead? ==> (r.lengthType == Indefinite <==> IsIndefinite(mem, off, len))
  {
    if len == 0 then LengthError(1)
    else if off >= |mem| then LengthOutside
    else if mem[off] > 0x80 then
      var l := mem[off] - 0x80;
      if l == 0x7f || l >= len then LengthError(2)
      else if l > 4 || off + 1 + l > |mem| then LengthOutside
      else LengthRead(DefiniteLong, l + 1, FromBigEndian(mem[off + 1..off + 1 + l]))
    else if mem[off] == 0x80 then
      match found
      case EocOutside => LengthOutside
      case At(p) => LengthRead(Indefinite, 1, p)
    else LengthRead(DefiniteShort, 1, mem[off])
  }

  function ReadLength(mem: seq<byte>, off: nat, len: nat): LengthResult
    decreases |mem| - off, 0, 0
  {
    LengthAt(mem, off, len, if IsIndefinite(mem, off, len) then FindEocSpec(mem, off + 1, len - 1) else EocOutside)
  }

  lemma LongLengthRead(mem: seq<byte>, off: nat, len: nat, octets: seq<byte>)
    requires 0 < |octets| < 5 && |octets| < len && off < |mem| && [128 + |octets|] + octets <= mem[off..]
    ensures ReadLength(mem, off, len) == LengthRead(DefiniteLong, |octets| + 1, FromBigEndian(octets))
  {
    hide FromBigEndian, FindEocSpec;
    var t, field := mem[off..], [128 + |octets|] + octets;
    assert t[0] == field[0] && t[1..1 + |octets|] == field[1..] == octets;
    assert mem[off + 1..off + 1 + |octets|] == octets;
  }

  /** What decode_length reads in the definite forms, in numbers: up to 127 from the octet itself, otherwise from as
      many octets after it as it counts, most significant first. */
  lemma LengthInNumbers(mem: seq<byte>, off: nat, len: nat, a: nat, b: nat, c: nat, d: nat)
    requires off < |mem| && len > 0 && a < 256 && b < 256 && c < 256 && d < 256
    ensures mem[off] < 128 ==> ReadLength(mem, off, len) == LengthRead(DefiniteShort, 1, mem[off])
    ensures mem[off] > 128 && (mem[off] == 255 || mem[off] - 128 >= len) ==>
              ReadLength(mem, off, len) == LengthError(2)
    ensures len > 1 && [0x81, a] <= mem[off..] ==> ReadLength(mem, off, len) == LengthRead(DefiniteLong, 2, a)
    ensures len > 2 && [0x82, a, b] <= mem[off..] ==>
              ReadLength(mem, off, len) == LengthRead(DefiniteLong, 3, a * 0x100 + b)
    ensures len > 3 && [0x83, a, b, c] <= mem[off..] ==>
              ReadLength(mem, off, len) == LengthRead(DefiniteLong, 4, a * 0x1_0000 + b * 0x100 + c)
    ensures len > 4 && [0x84, a, b, c, d] <= mem[off..] ==>
              ReadLength(mem, off, len) == LengthRead(DefiniteLong, 5, a * 0x100_0000 + b * 0x1_0000 + c * 0x100 + d)
  {
    hide FromBigEndian;
    FromBigEndianOctets(a, b, c, d);
    if len > 1 && [0x81, a] <= mem[off..] {
      LongLengthRead(mem, off, len, [a]);
    }
    if len > 2 && [0x82, a, b] <= mem[off..] {
      LongLengthRead(mem, off, len, [a, b]);
    }
    if len > 3 && [0x83, a, b, c] <= mem[off..] {
      LongLengthRead(mem, off, len, [a, b, c]);
    }
    if len > 4 && [0x84, a, b, c, d] <= mem[off..] {
      LongLengthRead(mem, off, len, [a, b, c, d]);
    }
  }

  lemma FromBigEndianOctets(a: nat, b: nat, c: nat, d: nat)
    requires a < 256 && b < 256 && c < 256 && d < 256
    ensures FromBigEndian([a]) == a && FromBigEndian([a, b]) == a * 0x100 + b
    ensures FromBigEndian([a, b, c]) == a * 0x1_0000 + b * 0x100 + c
    ensures FromBigEndian([a, b, c, d]) == a * 0x100_0000 + b * 0x1_0000 + c * 0x100 + d
  {
    assert [a][..0] == [] && [a, b][..1] == [a] && [a, b, c][..2] == [a, b] && [a, b, c, d][..3] == [a, b, c];
  }

  function FindEocSpec(mem: seq<byte>, off: nat, len: nat): Eoc
    decreases |mem| - off, 2, 0
  {
    if len == 0 then At(0) else EocScan(mem, off, len, 0, 0, 0)
  }

  datatype Step = StepOutside | Step(next: nat, lengthSize: nat, length: nat)

  /** Where an element with this tag and length takes the scan; `found` is the second search, made over the
      contents of a constructed element of indefinite form.  When decode_length refuses a length the record
      keeps the sizes of the element before, so they are carried along. */
  function StepAt(len: nat, pos: nat, tag: TagResult, l: LengthResult, lengthSize: nat, length: nat,
                  found: Eoc): (r: Step)
    ensures r.Step? && tag.TagRead? ==> r.next >= pos + tag.size
  {
    if tag.TagOutside? || l.LengthOutside? then StepOutside
    else
      var (size', length') := if l.LengthRead? then (l.size, l.length) else (lengthSize, length);
      var p := pos + tag.size + size';
      if length' >= 0x8000_0000 then StepOutside
      else if tag.constructed && l.LengthRead? && l.lengthType == Indefinite then
        if p > len || found.EocOutside? then StepOutside else Step(p + found.pos + 2, size', length')
      else Step(p + length', size', length')
  }

  /** One element of the scan. */
  function EocStep(mem: seq<byte>, off: nat, len: nat, pos: nat, lengthSize: nat, length: nat): (r: Step)
    ensures r.Step? ==> r.next > pos && off + pos < |mem|
    decreases |mem| - off, 0, 0
  {
    var tag := ReadTag(mem, off + pos);
    if tag.TagOutside? then StepOutside
    else
      var at := pos + tag.size;
      var found := if IsIndefinite(mem, off + at, len) && at + 1 <= len then
                     FindEocSpec(mem, off + at + 1, len - (at + 1))
                   else EocOutside;
      StepAt(len, pos, tag, ReadLength(mem, off + at, len), lengthSize, length, found)
  }

  /** Whether the two end-of-contents octets stand at position p, as far as find_eoc looks. */
  function EocHere(mem: seq<byte>, off: nat, len: nat, p: nat): bool
    requires p < len - 1 ==> off + p + 1 < |mem|
  {
    p < len - 1 && mem[off + p] == 0x00 && mem[off + p + 1] == 0x00
  }

  /** The loop of find_eoc from position pos. */
  function EocScan(mem: seq<byte>, off: nat, len: nat, pos: nat, lengthSize: nat, length: nat): Eoc
    decreases |mem| - off, 1, |mem| - off - pos
  {
    if pos >= len then At(0)
    else
      match EocStep(mem, off, len, pos, lengthSize, length)
      case StepOutside => EocOutside
      case Step(next, size', length') =>
        if next < len - 1 && off + next + 1 >= |mem| then EocOutside
        else if EocHere(mem, off, len, next) then At(next)
        else EocScan(mem, off, len, next, size', length')
  }

  lemma ShiftIn(high: nat, low: nat, k: nat)
    ensures high * Pow256(k + 1) + low * Pow256(k) == (high * 256 + low) * Pow256(k)
  {
  }

  /** The loop of decode_length over the octets of a long form. */
  method DecodeLengthBytes(mem: seq<byte>, data: nat, l: nat) returns (length: nat)
    requires data + l <= |mem|
    ensures length == FromBigEndian(mem[data..data + l])
  {
    length := 0;
    ghost var octets := mem[data..data + l];
    for i := 0 to l
      invariant length == FromBigEndian(octets[..i]) * Pow256(l - i)
    {
      assert octets[..i + 1][..i] == octets[..i];
      ShiftIn(FromBigEndian(octets[..i]), octets[i], l - i - 1);
      length := length + mem[data + i] * Pow256(l - i - 1);
    }
    assert octets[..l] == octets;
  }

  method DecodeLength(mem: seq<byte>, off: nat, len: nat, tlv: TLVNode) returns (r: LengthResult)
    modifies tlv`lengthType, tlv`valueLengthSize, tlv`valueLength
    ensures r == ReadLength(mem, off, len)
    ensures r.LengthRead? ==>
              tlv.lengthType == r.lengthType && tlv.valueLengthSize == r.size && tlv.valueLength == r.length
    ensures r == LengthError(2) ==> tlv.lengthType == DefiniteLong
    ensures r.LengthError? ==>
              tlv.valueLengthSize == old(tlv.valueLengthSize) && tlv.valueLength == old(tlv.valueLength)
    decreases |mem| - off, 0, 0
  {
    if len == 0 {
      return LengthError(1);
    }
    if off >= |mem| {
      return LengthOutside;
    }
    if mem[off] > 0x80 {
      tlv.lengthType := DefiniteLong;
      var l := mem[off] - 0x80;
      if l == 0x7f || l >= len {
        return LengthError(2);
      }
      if l > 4 || off + 1 + l > |mem| {
        return LengthOutside;
      }
      tlv.valueLengthSize := l + 1;
      tlv.valueLength := DecodeLengthBytes(mem, off + 1, l);
    } else if mem[off] == 0x80 {
      tlv.lengthType := Indefinite;
      tlv.valueLengthSize := 1;
      var found := FindEoc(mem, off + 1, len - 1);
      if found.EocOutside? {
        return LengthOutside;
      }
      tlv.valueLength := found.pos;
    } else {
      tlv.lengthType := DefiniteShort;
      tlv.valueLengthSize := 1;
      tlv.valueLength := mem[off];
    }
    r := LengthRead(tlv.lengthType, tlv.valueLengthSize, tlv.valueLength);
  }

  lemma LengthForm(mem: seq<byte>, off: nat, len: nat)
    ensures var r := ReadLength(mem, off, len);
            && (r.LengthRead? ==> 1 <= r.size && (r.lengthType == Indefinite <==> IsIndefinite(mem, off, len)))
            && (r.LengthRead? && r.lengthType == Indefinite ==> r.size == 1)
            && (r.LengthError? ==> r.code == if len == 0 then 1 else 2)
  {
  }

  /** The body of find_eoc's loop up to the search for the end-of-contents octets. */
  method SkipElement(mem: seq<byte>, off: nat, len: nat, pos: nat, tlv: TLVNode) returns (r: Eoc)
    requires len > 0 && 0 <= tlv.valueLengthSize && 0 <= tlv.valueLength
    modifies tlv
    ensures r == match EocStep(mem, off, len, pos, old(tlv.valueLengthSize), old(tlv.valueLength))
                 case StepOutside => EocOutside
                 case Step(next, _, _) => At(next)
    ensures r.At? ==> 0 <= tlv.valueLengthSize && 0 <= tlv.valueLength
                      && EocStep(mem, off, len, pos, old(tlv.valueLengthSize), old(tlv.valueLength))
                         == Step(r.pos, tlv.valueLengthSize, tlv.valueLength)
    decreases |mem| - off, 0, 1
  {
    hide ReadTag, ReadLength, FindEocSpec, EocScan;
    var inside := DecodeTag(mem, off + pos, tlv);
    if !inside {
      return EocOutside;
    }
    var p := pos + tlv.tagValueSize;
    LengthForm(mem, off + p, len);
    var l := DecodeLength(mem, off + p, len, tlv);
    if l.LengthOutside? || tlv.valueLength >= 0x8000_0000 {
      return EocOutside;
    }
    p := p + tlv.valueLengthSize;
    if tlv.complexity == Primitive {
      p := p + tlv.valueLength;
    } else if tlv.complexity == Constructed {
      if tlv.lengthType == Indefinite {
        if p > len {
          return EocOutside;
        }
        var inner := FindEoc(mem, off + p, len - p);
        if inner.EocOutside? {
          return EocOutside;
        }
        p := p + inner.pos + 2;
      } else {
        p := p + tlv.valueLength;
      }
    }
    r := At(p);
  }

  method FindEoc(mem: seq<byte>, off: nat, len: nat) returns (r: Eoc)
    ensures r == FindEocSpec(mem, off, len)
    decreases |mem| - off, 2, 0
  {
    if len > 0 {
      var pos := 0;
      var tlv := new TLVNode();
      while pos < len
        invariant 0 <= tlv.valueLengthSize && 0 <= tlv.valueLength
        invariant EocScan(mem, off, len, pos, tlv.valueLengthSize, tlv.valueLength) == FindEocSpec(mem, off, len)
        decreases |mem| - off - pos
      {
        var next := SkipElement(mem, off, len, pos, tlv);
        if next.EocOutside? {
          return EocOutside;
        }
        pos := next.pos;
        if pos < len - 1 {
          if off + pos + 1 >= |mem| {
            return EocOutside;
          }
          if mem[off + pos] == 0x00 && mem[off + pos + 1] == 0x00 {
            return At(pos);
          }
        }
      }
    }
    r := At(0);
  }
}
