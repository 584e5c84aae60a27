/** What encode writes, on values: the encoding of a message (src/asn1/asn1.cpp, encode), and how decode_tag and
    decode_length undo the header octets. */
module Asn1Ber {
  import opened Asn1Octets
  import opened Asn1Read
  import opened Asn1Eoc

  // ---------------------------------------------------------------- messages and their encoding

  datatype Ber =
    | Prim(tagClass: TagClass, tag: nat, octets: seq<byte>)
    | Cons(tagClass: TagClass, tag: nat, kids: seq<Ber>)

  ghost predicate Sendable(b: Ber) {
    b.tagClass != ClassUnknown && (b.Cons? ==> forall k | k in b.kids :: Sendable(k))
  }

  ghost predicate AllSendable(bs: seq<Ber>) {
    forall b | b in bs :: Sendable(b)
  }

  ghost function Content(b: Ber): seq<byte>
    requires Sendable(b)
    decreases b, 0
  {
    match b
    case Prim(_, _, octets) => octets
    case Cons(_, _, kids) => EncodingOfAll(kids)
  }

  /** Every length field is the number of content octets that follow it, at every depth. */
  ghost function Encoding(b: Ber): (s: seq<byte>)
    requires Sendable(b)
    ensures |s| >= 2
    decreases b, 1
  {
    TagOctets(b.tagClass, b.Cons?, b.tag) + (LengthOctets(|Content(b)|) + Content(b))
  }

  ghost function EncodingOfAll(bs: seq<Ber>): seq<byte>
    requires AllSendable(bs)
    decreases bs
  {
    if bs == [] then [] else Encoding(bs[0]) + EncodingOfAll(bs[1..])
  }

  // ---------------------------------------------------------------- header octets, both ways

  /** Identifier octets are read back whole; the tag number comes back exactly up to 127. */
  lemma TagRoundTrip(mem: seq<byte>, off: nat, c: TagClass, constructed: bool, t: nat)
    requires c != ClassUnknown && Here(mem, off, TagOctets(c, constructed, t))
    ensures ReadTag(mem, off).TagRead?
    ensures ReadTag(mem, off).tagClass == c && ReadTag(mem, off).constructed == constructed
    ensures ReadTag(mem, off).size == TagSize(t)
    ensures ReadTag(mem, off).tag == t <==> t <= 127
  {
    if t <= 30 {
      IdentRead(mem, off, LowTag(c, constructed, t));
    } else {
      var k := TagSize(t) - 1;
      var s := ShiftedBy8(t, k);
      forall i | 0 <= i < k ensures i < k - 1 <==> s[i] >= 0x80 {
        assert s[i] == Septet(t, k - i - 1);
      }
      IdentRead(mem, off, HighTag(c, constructed, s));
      ShiftedBy8Value(t, k);
    }
  }

  /** What encode_prepared_length writes is a length field. */
  lemma LengthIsField(n: nat)
    requires n < 0x8000_0000
    ensures LengthField(LengthOctets(n), n)
  {
    hide LengthSize, LengthOctets, BigEndian;
    LengthOctetsAre(n);
    if n > 127 {
      LengthSizeMinimal(n);
      var k := LengthSize(n) - 1;
      BigEndianRoundTrip(n, k);
      assert LengthOctets(n)[1..] == BigEndian(n, k);
    }
  }

  /** decode_length undoes encode_prepared_length: it gives the length, the size of the field and the form back if and
      only if it is told of that many octets, and reports an error otherwise. */
  lemma LengthRoundTrip(mem: seq<byte>, off: nat, len: nat, n: nat)
    requires n < 0x8000_0000 && Here(mem, off, LengthOctets(n))
    ensures ReadLength(mem, off, len) ==
              if len == 0 then LengthError(1) else if len < LengthSize(n) then LengthError(2)
              else LengthRead(if n <= 127 then DefiniteShort else DefiniteLong, LengthSize(n), n)
  {
    hide LengthField, LengthOctets, LengthSize, BigEndian, FromBigEndian;
    LengthIsField(n);
    LengthOctetsAre(n);
    HereHead(mem, off, LengthOctets(n));
    if len >= LengthSize(n) {
      DefiniteLengthRead(mem, off, len, LengthOctets(n), n);
    }
  }
}
