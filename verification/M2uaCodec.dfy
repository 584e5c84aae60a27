/** The parameters of an M2UA message (section 3.1.6 of RFC 3331): tag, length, value and padding to a multiple of four
    octets (src/m2ua/m2ua.cpp:24-42, 591-603, 967-1023). */
module M2uaCodec {
  import opened Asn1Octets

  datatype Param = Param(tag: int, value: seq<byte>)

  /** The tags for which a parameter object is made. */
  predicate Known(tag: int) {
    tag in {0x01, 0x03, 0x04, 0x07, 0x08, 0x09, 0x0b, 0x0c, 0x0d, 0x11, 0x13} || 0x0300 <= tag <= 0x0310
  }

  /** The low 16 bits, high octet first. */
  function Two(n: int): (r: seq<byte>)
    ensures |r| == 2
  {
    [n / 256 % 256, n % 256]
  }

  /** The first octet is read as a signed char. */
  function ReadTwo(high: byte, low: byte): int {
    (if high >= 128 then high - 256 else high) * 256 + low
  }

  function Padding(n: int): (r: nat)
    ensures r < 4 && (n >= 0 ==> (n + r) % 4 == 0)
  {
    if n % 4 > 0 then 4 - n % 4 else 0
  }

  function Padded(p: Param): (n: nat)
    ensures n % 4 == 0 && 4 + |p.value| <= n < 8 + |p.value|
  {
    4 + |p.value| + Padding(4 + |p.value|)
  }

  function Zeros(n: nat): (r: seq<byte>)
    ensures |r| == n
  {
    seq(n, i => 0)
  }

  function Unpadded(p: Param): seq<byte> {
    Two(p.tag) + Two(|p.value| + 4) + p.value
  }

  function Octets(p: Param): (r: seq<byte>)
    ensures |r| == Padded(p)
  {
    Unpadded(p) + Zeros(Padding(4 + |p.value|))
  }

  function AllOctets(ps: seq<Param>): seq<byte> {
    if ps == [] then [] else Octets(ps[0]) + AllOctets(ps[1..])
  }

  /** What the reader needs: headers and values inside the data, lengths of at least the header. */
  predicate Framed(data: seq<byte>, pos: nat)
    decreases |data| - pos
  {
    pos < |data| ==>
      && pos + 4 <= |data|
      && var l := ReadTwo(data[pos + 2], data[pos + 3]);
      l >= 4 && pos + l <= |data| && Framed(data, pos + l + Padding(l))
  }

  /** The parameters read from pos on; unknown ones are passed over. */
  function ParamsIn(data: seq<byte>, pos: nat): seq<Param>
    requires Framed(data, pos)
    decreases |data| - pos
  {
    if pos >= |data| then []
    else
      var tag, l := ReadTwo(data[pos], data[pos + 1]), ReadTwo(data[pos + 2], data[pos + 3]);
      (if Known(tag) then [Param(tag, data[pos + 4..pos + l])] else []) + ParamsIn(data, pos + l + Padding(l))
  }

  function FirstIn(data: seq<byte>, pos: nat): seq<Param>
    requires Framed(data, pos) && pos < |data|
  {
    var tag, l := ReadTwo(data[pos], data[pos + 1]), ReadTwo(data[pos + 2], data[pos + 3]);
    if Known(tag) then [Param(tag, data[pos + 4..pos + l])] else []
  }

  lemma ReadStep(data: seq<byte>, pos: nat)
    requires Framed(data, pos) && pos < |data|
    ensures pos + 4 <= |data|
    ensures var l := ReadTwo(data[pos + 2], data[pos + 3]);
            && l >= 4 && pos + l <= |data| && Framed(data, pos + l + Padding(l))
            && ParamsIn(data, pos) == FirstIn(data, pos) + ParamsIn(data, pos + l + Padding(l))
  {
  }

  lemma NothingIn(data: seq<byte>, pos: nat)
    requires pos >= |data|
    ensures Framed(data, pos) && ParamsIn(data, pos) == []
  {
  }

  // ---------------------------------------------------------------- round trip

  /** A 16-bit field survives exactly when its top bit is clear. */
  lemma FieldRoundTrip(n: nat)
    ensures ReadTwo(Two(n)[0], Two(n)[1]) == n <==> n < 0x8000
  {
    if n < 0x8000 {
      assert n / 256 < 128;
    }
  }

  function KnownOnly(ps: seq<Param>): seq<Param> {
    if ps == [] then [] else (if Known(ps[0].tag) then [ps[0]] else []) + KnownOnly(ps[1..])
  }

  predicate Encodable(p: Param) {
    0 <= p.tag < 0x8000 && |p.value| + 4 < 0x8000
  }

  /** Reading back-to-back parameters gives them back, those of unknown tags left out. */
  lemma {:induction false} ReadUndoesWrite(before: seq<byte>, ps: seq<Param>)
    requires forall p :: p in ps ==> Encodable(p)
    ensures var data := before + AllOctets(ps); Framed(data, |before|) && ParamsIn(data, |before|) == KnownOnly(ps)
    decreases |ps|
  {
    hide Octets, ReadTwo, KnownOnly, ParamsIn, Framed;
    var data := before + AllOctets(ps);
    if ps == [] {
      NothingIn(data, |before|);
      NoneKnown(ps);
    } else {
      var p, next := ps[0], before + Octets(ps[0]);
      assert data == next + AllOctets(ps[1..]);
      ReadUndoesWrite(next, ps[1..]);
      assert data[|before|..|next|] == Octets(p);
      assert p in ps;
      ReadOne(data, |before|, p);
      FirstKnown(ps);
    }
  }

  lemma NoneKnown(ps: seq<Param>)
    requires ps == []
    ensures KnownOnly(ps) == []
  {
  }

  lemma FirstKnown(ps: seq<Param>)
    requires ps != []
    ensures KnownOnly(ps) == (if Known(ps[0].tag) then [ps[0]] else []) + KnownOnly(ps[1..])
  {
  }

  lemma ReadOne(data: seq<byte>, pos: nat, p: Param)
    requires Encodable(p) && pos + Padded(p) <= |data| && data[pos..pos + Padded(p)] == Octets(p)
    requires Framed(data, pos + Padded(p))
    ensures Framed(data, pos)
    ensures ParamsIn(data, pos) == (if Known(p.tag) then [p] else []) + ParamsIn(data, pos + Padded(p))
  {
    hide Octets, ReadTwo;
    HeaderOf(data, pos, p);
    assert pos < |data|;
  }

  lemma HeaderOf(data: seq<byte>, pos: nat, p: Param)
    requires Encodable(p) && pos + Padded(p) <= |data| && data[pos..pos + Padded(p)] == Octets(p)
    ensures ReadTwo(data[pos], data[pos + 1]) == p.tag
    ensures ReadTwo(data[pos + 2], data[pos + 3]) == |p.value| + 4
    ensures data[pos + 4..pos + 4 + |p.value|] == p.value
  {
    var o := Octets(p);
    FieldRoundTrip(p.tag);
    FieldRoundTrip(|p.value| + 4);
    assert data[pos] == o[0] && data[pos + 1] == o[1] && data[pos + 2] == o[2] && data[pos + 3] == o[3];
    forall k | 0 <= k < |p.value| ensures data[pos + 4 + k] == p.value[k] {
      assert data[pos + 4 + k] == o[4 + k];
    }
  }

  /** For known tags and encoded lengths below 2^15 the list comes back whole. */
  lemma RoundTrip(ps: seq<Param>)
    requires forall p :: p in ps ==> Known(p.tag) && |p.value| + 4 < 0x8000
    ensures Framed(AllOctets(ps), 0) && ParamsIn(AllOctets(ps), 0) == ps
  {
    ReadUndoesWrite([], ps);
    assert [] + AllOctets(ps) == AllOctets(ps);
    AllKnown(ps);
  }

  lemma {:induction false} AllKnown(ps: seq<Param>)
    requires forall p :: p in ps ==> Known(p.tag)
    ensures KnownOnly(ps) == ps
  {
    if ps != [] {
      AllKnown(ps[1..]);
    }
  }

  /** A parameter in numbers: two octets of tag, two of length, header included, high octet first, the value, and as
      many octets of zero as bring it to a multiple of four. */
  lemma OctetsInNumbers(p: Param)
    requires 0 <= p.tag < 0x1_0000 && |p.value| + 4 < 0x1_0000
    ensures var (o, l) := (Octets(p), |p.value| + 4);
            && l <= |o| < l + 4 && |o| % 4 == 0
            && o[..4] == [p.tag / 256, p.tag % 256, l / 256, l % 256] && o[4..l] == p.value
            && forall i :: l <= i < |o| ==> o[i] == 0
  {
    hide Padding, Zeros;
    ZeroAt(Padding(4 + |p.value|));
    assert Unpadded(p)[4..] == p.value;
  }

  lemma ZeroAt(n: nat)
    ensures forall i :: 0 <= i < n ==> Zeros(n)[i] == 0
  {
  }

  /** The tags a reader keeps, one by one; a parameter of any other tag is passed over. */
  lemma TagsKept(p: Param)
    requires Encodable(p)
    ensures Framed(Octets(p), 0)
    ensures ParamsIn(Octets(p), 0) ==
            if p.tag in {0x01, 0x03, 0x04, 0x07, 0x08, 0x09, 0x0b, 0x0c, 0x0d, 0x11, 0x13, 0x0300, 0x0301, 0x0302,
                         0x0303,
                         0x0304, 0x0305, 0x0306, 0x0307, 0x0308, 0x0309, 0x030a, 0x030b, 0x030c, 0x030d, 0x030e, 0x030f,
                         0x0310} then [p] else []
  {
    hide Octets, ParamsIn, Framed;
    assert AllOctets([p]) == Octets(p) + AllOctets([p][1..]) == Octets(p) && [] + Octets(p) == Octets(p);
    ReadUndoesWrite([], [p]);
    assert KnownOnly([p]) == (if Known(p.tag) then [p] else []) + KnownOnly([p][1..]);
  }

  // ---------------------------------------------------------------- where a message puts its parameters

  /** The octets of the first n parameters together. */
  function Sum(ps: seq<Param>, n: nat): nat
    requires n <= |ps|
  {
    if n == 0 then 0 else Sum(ps, n - 1) + Padded(ps[n - 1])
  }

  /** Where parameter n goes: the offset moves on by the sum so far, not by the last parameter. */
  function Start(ps: seq<Param>, offset: nat, n: nat): nat
    requires n <= |ps|
  {
    if n == 0 then offset else Start(ps, offset, n - 1) + Sum(ps, n)
  }

  lemma StartsAt(ps: seq<Param>, offset: nat)
    ensures Start(ps, offset, 0) == offset && Sum(ps, 0) == 0
  {
  }

  lemma StartsNext(ps: seq<Param>, offset: nat, n: nat)
    requires n < |ps|
    ensures Sum(ps, n + 1) == Sum(ps, n) + Padded(ps[n]) &&
            Start(ps, offset, n + 1) == Start(ps, offset, n) + Sum(ps, n + 1)
  {
  }

  /** Parameters never overlap, and parameter n lies where it would in back-to-back order exactly for n < 2. */
  lemma {:induction false} StartIs(ps: seq<Param>, offset: nat, n: nat)
    requires n <= |ps|
    ensures n > 0 ==> Start(ps, offset, n - 1) + Padded(ps[n - 1]) <= Start(ps, offset, n)
    ensures Start(ps, offset, n) >= offset + Sum(ps, n)
    ensures Start(ps, offset, n) == offset + Sum(ps, n) <==> n < 2
  {
    if n > 0 {
      StartIs(ps, offset, n - 1);
      if n > 1 {
        assert Sum(ps, n) > Padded(ps[n - 1]);
      }
    }
  }

  /** A message's parameters are back to back if and only if there are at most two. */
  lemma BackToBackIff(ps: seq<Param>, offset: nat)
    ensures (forall n :: 0 <= n < |ps| ==> Start(ps, offset, n) == offset + Sum(ps, n)) <==> |ps| <= 2
  {
    forall n | 0 <= n <= |ps| ensures Start(ps, offset, n) == offset + Sum(ps, n) <==> n < 2 {
      StartIs(ps, offset, n);
    }
    if |ps| > 2 {
      assert Start(ps, offset, 2) != offset + Sum(ps, 2);
    }
  }

  lemma {:induction false} StartsGrow(ps: seq<Param>, offset: nat, m: nat, n: nat)
    requires m < n <= |ps|
    ensures Start(ps, offset, m) + Padded(ps[m]) <= Start(ps, offset, n)
  {
    StartIs(ps, offset, n);
    if m < n - 1 {
      StartsGrow(ps, offset, m, n - 1);
    }
  }

  /** These octets lie at this place. */
  predicate Lies(s: seq<byte>, at: nat, o: seq<byte>) {
    at + |o| <= |s| && s[at..at + |o|] == o
  }

  lemma LieTogether(s: seq<byte>, at: nat, a: seq<byte>, b: seq<byte>)
    requires Lies(s, at, a) && Lies(s, at + |a|, b)
    ensures Lies(s, at, a + b)
  {
  }

  /** Writing further on leaves octets where they lie. */
  lemma StillLies(s: seq<byte>, at: nat, o: seq<byte>, rest: seq<byte>, n: nat)
    requires Lies(s, at, o) && at + |o| <= n <= |s|
    ensures Lies(s[..n] + rest, at, o)
  {
    assert (s[..n] + rest)[at..at + |o|] == s[at..at + |o|];
  }

  lemma Associative(a: seq<byte>, b: seq<byte>, c: seq<byte>)
    ensures a + b + c == a + (b + c)
  {
  }

  lemma WrittenLies(s: seq<byte>, at: nat, o: seq<byte>)
    requires at + |o| <= |s|
    ensures Lies(s[..at] + o + s[at + |o|..], at, o)
  {
  }

  /** All parameters lie whole at their starts. */
  predicate AllLie(s: seq<byte>, ps: seq<Param>, offset: nat) {
    forall n :: 0 <= n < |ps| ==> Lies(s, Start(ps, offset, n), Octets(ps[n]))
  }

  lemma SmallMessage(ps: seq<Param>, s: seq<byte>, offset: nat)
    requires 0 < |ps| <= 2 && AllLie(s, ps, offset)
    ensures Lies(s, offset, AllOctets(ps)) && |AllOctets(ps)| == Sum(ps, |ps|)
  {
    hide Octets, Lies, Padded;
    assert Start(ps, offset, 0) == offset && Sum(ps, 1) == Padded(ps[0]);
    assert Lies(s, Start(ps, offset, 0), Octets(ps[0]));
    if |ps| == 1 {
      assert AllOctets(ps) == Octets(ps[0]) + [] == Octets(ps[0]);
    } else {
      assert Lies(s, Start(ps, offset, 1), Octets(ps[1]));
      assert ps[1..] == [ps[1]] && AllOctets([ps[1]]) == Octets(ps[1]) + [] == Octets(ps[1]);
      LieTogether(s, offset, Octets(ps[0]), Octets(ps[1]));
    }
  }

  // ---------------------------------------------------------------- the codec

  /** Writes header, value and padding; 0 when the padded parameter does not fit, with the padding not written. */
  method EncodeParameter(p: Param, buffer: array<byte>, bufferLength: int, offset: nat) returns (l: nat)
    requires bufferLength <= buffer.Length && offset + 4 + |p.value| <= buffer.Length
    modifies buffer
    ensures l == if bufferLength > 0 && offset + Padded(p) <= bufferLength then Padded(p) else 0
    ensures l > 0 ==> offset + |Octets(p)| <= buffer.Length && buffer[..] == Patched(old(buffer[..]), offset, Octets(p))
    ensures l == 0 ==> buffer[..] == old(buffer[..]) || buffer[..] == Patched(old(buffer[..]), offset, Unpadded(p))
  {
    hide Two, Zeros, Padding, Patched;
    l := 0;
    if bufferLength > 0 {
      ghost var was := buffer[..];
      var size := 4 + |p.value|;
      WriteAt(buffer, offset, Two(p.tag) + Two(size) + p.value);
      var padding := Padding(size);
      if size + offset + padding <= bufferLength {
        PatchedTwice(was, offset, Unpadded(p), Zeros(padding));
        WriteAt(buffer, offset + size, Zeros(padding));
        l := size + padding;
      }
    }
  }

  lemma OneWritten(b: seq<byte>, at: nat, s: seq<byte>, i: nat)
    requires at + |s| <= |b| && i < |s|
    ensures (b[..at] + s[..i] + b[at + i..])[at + i := s[i]] == b[..at] + s[..i + 1] + b[at + (i + 1)..]
  {
  }

  /** Copies octets into the buffer. */
  method WriteAt(buffer: array<byte>, at: nat, s: seq<byte>)
    requires at + |s| <= buffer.Length
    modifies buffer
    ensures buffer[..] == Patched(old(buffer[..]), at, s)
  {
    var i := 0;
    while i < |s|
      invariant 0 <= i <= |s|
      invariant buffer[..] == old(buffer[..at]) + s[..i] + old(buffer[at + i..])
    {
      ghost var was := buffer[..];
      buffer[at + i] := s[i];
      assert buffer[..] == was[at + i := s[i]];
      OneWritten(old(buffer[..]), at, s, i);
      i := i + 1;
    }
  }

  class M2UAMessage {
    var params: seq<Param>
    var bytePos: nat

    constructor ()
      ensures params == [] && bytePos == 0
    {
      params, bytePos := [], 0;
    }

    /** Reads parameters until the data is used up. */
    method ProcessParams(data: array<byte>)
      requires Framed(data[..], bytePos)
      modifies this
      ensures params == old(params) + ParamsIn(data[..], old(bytePos))
      ensures bytePos >= data.Length
    {
      hide ParamsIn, Framed, ReadTwo, Padding;
      ghost var d := data[..];
      while bytePos < data.Length
        invariant Framed(d, bytePos)
        invariant params + ParamsIn(d, bytePos) == old(params) + ParamsIn(d, old(bytePos))
        decreases data.Length - bytePos
      {
        ReadStep(d, bytePos);
        ghost var here, had := bytePos, params;
        var tag := ReadTwo(data[bytePos], data[bytePos + 1]);
        bytePos := bytePos + 2;
        var l := ReadTwo(data[bytePos], data[bytePos + 1]);
        bytePos := bytePos + 2;
        if Known(tag) {
          params := params + [Param(tag, data[bytePos..bytePos + (l - 4)])];
        }
        assert params == had + FirstIn(d, here);
        bytePos := bytePos + l + Padding(l) - 4;
        assert params + ParamsIn(d, bytePos) == had + (FirstIn(d, here) + ParamsIn(d, bytePos));
      }
      NothingIn(d, bytePos);
      assert params + [] == params;
    }

    /** Writes all parameters; each lies whole at its start, and a message of at most two is back to back. */
    method Encode(buffer: array<byte>, bufferLength: int, offset: nat) returns (resultLength: nat)
      requires 0 < bufferLength <= buffer.Length
      requires forall n :: 0 <= n < |params| ==> Start(params, offset, n) + Padded(params[n]) <= bufferLength
      modifies buffer
      ensures resultLength == Sum(params, |params|)
      ensures AllLie(buffer[..], params, offset)
      ensures 0 < |params| <= 2 ==> Lies(buffer[..], offset, AllOctets(params)) && resultLength == |AllOctets(params)|
    {
      hide Octets, Lies, Padded, Start, Sum;
      StartsAt(params, offset);
      resultLength := 0;
      var at := offset;
      var i := 0;
      while i < |params|
        invariant 0 <= i <= |params|
        invariant resultLength == Sum(params, i) && at == Start(params, offset, i)
        invariant forall n :: 0 <= n < i ==> Lies(buffer[..], Start(params, offset, n), Octets(params[n]))
      {
        ghost var was := buffer[..];
        var l := EncodeParameter(params[i], buffer, bufferLength, at);
        forall n | 0 <= n < i ensures Lies(buffer[..], Start(params, offset, n), Octets(params[n])) {
          StartsGrow(params, offset, n, i);
          Associative(was[..at], Octets(params[i]), was[at + l..]);
          StillLies(was, Start(params, offset, n), Octets(params[n]), Octets(params[i]) + was[at + l..], at);
        }
        WrittenLies(was, at, Octets(params[i]));
        StartsNext(params, offset, i);
        resultLength := resultLength + l;
        at := at + resultLength;
        i := i + 1;
      }
      if 0 < |params| <= 2 {
        SmallMessage(params, buffer[..], offset);
      }
    }
  }
}
