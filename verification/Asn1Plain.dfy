/** decode and _decode without a definition, on the heap (src/asn1/asn1.cpp:1256-1330): a message that encode wrote
    comes back as the forest that was encoded. */
module Asn1Plain {
  import opened Wrappers
  import opened Asn1Octets
  import opened Asn1Eoc
  import opened Asn1Ber
  import opened Asn1Node
  import opened Asn1Pool
  import opened Asn1Parse
  import opened Asn1Encode
  import opened Asn1Decode

  /** The pool's nodes and records, in the order in which they are handed out. */
  ghost predicate Arena(ns: seq<ASN1Node>, vs: seq<TLVNode>, N: set<ASN1Node>, V: set<TLVNode>) {
    |vs| <= |ns| && Distinct(ns) && Distinct(vs) && Members(ns, N) && Members(vs, V)
  }

  /** Where a level stands that began with children `before` after k requests. */
  ghost predicate PlainAt(root: ASN1Node, pool: ASN1Pool, ns: seq<ASN1Node>, vs: seq<TLVNode>,
                          before: seq<ASN1Node>, k: nat, found: Parsed)
    reads root, pool, ns, vs
  {
    && found.Parsed? && k <= found.made <= |vs| <= |ns| && PoolAt(pool, ns, vs, found.made, found.made)
    && Grown(root, before, found.forest, k, found.made, ns, vs)
  }

  /** The run from cursor c stays inside the model: it reads inside the buffer, and every element it finds gets a record
      that no earlier element of the run holds. */
  ghost predicate Stays(mem: seq<byte>, off: nat, len: nat, limit: nat, c: Cursor) {
    Parse(mem, off, len, None, true, limit, c) != Parsed.Outside
  }

  // ---------------------------------------------------------------- when a run on an encoded forest stays inside

  /** The next n elements of the level are there, more follow, and none of the n has anything inside. */
  ghost predicate BareStart(bs: seq<Ber>, n: nat) {
    n < |bs| && CountAll(bs[..n]) == n
  }

  lemma {:induction false} CountAtLeastLength(bs: seq<Ber>)
    ensures CountAll(bs) >= |bs|
  {
    if bs != [] {
      CountAtLeast(bs[0]);
      CountAtLeastLength(bs[1..]);
    }
  }

  lemma BareStep(bs: seq<Ber>, n: nat)
    requires bs != [] && n > 0
    ensures BareStart(bs, n) <==> Count(bs[0]) == 1 && BareStart(bs[1..], n - 1)
    ensures Count(bs[0]) > n ==> !BareStart(bs, n)
  {
    if n < |bs| {
      assert bs[..n][0] == bs[0] && bs[..n][1..] == bs[1..][..n - 1];
      CountAtLeastLength(bs[1..][..n - 1]);
      CountAtLeast(bs[0]);
    }
  }

  /** What a run that has found `level` elements on its level and made `made` requests does with the forest bs. */
  ghost predicate RunEnds(r: Parsed, bs: seq<Ber>, level: nat, made: nat, limit: nat)
    requires AllSendable(bs) && made <= limit
  {
    if made + CountAll(bs) <= limit then r.Parsed? && r.forest == Images(bs) && r.made == made + CountAll(bs)
    else if level == made && BareStart(bs, limit - made) then r == Failed(400)
    else r == Parsed.Outside
  }

  /** The exact outcome on the encoding of a forest, up to the first record that is used again.  When the forest has no
      more elements than the pool has records, the run finds it.  Otherwise it is refused with 400 before any record is
      used again if and only if all the elements it found so far lie on the outermost level with nothing inside. */
  lemma {:induction false} EncodedRun(mem: seq<byte>, off: nat, len: nat, limit: nat, c: Cursor, bs: seq<Ber>)
    requires AllSendable(bs) && AllLowTags(bs) && |mem| < 0x8000_0000
    requires Here(mem, off + c.pos, EncodingOfAll(bs)) && len == c.pos + |EncodingOfAll(bs)|
    requires c.level <= c.made <= limit && c.matched == None
    ensures RunEnds(Parse(mem, off, len, None, true, limit, c), bs, c.level, c.made, limit)
    decreases bs
  {
    hide ReadHeader, Encoding, Content, Image, Here, Parse, BareStart;
    if c.made + CountAll(bs) <= limit {
      ParseUndoesEncoding(mem, off, len, None, true, limit, c, bs);
    } else if c.made == limit {
      EncodingNotEmpty(bs);
      ParseRefuses(mem, off, len, None, true, limit, c);
      assert BareStart(bs, 0) by { BareNothing(bs); }
    } else {
      EncodedTurn(mem, off, len, limit, c, bs);
    }
  }

  lemma BareNothing(bs: seq<Ber>)
    requires bs != []
    ensures BareStart(bs, 0)
  {
    assert bs[..0] == [];
  }

  lemma EncodingNotEmpty(bs: seq<Ber>)
    requires AllSendable(bs) && CountAll(bs) > 0
    ensures bs != [] && |EncodingOfAll(bs)| > 0
  {
    assert |Encoding(bs[0])| > 0;
  }

  /** The turn that reads the first element of a forest that is too large. */
  lemma EncodedTurn(mem: seq<byte>, off: nat, len: nat, limit: nat, c: Cursor, bs: seq<Ber>)
    requires AllSendable(bs) && AllLowTags(bs) && |mem| < 0x8000_0000
    requires Here(mem, off + c.pos, EncodingOfAll(bs)) && len == c.pos + |EncodingOfAll(bs)|
    requires c.level <= c.made < limit < c.made + CountAll(bs) && c.matched == None
    ensures RunEnds(Parse(mem, off, len, None, true, limit, c), bs, c.level, c.made, limit)
    decreases bs, 0
  {
    hide ReadHeader, Encoding, Content, Image, Here, Parse, BareStart, LowTags, Count;
    EncodingNotEmpty(bs);
    var b, rest := bs[0], bs[1..];
    assert Sendable(b) && LowTags(b);
    CountParts(b);
    HereSplit(mem, off + c.pos, Encoding(b), EncodingOfAll(rest));
    var t, at := HeaderOfEncoding(mem, off, len, c.pos, b);
    var inner := PlainInner(mem, off, at, limit, c.made, t);
    CountAtLeast(b);
    if b.Cons? {
      EncodedRun(mem, off + at, |t.value|, limit, Cursor(0, 0, None, 0, c.made + 1), b.kids);
    }
    var c' := if inner.Parsed? then Cursor(at + |t.value| + Trailer(t), c.next, None, c.level + 1, inner.made) else c;
    PlainTurn(mem, off, len, limit, c, t, at, inner, c');
    BareStep(bs, limit - c.made);
    if inner.Parsed? {
      EncodedRun(mem, off, len, limit, c', rest);
    }
  }

  lemma CountParts(b: Ber)
    requires Sendable(b) && LowTags(b)
    ensures b.tag <= 127 && Count(b) == if b.Cons? then 1 + CountAll(b.kids) else 1
    ensures b.Cons? ==> AllSendable(b.kids) && AllLowTags(b.kids)
  {
  }

  /** So on an encoded forest a run stays inside the model exactly when the pool has a record for every element, or when
      the first so many elements are bare ones of the outermost level and more follow. */
  lemma EncodedStays(mem: seq<byte>, off: nat, limit: nat, bs: seq<Ber>)
    requires AllSendable(bs) && AllLowTags(bs) && |mem| < 0x8000_0000 && Here(mem, off, EncodingOfAll(bs))
    ensures var len, c := |EncodingOfAll(bs)|, Cursor(0, 0, None, 0, 0);
            && (Stays(mem, off, len, limit, c) <==> CountAll(bs) <= limit || BareStart(bs, limit))
            && (Parse(mem, off, len, None, true, limit, c).Parsed? <==> CountAll(bs) <= limit)
            && (Parse(mem, off, len, None, true, limit, c) == Failed(400) <==> BareStart(bs, limit))
  {
    hide Parse, Images, AllLowTags, EncodingOfAll;
    assert off + 0 == off;
    EncodedRun(mem, off, |EncodingOfAll(bs)|, limit, Cursor(0, 0, None, 0, 0), bs);
    if BareStart(bs, limit) {
      BareIsMore(bs, limit);
    }
  }

  lemma BareIsMore(bs: seq<Ber>, n: nat)
    requires BareStart(bs, n)
    ensures CountAll(bs) > n
  {
    CountAtLeastLength(bs);
  }

  // ---------------------------------------------------------------- what is returned when records are used again

  /** What the loop reads back from its record after the contents: how far the element goes. */
  datatype Slot = Slot(length: nat, trailer: nat)

  datatype Ended = EndedOutside | Ended(code: int, made: nat, slots: map<nat, Slot>)

  function SlotAt(slots: map<nat, Slot>, i: nat): Slot {
    if i in slots then slots[i] else Slot(0, 0)
  }

  /** The loop with records that come round: the j-th request hands out record j % limit, whatever it holds; after the
      contents of an element the loop goes on from what its record says then. */
  ghost function Returned(mem: seq<byte>, off: nat, len: nat, limit: nat, pos: nat, level: nat, made: nat,
                          slots: map<nat, Slot>): Ended
    requires limit > 0
    decreases |mem| - off, |mem| - off - pos
  {
    if pos >= len then Ended(0, made, slots)
    else if level + 1 > limit then Ended(400, made, slots)
    else
      match ReadHeader(mem, off, len, pos)
      case HeaderOutside => EndedOutside
      case HeaderFailed(code) => Ended(code, made, slots)
      case Header(t, at) =>
        var own := made % limit;
        var written := slots[own := Slot(|t.value|, Trailer(t))];
        var inner := if t.constructed then Returned(mem, off + at, |t.value|, limit, 0, 0, made + 1, written)
                     else Ended(0, made + 1, written);
        if inner.EndedOutside? || inner.code != 0 then inner
        else
          var s := SlotAt(inner.slots, own);
          Returned(mem, off, len, limit, at + s.length + s.trailer, level + 1, inner.made, inner.slots)
  }

  /** Records other than those of requests m to n are as they were. */
  ghost predicate Untouched(slots: map<nat, Slot>, slots': map<nat, Slot>, m: nat, n: nat, limit: nat)
    requires limit > 0
  {
    forall i: nat :: (forall j :: m <= j < n ==> j % limit != i) ==> SlotAt(slots', i) == SlotAt(slots, i)
  }

  /** One turn, when the contents leave the element's own record alone. */
  lemma ReturnedTurn(mem: seq<byte>, off: nat, len: nat, limit: nat, pos: nat, level: nat, made: nat,
                     slots: map<nat, Slot>, t: Tlv, at: nat, inner: Ended)
    requires limit > level && pos < len && ReadHeader(mem, off, len, pos) == Header(t, at)
    requires var written := slots[made % limit := Slot(|t.value|, Trailer(t))];
             inner == if t.constructed then Returned(mem, off + at, |t.value|, limit, 0, 0, made + 1, written)
                      else Ended(0, made + 1, written)
    ensures inner.EndedOutside? || inner.code != 0 ==> Returned(mem, off, len, limit, pos, level, made, slots) == inner
    ensures inner.Ended? && inner.code == 0 && SlotAt(inner.slots, made % limit) == Slot(|t.value|, Trailer(t)) ==>
              Returned(mem, off, len, limit, pos, level, made, slots)
              == Returned(mem, off, len, limit, at + |t.value| + Trailer(t), level + 1, inner.made, inner.slots)
  {
    hide ReadHeader;
  }

  /** No element holds as many elements as the pool has records. */
  ghost predicate Roomy(bs: seq<Ber>, limit: nat)
    decreases bs
  {
    forall b | b in bs :: b.Cons? ==> CountAll(b.kids) < limit && Roomy(b.kids, limit)
  }

  lemma OwnSlot(made: nat, n: nat, limit: nat)
    requires n < limit
    ensures forall j :: made + 1 <= j < made + 1 + n ==> j % limit != made % limit
  {
    forall j | made + 1 <= j < made + 1 + n ensures j % limit != made % limit {
      if j % limit == made % limit {
        AtLeastOnce(limit, j / limit - made / limit, j - made);
      }
    }
  }

  lemma AtLeastOnce(limit: nat, k: int, n: nat)
    requires n == limit * k && n > 0
    ensures n >= limit
  {
    NoMoreThanNone(limit, -k);
  }

  lemma NoMoreThanNone(limit: nat, k: int)
    ensures k >= 0 ==> limit * k >= 0 && limit * -k <= 0
  {
  }

  /** The slots two stretches of requests leave alone. */
  lemma UntouchedOnward(a: map<nat, Slot>, b: map<nat, Slot>, c: map<nat, Slot>, m: nat, n: nat, k: nat, limit: nat)
    requires limit > 0 && m <= n <= k && Untouched(a, b, m, n, limit) && Untouched(b, c, n, k, limit)
    ensures Untouched(a, c, m, k, limit)
  {
    hide SlotAt;
    forall i: nat | forall j :: m <= j < k ==> j % limit != i ensures SlotAt(c, i) == SlotAt(a, i) {
      assert SlotAt(b, i) == SlotAt(a, i);
    }
  }

  lemma OwnRequest(slots: map<nat, Slot>, made: nat, s: Slot, limit: nat)
    requires limit > 0
    ensures Untouched(slots, slots[made % limit := s], made, made + 1, limit)
  {
    forall i: nat | forall j :: made <= j < made + 1 ==> j % limit != i
      ensures SlotAt(slots[made % limit := s], i) == SlotAt(slots, i)
    {
      assert made <= made < made + 1;
    }
  }

  lemma SameSlots(slots: map<nat, Slot>, made: nat, limit: nat)
    requires limit > 0
    ensures Untouched(slots, slots, made, made, limit)
  {
  }

  /** What the run returns: 400 if the level has more elements than the pool has records, or else 0. */
  ghost predicate ReturnsBy(r: Ended, bs: seq<Ber>, level: nat, made: nat, limit: nat, slots: map<nat, Slot>)
    requires limit > 0
  {
    && r.Ended?
    && if level + |bs| <= limit then
         r.code == 0 && r.made == made + CountAll(bs) && Untouched(slots, r.slots, made, r.made, limit)
       else r.code == 400
  }

  lemma {:induction false} RoomyRun(mem: seq<byte>, off: nat, len: nat, limit: nat, pos: nat, level: nat, made: nat,
                                    slots: map<nat, Slot>, bs: seq<Ber>)
    requires AllSendable(bs) && AllLowTags(bs) && Roomy(bs, limit) && |mem| < 0x8000_0000
    requires Here(mem, off + pos, EncodingOfAll(bs)) && len == pos + |EncodingOfAll(bs)|
    requires level <= limit && limit > 0
    ensures ReturnsBy(Returned(mem, off, len, limit, pos, level, made, slots), bs, level, made, limit, slots)
    decreases bs, 1
  {
    hide ReadHeader, Encoding, Content, Image, Here, Untouched, LowTags, Count, SlotAt;
    if bs == [] {
      SameSlots(slots, made, limit);
    } else {
      CountAllPositive(bs);
      EncodingNotEmpty(bs);
      if level < limit {
        RoomyTurn(mem, off, len, limit, pos, level, made, slots, bs);
      }
    }
  }

  lemma CountAllPositive(bs: seq<Ber>)
    requires bs != []
    ensures CountAll(bs) > 0
  {
    CountAtLeastLength(bs);
  }

  lemma {:induction false} RoomyTurn(mem: seq<byte>, off: nat, len: nat, limit: nat, pos: nat, level: nat, made: nat,
                                     slots: map<nat, Slot>, bs: seq<Ber>)
    requires AllSendable(bs) && AllLowTags(bs) && Roomy(bs, limit) && |mem| < 0x8000_0000 && bs != []
    requires Here(mem, off + pos, EncodingOfAll(bs)) && len == pos + |EncodingOfAll(bs)| > pos
    requires level < limit
    ensures ReturnsBy(Returned(mem, off, len, limit, pos, level, made, slots), bs, level, made, limit, slots)
    decreases bs, 0
  {
    hide ReadHeader, Encoding, Content, Image, Here, Untouched, LowTags, Count, SlotAt, Returned;
    var b, rest := bs[0], bs[1..];
    assert b in bs && Sendable(b) && LowTags(b);
    CountParts(b);
    HereSplit(mem, off + pos, Encoding(b), EncodingOfAll(rest));
    var t, at := HeaderOfEncoding(mem, off, len, pos, b);
    var s := Slot(|t.value|, Trailer(t));
    var written := slots[made % limit := s];
    var inner := if t.constructed then Returned(mem, off + at, |t.value|, limit, 0, 0, made + 1, written)
                 else Ended(0, made + 1, written);
    if b.Cons? {
      CountAtLeastLength(b.kids);
      RoomyRun(mem, off + at, |t.value|, limit, 0, 0, made + 1, written, b.kids);
    } else {
      SameSlots(written, made + 1, limit);
    }
    OwnSlot(made, Count(b) - 1, limit);
    StillOwn(slots, written, inner.slots, made, s, inner.made, limit);
    ReturnedTurn(mem, off, len, limit, pos, level, made, slots, t, at, inner);
    RoomyRun(mem, off, len, limit, at + |t.value| + Trailer(t), level + 1, inner.made, inner.slots, rest);
    var r := Returned(mem, off, len, limit, at + |t.value| + Trailer(t), level + 1, inner.made, inner.slots);
    if level + |bs| <= limit {
      UntouchedOnward(slots, inner.slots, r.slots, made, inner.made, r.made, limit);
    }
  }

  lemma StillOwn(slots: map<nat, Slot>, written: map<nat, Slot>, after: map<nat, Slot>, made: nat, s: Slot, n: nat,
                 limit: nat)
    requires limit > 0 && n >= made + 1 && written == slots[made % limit := s]
    requires Untouched(written, after, made + 1, n, limit)
    requires forall j :: made + 1 <= j < n ==> j % limit != made % limit
    ensures SlotAt(after, made % limit) == s && Untouched(slots, after, made, n, limit)
  {
    OwnRequest(slots, made, s, limit);
    UntouchedOnward(slots, written, after, made, made + 1, n, limit);
  }

  /** On an encoded forest in which no element holds as many elements as the pool has records, decode returns 400 if and
      only if there are more outermost elements than records, and 0 otherwise, also when it has used records again. */
  lemma ReturnsIff(mem: seq<byte>, off: nat, limit: nat, bs: seq<Ber>, slots: map<nat, Slot>)
    requires AllSendable(bs) && AllLowTags(bs) && Roomy(bs, limit) && limit > 0
    requires |mem| < 0x8000_0000 && Here(mem, off, EncodingOfAll(bs))
    ensures var r := Returned(mem, off, |EncodingOfAll(bs)|, limit, 0, 0, 0, slots);
            r.Ended? && r.code == if |bs| > limit then 400 else 0
  {
    hide Returned, AllLowTags, Roomy, EncodingOfAll;
    assert off + 0 == off;
    RoomyRun(mem, off, |EncodingOfAll(bs)|, limit, 0, 0, 0, slots, bs);
  }

  /** As long as no record is used again, that is what the loop below returns. */
  lemma {:induction false} ReturnedAgrees(mem: seq<byte>, off: nat, len: nat, limit: nat, c: Cursor,
                                          slots: map<nat, Slot>)
    requires limit > 0 && c.level <= c.made <= limit && c.matched == None && Stays(mem, off, len, limit, c)
    ensures var p, r := Parse(mem, off, len, None, true, limit, c),
                        Returned(mem, off, len, limit, c.pos, c.level, c.made, slots);
            && r.Ended? && (p.Parsed? ==> r.code == 0 && r.made == p.made) && (p.Failed? ==> r.code == p.code != 0)
            && forall i | 0 <= i < c.made :: SlotAt(r.slots, i) == SlotAt(slots, i)
    decreases |mem| - off, |mem| - off - c.pos
  {
    hide ReadHeader, Parse, Returned, SlotAt;
    if c.pos < len {
      ParseRefuses(mem, off, len, None, true, limit, c);
    }
    ReturnedEnds(mem, off, len, limit, c.pos, c.level, c.made, slots);
    ParseAtEnd(mem, off, len, None, true, limit, c);
    if c.pos < len && c.level < limit && c.made < limit && ReadHeader(mem, off, len, c.pos).Header? {
      var t, at := ReadHeader(mem, off, len, c.pos).tlv, ReadHeader(mem, off, len, c.pos).at;
      var written := slots[c.made := Slot(|t.value|, Trailer(t))];
      var parsed := PlainInner(mem, off, at, limit, c.made, t);
      var inner := if t.constructed then Returned(mem, off + at, |t.value|, limit, 0, 0, c.made + 1, written)
                   else Ended(0, c.made + 1, written);
      assert c.made % limit == c.made;
      var c' := if parsed.Parsed? then Cursor(at + |t.value| + Trailer(t), c.next, None, c.level + 1, parsed.made)
                else c;
      PlainTurn(mem, off, len, limit, c, t, at, parsed, c');
      if t.constructed {
        ReturnedAgrees(mem, off + at, |t.value|, limit, Cursor(0, 0, None, 0, c.made + 1), written);
      }
      SlotWritten(slots, c.made, Slot(|t.value|, Trailer(t)));
      ReturnedTurn(mem, off, len, limit, c.pos, c.level, c.made, slots, t, at, inner);
      if parsed.Parsed? {
        MadeMore(mem, off, at, limit, c.made, t);
        ReturnedAgrees(mem, off, len, limit, c', inner.slots);
      }
    }
  }

  lemma SlotWritten(slots: map<nat, Slot>, made: nat, s: Slot)
    ensures SlotAt(slots[made := s], made) == s
    ensures forall i | 0 <= i < made :: SlotAt(slots[made := s], i) == SlotAt(slots, i)
  {
  }

  lemma MadeMore(mem: seq<byte>, off: nat, at: nat, limit: nat, made: nat, t: Tlv)
    requires made < limit && PlainInner(mem, off, at, limit, made, t).Parsed?
    ensures made + 1 <= PlainInner(mem, off, at, limit, made, t).made <= limit
  {
    hide Parse;
    if t.constructed {
      ParseMade(mem, off + at, |t.value|, None, true, limit, Cursor(0, 0, None, 0, made + 1));
    }
  }

  lemma ReturnedEnds(mem: seq<byte>, off: nat, len: nat, limit: nat, pos: nat, level: nat, made: nat,
                     slots: map<nat, Slot>)
    requires limit > 0
    ensures var r := Returned(mem, off, len, limit, pos, level, made, slots);
            && (pos >= len ==> r == Ended(0, made, slots))
            && (pos < len && level >= limit ==> r == Ended(400, made, slots))
            && (pos < len && level < limit && ReadHeader(mem, off, len, pos).HeaderFailed? ==>
                  r == Ended(ReadHeader(mem, off, len, pos).code, made, slots))
  {
    hide ReadHeader;
  }

  // ---------------------------------------------------------------- the loop on the heap

  /** A record from the pool, read from the element at pos. */
  method PlainRecord(mem: seq<byte>, off: nat, len: nat, pos: nat, pool: ASN1Pool, usedNc: nat,
                     ghost k: nat, ghost ns: seq<ASN1Node>, ghost vs: seq<TLVNode>, ghost V: set<TLVNode>)
      returns (full: bool, tlv: TLVNode, h: Header)
    requires PoolAt(pool, ns, vs, k, k) && Distinct(vs) && Members(vs, V) && (usedNc + 1 <= |vs| ==> k + 1 <= |vs|)
    modifies pool`freeTlvCount, pool`nextFreeTlv, V
    ensures full <==> usedNc + 1 > |vs|
    ensures !full ==>
              && h == ReadHeader(mem, off, len, pos) && tlv == vs[k] && (h.Header? ==> Reads(tlv, h.tlv))
              && PoolAt(pool, ns, vs, k, k + 1) && forall i | 0 <= i < k :: unchanged(vs[i])
  {
    hide ReadHeader, Ahead;
    if k < |vs| {
      TurnedOnce(vs, k);
    } else {
      assert Turned(vs, k)[0] == vs[0];
    }
    tlv := pool.RequestTlv();
    tlv.valueLength := 0;
    full, h := usedNc + 1 > pool.tlvCount, HeaderOutside;
    if full {
      return;
    }
    h := ReadElement(mem, off, len, pos, tlv, false);
  }

  /** A node from the pool for the record, hung under root; its other fields keep what they held before. */
  method PlainNode(pool: ASN1Pool, root: ASN1Node, tlv: TLVNode, ghost k: nat, ghost ns: seq<ASN1Node>,
                   ghost vs: seq<TLVNode>)
      returns (n: ASN1Node)
    requires k < |vs| && PoolAt(pool, ns, vs, k, k + 1) && root != ns[k]
    modifies pool`freeAsn1NodeCount, pool`nextFreeAsn1Node, root`children, {ns[k]}
    ensures PoolAt(pool, ns, vs, k + 1, k + 1) && n == ns[k] && n.children == [] && n.tlv == tlv
    ensures root.children == old(root.children) + [n]
  {
    hide Ahead;
    TurnedOnce(ns, k);
    n := pool.RequestAsn1Node();
    n.children := [];
    n.tlv := tlv;
    root.children := root.children + [n];
  }

  /** Record and node for the element at pos. */
  method PlainBegin(mem: seq<byte>, off: nat, len: nat, root: ASN1Node, pool: ASN1Pool, usedNc: nat, pos: nat,
                    ghost k: nat, ghost ns: seq<ASN1Node>, ghost vs: seq<TLVNode>, ghost N: set<ASN1Node>,
                    ghost V: set<TLVNode>,
                    ghost c: Cursor)
      returns (r: int, n: ASN1Node?, at: nat, ghost t: Tlv)
    requires PoolAt(pool, ns, vs, k, k) && Arena(ns, vs, N, V) && NotAhead(root, k, ns)
    requires c.pos == pos < len && c.made == k && c.level == usedNc && Stays(mem, off, len, |vs|, c)
    modifies pool`freeTlvCount, pool`nextFreeTlv, pool`freeAsn1NodeCount, pool`nextFreeAsn1Node
    modifies root`children, N, V
    ensures r != 0 ==> Parse(mem, off, len, None, true, |vs|, c) == Failed(r)
    ensures r == 0 ==>
              && n != null && usedNc + 1 <= |vs| && k + 1 <= |vs| && ReadHeader(mem, off, len, pos) == Header(t, at)
              && n == ns[k] && n.tlv == vs[k] && n.children == [] && Reads(vs[k], t)
              && root.children == old(root.children) + [n]
              && PoolAt(pool, ns, vs, k + 1, k + 1) && Below(root, k, ns, vs) == old(Below(root, k, ns, vs))
  {
    hide ReadHeader, Reads, Ahead, Turned, Parse;
    r, n, at, t := 400, null, 0, NoTlv();
    ParseRefuses(mem, off, len, None, true, |vs|, c);
    var full, tlv, h := PlainRecord(mem, off, len, pos, pool, usedNc, k, ns, vs, V);
    if full {
      return;
    }
    if h.HeaderFailed? {
      r := h.code;
      return;
    }
    r, t, at := 0, h.tlv, h.at;
    n := PlainNode(pool, root, tlv, k, ns, vs);
    BelowFrom(root, k, ns, vs);
  }

  /** The contents of the element have been decoded under n. */
  twostate lemma PlainDone(root: ASN1Node, new n: ASN1Node, new pool: ASN1Pool, new ns: seq<ASN1Node>,
                           new vs: seq<TLVNode>, new before: seq<ASN1Node>, new k: nat, new t: Tlv, new inner: Parsed)
    requires old(allocated(n)) && old(allocated(ns)) && old(allocated(vs)) && old(allocated(before))
    requires k + 1 <= |vs| <= |ns| && n == ns[k] && n != root && old(n.tlv) == vs[k] && old(Reads(vs[k], t))
    requires old(root.children == before + [n]) && Distinct(ns)
    requires PlainAt(n, pool, ns, vs, [], k + 1, inner)
    requires PlaceOf(root) == old(PlaceOf(root)) && Below(n, k + 1, ns, vs) == old(Below(n, k + 1, ns, vs))
    ensures PlainAt(root, pool, ns, vs, before, k, Parsed([t.(kids := inner.forest)], inner.made, inner.marks))
    ensures Below(root, k, ns, vs) == old(Below(root, k, ns, vs))
  {
    hide Built, SizeAll, Below, RecordOf, PoolAt;
    var t' := t.(kids := inner.forest);
    BelowMeans(n, k + 1, ns, vs, k);
    HoldsKept(vs[k], t);
    assert root.children[|before|..] == [n] && n.children[0..] == n.children;
    SizeOne(t');
    BuiltOne([n], t', k, ns, vs);
    forall i | 0 <= i < k
      ensures RecordOf(vs[i]) == old(RecordOf(vs[i])) && (ns[i] == root || PlaceOf(ns[i]) == old(PlaceOf(ns[i])))
    {
      BelowMeans(n, k + 1, ns, vs, i);
    }
    BelowFrom(root, k, ns, vs);
  }

  /** What the contents of the element come to. */
  ghost function PlainInner(mem: seq<byte>, off: nat, at: nat, limit: nat, k: nat, t: Tlv): Parsed {
    if t.constructed then Parse(mem, off + at, |t.value|, None, true, limit, Cursor(0, 0, None, 0, k + 1))
    else Parsed([], k + 1, map[])
  }

  /** The turn that reads t at cursor c. */
  lemma PlainTurn(mem: seq<byte>, off: nat, len: nat, limit: nat, c: Cursor, t: Tlv, at: nat, inner: Parsed, c': Cursor)
    requires c.pos < len && c.made + 1 <= limit && c.level + 1 <= limit &&
             ReadHeader(mem, off, len, c.pos) == Header(t, at)
    requires c.matched == None && inner == PlainInner(mem, off, at, limit, c.made, t)
    requires inner.Parsed? ==> c' == Cursor(at + |t.value| + Trailer(t), c.next, None, c.level + 1, inner.made)
    ensures !inner.Parsed? ==> Parse(mem, off, len, None, true, limit, c) == inner
    ensures inner.Parsed? ==> c.pos < c'.pos && off + c.pos < |mem|
    ensures inner.Parsed? ==>
              Parse(mem, off, len, None, true, limit, c)
              == Before([t.(kids := inner.forest)], inner.marks, Parse(mem, off, len, None, true, limit, c'))
  {
    hide ReadHeader, Parse;
    SearchNothing(c, t);
    ParseOne(mem, off, len, None, true, limit, c, t, at, inner, Parse(mem, off, len, None, true, limit, c'));
    if inner.Parsed? {
      assert map[] + inner.marks == inner.marks;
    }
  }

  /** One turn of the loop; `el` is what it adds. */
  method PlainElement(mem: seq<byte>, off: nat, len: nat, root: ASN1Node, pool: ASN1Pool, usedNc: nat, pos: nat,
                      ghost k: nat, ghost ns: seq<ASN1Node>, ghost vs: seq<TLVNode>, ghost N: set<ASN1Node>,
                      ghost V: set<TLVNode>,
                      ghost c: Cursor)
      returns (r: int, pos': nat, ghost el: Parsed, ghost c': Cursor)
    requires PoolAt(pool, ns, vs, k, k) && Arena(ns, vs, N, V) && NotAhead(root, k, ns)
    requires c == Cursor(pos, 0, None, usedNc, k) && pos < len && Stays(mem, off, len, |vs|, c)
    modifies pool`freeTlvCount, pool`nextFreeTlv, pool`freeAsn1NodeCount, pool`nextFreeAsn1Node
    modifies root`children, N, V
    ensures r != 0 ==> Parse(mem, off, len, None, true, |vs|, c) == Failed(r)
    ensures r == 0 ==>
              && PlainAt(root, pool, ns, vs, old(root.children), k, el) && |vs| <= |ns| && k <= |vs|
              && Below(root, k, ns, vs) == old(Below(root, k, ns, vs))
              && |el.forest| == 1 && c' == Cursor(pos', 0, None, usedNc + 1, el.made) && pos < pos' && off + pos < |mem|
              && Parse(mem, off, len, None, true, |vs|, c)
                 == Before(el.forest, el.marks, Parse(mem, off, len, None, true, |vs|, c'))
    decreases |mem| - off, 0, 1
  {
    hide ReadHeader, Reads, Parse, Before, PoolAt, Grown, Below, Built, Distinct, Members, NotAhead;
    var n, at;
    ghost var t;
    el, c', pos' := Parsed.Outside, c, pos;
    ghost var before := root.children;
    r, n, at, t := PlainBegin(mem, off, len, root, pool, usedNc, pos, k, ns, vs, N, V, c);
    if r == 0 {
      ghost var inner := PlainInner(mem, off, at, |vs|, k, t);
      c' := if inner.Parsed? then Cursor(at + |t.value| + Trailer(t), 0, None, usedNc + 1, inner.made) else c;
      PlainTurn(mem, off, len, |vs|, c, t, at, inner, c');
      r, pos' := PlainFinish(mem, off, root, n, pool, at, k, ns, vs, N, V, before, t, inner);
      if r == 0 {
        el := Parsed([t.(kids := inner.forest)], inner.made, inner.marks);
      }
    }
  }

  /** The second half of a turn: the contents of a constructed element, counted afresh, and the position after it. */
  method PlainFinish(mem: seq<byte>, off: nat, root: ASN1Node, n: ASN1Node, pool: ASN1Pool, at: nat,
                     ghost k: nat, ghost ns: seq<ASN1Node>, ghost vs: seq<TLVNode>, ghost N: set<ASN1Node>,
                     ghost V: set<TLVNode>,
                     ghost before: seq<ASN1Node>, ghost t: Tlv, ghost inner: Parsed)
      returns (r: int, pos': nat)
    requires Arena(ns, vs, N, V) && NotAhead(root, k, ns) && k + 1 <= |vs| && PoolAt(pool, ns, vs, k + 1, k + 1)
    requires n == ns[k] && n.tlv == vs[k] && n.children == [] && Reads(vs[k], t) && root.children == before + [n]
    requires inner == PlainInner(mem, off, at, |vs|, k, t) && inner != Parsed.Outside && off < |mem| && at > 0
    modifies pool`freeTlvCount, pool`nextFreeTlv, pool`freeAsn1NodeCount, pool`nextFreeAsn1Node, N, V
    ensures r == 0 <==> inner.Parsed?
    ensures r != 0 ==> inner == Failed(r)
    ensures r == 0 ==>
              && pos' == at + |t.value| + Trailer(t)
              && PlainAt(root, pool, ns, vs, before, k, Parsed([t.(kids := inner.forest)], inner.made, inner.marks))
              && |vs| <= |ns| && Below(root, k, ns, vs) == old(Below(root, k, ns, vs))
    decreases |mem| - off, 0, 0
  {
    hide Parse, PoolAt, Below, Members, Distinct;
    r := 0;
    pos' := at + n.tlv.valueLength + if n.tlv.lengthType == Indefinite then 2 else 0;
    NodesIn(root, n, k, ns, N);
    if n.tlv.complexity == Constructed {
      ghost var p;
      r, p := PlainLevel(mem, off + at, n.tlv.valueLength, n, pool, k + 1, ns, vs, N, V);
    } else {
      GrownNothing(n, k + 1, ns, vs);
    }
    if r == 0 {
      RootKept(root, k, ns, vs, N);
      PlainDone(root, n, pool, ns, vs, before, k, t, inner);
    }
  }

  lemma NodesIn(root: ASN1Node, n: ASN1Node, k: nat, ns: seq<ASN1Node>, N: set<ASN1Node>)
    requires Members(ns, N) && Distinct(ns) && k < |ns| && n == ns[k] && NotAhead(root, k, ns)
    ensures n in N && n != root && NotAhead(n, k + 1, ns)
  {
  }

  /** _decode without a definition, for one level. */
  method PlainLevel(mem: seq<byte>, off: nat, len: nat, root: ASN1Node, pool: ASN1Pool,
                    ghost k: nat, ghost ns: seq<ASN1Node>, ghost vs: seq<TLVNode>, ghost N: set<ASN1Node>,
                    ghost V: set<TLVNode>)
      returns (r: int, ghost p: Parsed)
    requires PoolAt(pool, ns, vs, k, k) && Arena(ns, vs, N, V) && NotAhead(root, k, ns)
    requires Stays(mem, off, len, |vs|, Cursor(0, 0, None, 0, k))
    modifies pool`freeTlvCount, pool`nextFreeTlv, pool`freeAsn1NodeCount, pool`nextFreeAsn1Node
    modifies root`children, N, V
    ensures p == Parse(mem, off, len, None, true, |vs|, Cursor(0, 0, None, 0, k))
    ensures r == 0 <==> p.Parsed?
    ensures r != 0 ==> p == Failed(r)
    ensures r == 0 ==>
              && PlainAt(root, pool, ns, vs, old(root.children), k, p) && k <= |vs| <= |ns|
              && Below(root, k, ns, vs) == old(Below(root, k, ns, vs))
    decreases |mem| - off, 1
  {
    hide Parse, Before, PoolAt, PlainAt, Below, Members, NotAhead, Grown;
    ghost var before := root.children;
    var pos, usedNc := 0, 0;
    ghost var c := Cursor(0, 0, None, 0, k);
    p := Parse(mem, off, len, None, true, |vs|, c);
    ghost var found := Parsed([], k, map[]);
    PlainStarts(root, pool, ns, vs, k);
    BeforeNothing(p);
    while pos < len
      invariant found.Parsed? && c == Cursor(pos, 0, None, usedNc, found.made)
      invariant p == Before(found.forest, found.marks, Parse(mem, off, len, None, true, |vs|, c))
      invariant PlainAt(root, pool, ns, vs, before, k, found)
      invariant Below(root, k, ns, vs) == old(Below(root, k, ns, vs))
      decreases |mem| - off - pos
    {
      var pos';
      r, pos', found, c := PlainStep(mem, off, len, root, pool, usedNc, pos, k, ns, vs, N, V, c, before, found, p);
      if r != 0 {
        return;
      }
      pos, usedNc := pos', usedNc + 1;
    }
    LevelEnds(mem, off, len, |vs|, c, found, p);
    r := 0;
  }

  lemma PlainStarts(root: ASN1Node, pool: ASN1Pool, ns: seq<ASN1Node>, vs: seq<TLVNode>, k: nat)
    requires PoolAt(pool, ns, vs, k, k)
    ensures PlainAt(root, pool, ns, vs, root.children, k, Parsed([], k, map[]))
  {
    GrownNothing(root, k, ns, vs);
  }

  lemma LevelEnds(mem: seq<byte>, off: nat, len: nat, limit: nat, c: Cursor, found: Parsed, p: Parsed)
    requires c.pos >= len && found.Parsed? && found.made == c.made
    requires p == Before(found.forest, found.marks, Parse(mem, off, len, None, true, limit, c))
    ensures p == found
  {
    BeforeTheEnd(found);
  }

  /** A turn, added to what the turns before it have found. */
  method PlainStep(mem: seq<byte>, off: nat, len: nat, root: ASN1Node, pool: ASN1Pool, usedNc: nat, pos: nat,
                   ghost k: nat, ghost ns: seq<ASN1Node>, ghost vs: seq<TLVNode>, ghost N: set<ASN1Node>,
                   ghost V: set<TLVNode>,
                   ghost c: Cursor, ghost before: seq<ASN1Node>, ghost found: Parsed, ghost p: Parsed)
      returns (r: int, pos': nat, ghost found': Parsed, ghost c': Cursor)
    requires Arena(ns, vs, N, V) && NotAhead(root, k, ns) && PlainAt(root, pool, ns, vs, before, k, found)
    requires c == Cursor(pos, 0, None, usedNc, found.made) && pos < len && p != Parsed.Outside
    requires p == Before(found.forest, found.marks, Parse(mem, off, len, None, true, |vs|, c))
    modifies pool`freeTlvCount, pool`nextFreeTlv, pool`freeAsn1NodeCount, pool`nextFreeAsn1Node
    modifies root`children, N, V
    ensures r != 0 ==> p == Failed(r)
    ensures r == 0 ==>
              && PlainAt(root, pool, ns, vs, before, k, found') && found'.Parsed? && k <= |vs| <= |ns|
              && Below(root, k, ns, vs) == old(Below(root, k, ns, vs))
              && c' == Cursor(pos', 0, None, usedNc + 1, found'.made) && pos < pos' && off + pos < |mem|
              && p == Before(found'.forest, found'.marks, Parse(mem, off, len, None, true, |vs|, c'))
    decreases |mem| - off, 0, 2
  {
    hide Parse, PoolAt, Below, Members, Distinct, NotAhead;
    AheadLess(root, k, found.made, ns);
    ghost var el;
    r, pos', el, c' := PlainElement(mem, off, len, root, pool, usedNc, pos, found.made, ns, vs, N, V, c);
    found' := found;
    if r == 0 {
      LevelGrows(root, before, found, el, k, pool, ns, vs);
      BelowLess(root, k, found.made, ns, vs);
      BeforeBefore(found.forest, found.marks, el.forest, el.marks, Parse(mem, off, len, None, true, |vs|, c'));
      found' := Parsed(found.forest + el.forest, el.made, found.marks + el.marks);
    }
  }

  twostate lemma LevelGrows(root: ASN1Node, new before: seq<ASN1Node>, new found: Parsed, new el: Parsed, new k: nat,
                            new pool: ASN1Pool, new ns: seq<ASN1Node>, new vs: seq<TLVNode>)
    requires old(allocated(before)) && old(allocated(pool)) && old(allocated(ns)) && old(allocated(vs))
    requires old(PlainAt(root, pool, ns, vs, before, k, found)) && Distinct(ns) && NotAhead(root, k, ns)
    requires PlainAt(root, pool, ns, vs, old(root.children), found.made, el) && |el.forest| == 1
    requires Below(root, found.made, ns, vs) == old(Below(root, found.made, ns, vs))
    ensures PlainAt(root, pool, ns, vs, before, k, Parsed(found.forest + el.forest, el.made, found.marks + el.marks))
  {
    hide Below, Grown, PoolAt, Distinct, NotAhead;
    assert el.forest == [el.forest[0]];
    GrownThen(root, before, found.forest, el.forest[0], k, found.made, el.made, ns, vs);
  }

  /** decode without a definition: when the run stays inside the model, the result is 0 exactly when the loop finishes,
      and then the forest hangs under root, held by nodes and records of the pool that no two elements share. */
  method DecodePlain(mem: seq<byte>, off: nat, len: nat, root: ASN1Node, pool: ASN1Pool)
      returns (r: int, ghost p: Parsed)
    requires pool.Valid() && pool.asn1NodeCount >= pool.tlvCount && root !in pool.asn1Pool
    requires Stays(mem, off, len, pool.tlvCount, Cursor(0, 0, None, 0, 0))
    modifies pool`freeTlvCount, pool`nextFreeTlv, pool`freeAsn1NodeCount, pool`nextFreeAsn1Node
    modifies root`children, set x | x in pool.asn1Pool, set x | x in pool.tlvPool
    ensures p == Parse(mem, off, len, None, true, pool.tlvCount, Cursor(0, 0, None, 0, 0))
    ensures if p.Parsed? then r == 0 else p == Failed(r) && r != 0
    ensures r == 0 ==>
              var ns, vs := old(pool.NodesAhead()), old(pool.TlvsAhead());
              p.made <= |vs| <= |ns| && Grown(root, old(root.children), p.forest, 0, p.made, ns, vs)
  {
    hide Parse, Grown, Ahead;
    ghost var ns, vs, N, V := pool.NodesAhead(), pool.TlvsAhead(), set x | x in pool.asn1Pool,
      set x | x in pool.tlvPool;
    PoolFresh(pool);
    r, p := PlainLevel(mem, off, len, root, pool, 0, ns, vs, N, V);
  }

  lemma PoolFresh(pool: ASN1Pool)
    requires pool.Valid() && pool.asn1NodeCount >= pool.tlvCount
    ensures var ns, vs := pool.NodesAhead(), pool.TlvsAhead();
            && PoolAt(pool, ns, vs, 0, 0) && |vs| == pool.tlvCount
            && Arena(ns, vs, set x | x in pool.asn1Pool, set x | x in pool.tlvPool)
            && forall x | x in ns :: x in pool.asn1Pool
  {
    hide Ahead;
    var ns, vs := pool.NodesAhead(), pool.TlvsAhead();
    AheadDistinct(pool.tlvPool, pool.freeTlvCount);
    AheadDistinct(pool.asn1Pool, pool.freeAsn1NodeCount);
    assert Turned(ns, 0) == ns && Turned(vs, 0) == vs;
    forall i | 0 <= i < |ns| ensures ns[i] in pool.asn1Pool {
      assert ns[i] in ns;
    }
    forall i | 0 <= i < |vs| ensures vs[i] in pool.tlvPool {
      assert vs[i] in vs;
    }
  }

  /** A linked node, encoded and then decoded without a definition, comes back as exactly the tree that was encoded:
      class, form, tag number, value octets and nesting, in nodes and records no two elements share.  For tag numbers up
      to 127, a large enough buffer and a pool at least as large as the tree. */
  method EncodeThenDecode(buffer: array<byte>, n: ASN1Node, sid: nat, root: ASN1Node, pool: ASN1Pool,
                          ghost S: set<ASN1Node>, ghost T: set<TLVNode>) returns (r: int)
    requires n in S && T == Tlvs(S) && Consistent(S, sid) && n.sessionId == sid
    requires AllLowTags([TreeOf(n, S, sid)]) && CountAll([TreeOf(n, S, sid)]) <= pool.tlvCount
    requires |Written(n, S, sid)| <= buffer.Length < 0x8000_0000
    requires pool.Valid() && pool.asn1NodeCount >= pool.tlvCount && root !in pool.asn1Pool
    modifies buffer, T`tagValue, T`tagClass, T`complexity
    modifies pool`freeTlvCount, pool`nextFreeTlv, pool`freeAsn1NodeCount, pool`nextFreeAsn1Node
    modifies root`children, set x | x in pool.asn1Pool, set x | x in pool.tlvPool
    ensures r == 0
    ensures var b, ns, vs := old(TreeOf(n, S, sid)), old(pool.NodesAhead()), old(pool.TlvsAhead());
            AllSendable([b]) && CountAll([b]) <= |vs| <= |ns| &&
            Grown(root, old(root.children), Images([b]), 0, CountAll([b]), ns, vs)
  {
    hide Parse, Grown, Ahead, TreeOf, Consistent, Images, AllLowTags, CountAll, Written, Meanings;
    var total := Encode(buffer, 0, n, sid, S, T);
    WrittenSettled(n, S, sid);
    TreeSettled(n, S, sid);
    ghost var p;
    PlainRoundTrip(n, S, sid, buffer[..], 0, pool.tlvCount);
    r, p := DecodePlain(buffer[..], 0, total, root, pool);
  }

  lemma PlainRoundTrip(n: ASN1Node, S: set<ASN1Node>, sid: nat, mem: seq<byte>, off: nat, limit: nat)
    requires n in S && Consistent(S, sid) && n.sessionId == sid
    requires AllLowTags([TreeOf(n, S, sid)]) && CountAll([TreeOf(n, S, sid)]) <= limit
    requires |mem| < 0x8000_0000 && off + |Written(n, S, sid)| <= |mem|
    requires mem[off..off + |Written(n, S, sid)|] == Written(n, S, sid)
    ensures var p := Parse(mem, off, |Written(n, S, sid)|, None, true, limit, Cursor(0, 0, None, 0, 0));
            && AllSendable([TreeOf(n, S, sid)])
            && p.Parsed? && p.forest == Images([TreeOf(n, S, sid)]) && p.made == CountAll([TreeOf(n, S, sid)])
  {
    hide Parse, Encoding, Consistent, TreeOf, Image, LowTags, Count;
    var b := TreeOf(n, S, sid);
    CachedSizes(n, S, sid);
    assert [b][1..] == [] && EncodingOfAll([b][1..]) == [];
    assert EncodingOfAll([b]) == Encoding(b);
    ParseUndoesEncoding(mem, off, |Written(n, S, sid)|, None, true, limit, Cursor(0, 0, None, 0, 0), [b]);
  }
}
