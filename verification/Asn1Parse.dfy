/** The two _decode functions on values: which elements they find, which error they return, and which
    components of a definition they mark. */
module Asn1Parse {
  import opened Wrappers
  import opened Asn1Octets
  import opened Asn1Read
  import opened Asn1Eoc
  import opened Asn1Ber

  /** One decoded element with everything decoded inside it. */
  datatype Tlv = Tlv(tagClass: TagClass, constructed: bool, tag: nat, tagSize: nat,
                     lengthType: LengthType, lengthSize: nat, value: seq<byte>, kids: seq<Tlv>)

  /** A definition: the tag each component answers to; `node` identifies the definition node. */
  datatype Def = Def(node: nat, tagClass: TagClass, tag: int, isSet: bool, kids: seq<Def>)

  datatype Header = HeaderOutside | HeaderFailed(code: int) | Header(tlv: Tlv, at: nat)

  /** The C++ expression data_length - tmp_pos on unsigned int. */
  function Remaining(len: nat, pos: nat): int {
    if pos <= len then len - pos else len - pos + 0x1_0000_0000
  }

  /** The octets of one element up to its contents, which start at position `at`. */
  function ReadHeader(mem: seq<byte>, off: nat, len: nat, pos: nat): (r: Header)
    ensures r.Header? ==> pos + 2 <= r.at && off + r.at + |r.tlv.value| <= |mem| && r.tlv.kids == []
    ensures r.Header? ==> r.tlv.tagClass != ClassUnknown && r.tlv.lengthType != LengthTypeUnknown
    ensures r.HeaderFailed? ==> r.code in {200, 300}
  {
    var t := ReadTag(mem, off + pos);
    if t.TagOutside? then HeaderOutside
    else
      var p := pos + t.size;
      if Remaining(len, p) < 0 then HeaderOutside
      else
        var l := ReadLength(mem, off + p, Remaining(len, p));
        if l.LengthOutside? then HeaderOutside
        else if l.LengthError? then HeaderFailed(300)
        else
          var at := p + l.size;
          if l.length > Remaining(len, at) then HeaderFailed(200)
          else if off + at + l.length > |mem| then HeaderOutside
          else Header(Tlv(t.tagClass, t.constructed, t.tag, t.size, l.lengthType, l.size,
                          mem[off + at..off + at + l.length], []), at)
  }

  /** One element with a tag of one octet, in numbers: 300 if the data ends before the length field or inside it, 200 if
      the contents run past the end, and otherwise the element with its contents. */
  lemma HeaderInNumbers(mem: seq<byte>, off: nat, len: nat, pos: nat, b: nat, n: nat)
    requires pos < len && off + len <= |mem| && mem[off + pos] == b && b % 32 != 31
    requires pos + 1 < len ==> mem[off + pos + 1] == n
    ensures pos + 1 == len ==> ReadHeader(mem, off, len, pos) == HeaderFailed(300)
    ensures pos + 1 < len && (n == 255 || (n > 128 && n - 128 >= len - pos - 1)) ==>
              ReadHeader(mem, off, len, pos) == HeaderFailed(300)
    ensures pos + 1 < len && n < 128 && n > len - pos - 2 ==> ReadHeader(mem, off, len, pos) == HeaderFailed(200)
    ensures pos + 1 < len && n < 128 && n <= len - pos - 2 ==>
              var c := match b / 64
                       case 0 => Universal case 1 => Application case 2 => ContextSpecific case _ => Private;
              ReadHeader(mem, off, len, pos) ==
              Header(Tlv(c, b / 32 % 2 == 1, b % 32, 1, DefiniteShort, 1, mem[off + pos + 2..off + pos + 2 + n], []),
                     pos + 2)
  {
    hide ReadTag, ReadLength;
    TagInNumbers(mem, off + pos, b, 0, 0, 0);
    if pos + 1 < len {
      LengthInNumbers(mem, off + pos + 1, len - pos - 1, 0, 0, 0, 0);
    } else {
      NoLength(mem, off + pos + 1);
    }
  }

  lemma NoLength(mem: seq<byte>, off: nat)
    ensures ReadLength(mem, off, 0) == LengthError(1)
  {
  }

  // ---------------------------------------------------------------- matching against a definition

  function FirstMatch(kids: seq<Def>, from: nat, c: TagClass, t: nat): (j: nat)
    requires from <= |kids|
    ensures from <= j <= |kids|
    ensures j < |kids| ==> kids[j].tagClass == c && kids[j].tag == t
    ensures forall i :: from <= i < j ==> !(kids[i].tagClass == c && kids[i].tag == t)
    decreases |kids| - from
  {
    if from == |kids| || (kids[from].tagClass == c && kids[from].tag == t) then from
    else FirstMatch(kids, from + 1, c, t)
  }

  /** Where a decoding loop stands: position, next component to try, last component matched, elements found on
      this level, and elements requested from the pool so far. */
  datatype Cursor = Cursor(pos: nat, next: nat, matched: Option<Def>, level: nat, made: nat)

  /** One search of the definition: the match, if any, and the next component to try.  Past the last
      component the search does not run and the last match stays. */
  function Search(def: Option<Def>, c: Cursor, t: Tlv): (r: (Option<Def>, nat, bool))
    ensures r.2 ==> r.0.Some?
  {
    if def.None? || c.next >= |def.value.kids| then (c.matched, c.next, false)
    else
      var j := FirstMatch(def.value.kids, c.next, t.tagClass, t.tag);
      if j < |def.value.kids| then (Some(def.value.kids[j]), if def.value.isSet then 0 else j + 1, true)
      else (None, c.next, false)
  }

  // ---------------------------------------------------------------- the decoding loop

  datatype Parsed =
    | Outside
    | Failed(code: int)
    | Parsed(forest: seq<Tlv>, made: nat, marks: map<nat, Tlv>)

  /** How many further octets an element takes after its contents. */
  function Trailer(t: Tlv): nat {
    if t.lengthType == Indefinite then 2 else 0
  }

  /** What the loop compares with the pool size: the form without a definition counts afresh at every level. */
  function Used(perLevel: bool, c: Cursor): nat {
    if perLevel then c.level else c.made
  }

  function Inside(c: Cursor): Cursor {
    Cursor(0, 0, None, 0, c.made + 1)
  }

  function After(t: Tlv, at: nat, next: nat, matched: Option<Def>, level: nat, made: nat): Cursor {
    Cursor(at + |t.value| + Trailer(t), next, matched, level + 1, made)
  }

  /** The loop of _decode over mem[off..off + len] from cursor c, with a pool of `limit` records.  `perLevel`
      is the form without a definition; there the pool can come round to records that are still in use, and
      such a run is Outside. */
  ghost function Parse(mem: seq<byte>, off: nat, len: nat, def: Option<Def>, perLevel: bool, limit: nat,
                       c: Cursor): Parsed
    decreases |mem| - off, |mem| - off - c.pos
  {
    if c.pos >= len then Parsed([], c.made, map[])
    else if Used(perLevel, c) + 1 > limit then Failed(400)
    else if c.made + 1 > limit then Outside
    else
      match ReadHeader(mem, off, len, c.pos)
      case HeaderOutside => Outside
      case HeaderFailed(code) => Failed(code)
      case Header(t, at) =>
        var (matched, next, found) := Search(def, c, t);
        var inner := if t.constructed then Parse(mem, off + at, |t.value|, matched, perLevel, limit, Inside(c))
                     else Parsed([], c.made + 1, map[]);
        if !inner.Parsed? then inner
        else
          var rest := Parse(mem, off, len, def, perLevel, limit, After(t, at, next, matched, c.level, inner.made));
          if !rest.Parsed? then rest
          else Parsed([t.(kids := inner.forest)] + rest.forest, rest.made,
                      (if found then map[matched.value.node := t] else map[]) + inner.marks + rest.marks)
  }

  // ---------------------------------------------------------------- decoding undoes encoding

  ghost predicate LowTags(b: Ber) {
    b.tag <= 127 && (b.Cons? ==> forall k | k in b.kids :: LowTags(k))
  }

  ghost predicate AllLowTags(bs: seq<Ber>) {
    forall b | b in bs :: LowTags(b)
  }

  ghost function Count(b: Ber): nat
    decreases b
  {
    match b
    case Prim(_, _, _) => 1
    case Cons(_, _, kids) => 1 + CountAll(kids)
  }

  ghost function CountAll(bs: seq<Ber>): nat
    decreases bs
  {
    if bs == [] then 0 else Count(bs[0]) + CountAll(bs[1..])
  }

  /** The element _decode should produce for b. */
  ghost function Image(b: Ber): Tlv
    requires Sendable(b)
    decreases b, 1
  {
    ImageHeader(b).(kids := if b.Cons? then Images(b.kids) else [])
  }

  ghost function ImageHeader(b: Ber): Tlv
    requires Sendable(b)
  {
    var n := |Content(b)|;
    Tlv(b.tagClass, b.Cons?, b.tag, TagSize(b.tag), if n > 127 then DefiniteLong else DefiniteShort, LengthSize(n),
        Content(b), [])
  }

  ghost function Images(bs: seq<Ber>): (ts: seq<Tlv>)
    requires AllSendable(bs)
    ensures |ts| == |bs|
    decreases bs
  {
    if bs == [] then [] else [Image(bs[0])] + Images(bs[1..])
  }

  lemma HeaderFrom(mem: seq<byte>, off: nat, len: nat, pos: nat, c: TagClass, constructed: bool, t: nat, ident: nat,
                   lengthType: LengthType, field: nat, n: nat)
    requires ReadTag(mem, off + pos) == TagRead(c, constructed, t, ident)
    requires pos + ident + field + n <= len && off + (pos + ident + field) + n <= |mem|
    requires !IsIndefinite(mem, off + (pos + ident), len - (pos + ident))
    requires LengthAt(mem, off + (pos + ident), len - (pos + ident), EocOutside) == LengthRead(lengthType, field, n)
    ensures var at := pos + ident + field;
            ReadHeader(mem, off, len, pos)
            == Header(Tlv(c, constructed, t, ident, lengthType, field, mem[off + at..off + at + n], []), at)
  {
  }

  lemma HeaderOfOctets(mem: seq<byte>, off: nat, len: nat, pos: nat, c: TagClass, constructed: bool, t: nat,
                       ident: seq<byte>, field: seq<byte>, content: seq<byte>)
    requires Here(mem, off + pos, ident + (field + content)) && pos + |ident| + |field| + |content| <= len
    requires ReadTag(mem, off + pos) == TagRead(c, constructed, t, |ident|)
    requires LengthField(field, |content|)
    ensures var at := pos + |ident| + |field|;
            && ReadHeader(mem, off, len, pos)
               == Header(Tlv(c, constructed, t, |ident|, if |field| == 1 then DefiniteShort else DefiniteLong,
                             |field|, content, []), at)
            && Here(mem, off + at, content)
  {
    hide ReadHeader, ReadTag, LengthAt, LengthField;
    HereSplit(mem, off + pos, ident, field + content);
    HereSplit(mem, off + (pos + |ident|), field, content);
    DefiniteLengthRead(mem, off + (pos + |ident|), len - (pos + |ident|), field, |content|);
    HereSlice(mem, off + (pos + |ident| + |field|), content);
    HeaderFrom(mem, off, len, pos, c, constructed, t, |ident|,
               if |field| == 1 then DefiniteShort else DefiniteLong, |field|, |content|);
  }

  lemma HeaderOfEncoding(mem: seq<byte>, off: nat, len: nat, pos: nat, b: Ber) returns (t: Tlv, at: nat)
    requires Sendable(b) && b.tag <= 127 && Here(mem, off + pos, Encoding(b))
    requires pos + |Encoding(b)| <= len && |mem| < 0x8000_0000
    ensures ReadHeader(mem, off, len, pos) == Header(t, at) && Here(mem, off + at, Content(b))
    ensures at + |Content(b)| == pos + |Encoding(b)|
    ensures t.tagClass == b.tagClass && t.tag == b.tag && t.constructed == b.Cons?
    ensures t.value == Content(b) && t.lengthType != Indefinite
    ensures b.Cons? ==> Content(b) == EncodingOfAll(b.kids)
    ensures t.(kids := if b.Cons? then Images(b.kids) else []) == Image(b) && t == ImageHeader(b)
  {
    hide ReadHeader, ReadTag, TagOctets, LengthOctets, LengthField, Here;
    t, at := ImageHeader(b), pos + TagSize(b.tag) + LengthSize(|Content(b)|);
    var n := |Content(b)|;
    var ident, field := TagOctets(b.tagClass, b.Cons?, b.tag), LengthOctets(n);
    HereSplit(mem, off + pos, ident, field + Content(b));
    TagRoundTrip(mem, off + pos, b.tagClass, b.Cons?, b.tag);
    LengthIsField(n);
    LengthForm(n);
    HeaderOfOctets(mem, off, len, pos, b.tagClass, b.Cons?, b.tag, ident, field, Content(b));
  }

  lemma LengthForm(n: nat)
    ensures |LengthOctets(n)| == 1 <==> n <= 127
  {
    if n > 127 {
      LengthSizeMinimal(n);
    }
  }

  /** One turn of the loop, given what its two recursive parts come to. */
  lemma ParseOne(mem: seq<byte>, off: nat, len: nat, def: Option<Def>, perLevel: bool, limit: nat, c: Cursor,
                 t: Tlv, at: nat, inner: Parsed, rest: Parsed)
    requires c.pos < len && Used(perLevel, c) + 1 <= limit && c.made + 1 <= limit &&
             ReadHeader(mem, off, len, c.pos) == Header(t, at)
    requires inner == if t.constructed then
                        Parse(mem, off + at, |t.value|, Search(def, c, t).0, perLevel, limit, Inside(c))
                      else Parsed([], c.made + 1, map[])
    requires inner.Parsed? ==>
               rest == Parse(mem, off, len, def, perLevel, limit,
                             After(t, at, Search(def, c, t).1, Search(def, c, t).0, c.level, inner.made))
    ensures !inner.Parsed? ==> Parse(mem, off, len, def, perLevel, limit, c) == inner
    ensures inner.Parsed? ==> Parse(mem, off, len, def, perLevel, limit, c)
                              == Before([t.(kids := inner.forest)], FirstMark(def, c, t) + inner.marks, rest)
  {
    hide ReadHeader, Search;
  }

  /** The mark the search itself leaves. */
  function FirstMark(def: Option<Def>, c: Cursor, t: Tlv): map<nat, Tlv> {
    if Search(def, c, t).2 then map[Search(def, c, t).0.value.node := t] else map[]
  }

  /** A run that goes on as `rest` after it has found `forest` and left `marks`. */
  function Before(forest: seq<Tlv>, marks: map<nat, Tlv>, rest: Parsed): Parsed {
    if rest.Parsed? then Parsed(forest + rest.forest, rest.made, marks + rest.marks) else rest
  }

  lemma BeforeBefore(f: seq<Tlv>, m: map<nat, Tlv>, g: seq<Tlv>, n: map<nat, Tlv>, rest: Parsed)
    ensures Before(f, m, Before(g, n, rest)) == Before(f + g, m + n, rest)
  {
    if rest.Parsed? {
      assert f + (g + rest.forest) == f + g + rest.forest;
      assert m + (n + rest.marks) == m + n + rest.marks;
    }
  }

  lemma BeforeTheEnd(found: Parsed)
    requires found.Parsed?
    ensures Before(found.forest, found.marks, Parsed([], found.made, map[])) == found
  {
    assert found.forest + [] == found.forest && found.marks + map[] == found.marks;
  }

  lemma BeforeNothing(rest: Parsed)
    ensures Before([], map[], rest) == rest
  {
    if rest.Parsed? {
      assert map[] + rest.marks == rest.marks;
    }
  }

  lemma ParseRefuses(mem: seq<byte>, off: nat, len: nat, def: Option<Def>, perLevel: bool, limit: nat, c: Cursor)
    requires c.pos < len
    ensures Used(perLevel, c) + 1 > limit ==> Parse(mem, off, len, def, perLevel, limit, c) == Failed(400)
    ensures Used(perLevel, c) + 1 <= limit && c.made + 1 > limit ==>
              Parse(mem, off, len, def, perLevel, limit, c) == Outside
    ensures Used(perLevel, c) + 1 <= limit && c.made + 1 <= limit && !ReadHeader(mem, off, len, c.pos).Header? ==>
              Parse(mem, off, len, def, perLevel, limit, c)
              == match ReadHeader(mem, off, len, c.pos) case HeaderFailed(code) => Failed(code) case _ => Outside
  {
    hide ReadHeader, Search;
  }

  ghost function SizeAll(ts: seq<Tlv>): nat
    decreases ts
  {
    if ts == [] then 0 else 1 + SizeAll(ts[0].kids) + SizeAll(ts[1..])
  }

  /** Every element found took one record from the pool, and a run that succeeds took no more than there are. */
  lemma {:induction false} ParseMade(mem: seq<byte>, off: nat, len: nat, def: Option<Def>, perLevel: bool, limit: nat,
                                     c: Cursor)
    requires c.made <= limit && Parse(mem, off, len, def, perLevel, limit, c).Parsed?
    ensures var r := Parse(mem, off, len, def, perLevel, limit, c);
            r.made == c.made + SizeAll(r.forest) && r.made <= limit
    decreases |mem| - off, |mem| - off - c.pos
  {
    hide ReadHeader, Search, Parse;
    ParseAtEnd(mem, off, len, def, perLevel, limit, c);
    if c.pos < len {
      var t, at, inner, rest := ParseParts(mem, off, len, def, perLevel, limit, c);
      if t.constructed {
        ParseMade(mem, off + at, |t.value|, Search(def, c, t).0, perLevel, limit, Inside(c));
      }
      ParseMade(mem, off, len, def, perLevel, limit,
                After(t, at, Search(def, c, t).1, Search(def, c, t).0, c.level, inner.made));
      var ts := [t.(kids := inner.forest)] + rest.forest;
      assert ts[1..] == rest.forest;
    }
  }

  /** Decoding undoes encoding: the elements found are those of the message, class, form, tag number, value
      octets and nesting, whatever definition the decoder searches meanwhile. */
  lemma {:induction false} ParseUndoesEncoding(mem: seq<byte>, off: nat, len: nat, def: Option<Def>, perLevel: bool,
                                               limit: nat, c: Cursor, bs: seq<Ber>)
    requires AllSendable(bs) && AllLowTags(bs) && |mem| < 0x8000_0000
    requires Here(mem, off + c.pos, EncodingOfAll(bs)) && len == c.pos + |EncodingOfAll(bs)|
    requires c.made + CountAll(bs) <= limit && c.level <= c.made
    ensures var r := Parse(mem, off, len, def, perLevel, limit, c);
            r.Parsed? && r.forest == Images(bs) && r.made == c.made + CountAll(bs)
    decreases bs
  {
    hide ReadHeader, Search, Encoding, Content, Image, Here;
    if bs != [] {
      var b, rest := bs[0], bs[1..];
      assert Sendable(b) && LowTags(b);
      HereSplit(mem, off + c.pos, Encoding(b), EncodingOfAll(rest));
      var t, at := HeaderOfEncoding(mem, off, len, c.pos, b);
      var (matched, next, found) := Search(def, c, t);
      var inner := Parsed([], c.made + 1, map[]);
      if b.Cons? {
        var c' := Inside(c);
        ParseUndoesEncoding(mem, off + at, |t.value|, matched, perLevel, limit, c', b.kids);
        inner := Parse(mem, off + at, |t.value|, matched, perLevel, limit, c');
      }
      var c'' := After(t, at, next, matched, c.level, inner.made);
      CountAtLeast(b);
      ParseUndoesEncoding(mem, off, len, def, perLevel, limit, c'', rest);
      ParseOne(mem, off, len, def, perLevel, limit, c, t, at, inner, Parse(mem, off, len, def, perLevel, limit, c''));
    }
  }

  lemma CountAtLeast(b: Ber)
    ensures Count(b) >= 1
  {
  }

  // ---------------------------------------------------------------- elements tile the buffer

  ghost predicate PlainTlv(t: Tlv) {
    t.tagSize == 1 && t.lengthType != Indefinite && forall k | k in t.kids :: PlainTlv(k)
  }

  /** The elements ts fill mem[off..off + len] one after the other, and so do the children of every
      constructed element with its value. */
  ghost predicate Tiles(mem: seq<byte>, off: nat, len: int, ts: seq<Tlv>)
    decreases ts
  {
    if ts == [] then len == 0
    else
      var t := ts[0];
      var header := t.tagSize + t.lengthSize;
      && header + |t.value| <= len && off + header + |t.value| <= |mem|
      && mem[off + header..off + header + |t.value|] == t.value
      && (if t.constructed then Tiles(mem, off + header, |t.value|, t.kids) else t.kids == [])
      && Tiles(mem, off + (header + |t.value|), len - (header + |t.value|), ts[1..])
  }

  /** What a successful turn of the loop was made of. */
  lemma ParseParts(mem: seq<byte>, off: nat, len: nat, def: Option<Def>, perLevel: bool, limit: nat, c: Cursor)
      returns (t: Tlv, at: nat, inner: Parsed, rest: Parsed)
    requires c.pos < len && Parse(mem, off, len, def, perLevel, limit, c).Parsed?
    ensures Used(perLevel, c) + 1 <= limit && c.made + 1 <= limit && ReadHeader(mem, off, len, c.pos) == Header(t, at)
    ensures inner.Parsed? && rest.Parsed?
    ensures inner == if t.constructed then
                       Parse(mem, off + at, |t.value|, Search(def, c, t).0, perLevel, limit, Inside(c))
                     else Parsed([], c.made + 1, map[])
    ensures rest == Parse(mem, off, len, def, perLevel, limit,
                          After(t, at, Search(def, c, t).1, Search(def, c, t).0, c.level, inner.made))
    ensures Parse(mem, off, len, def, perLevel, limit, c).forest == [t.(kids := inner.forest)] + rest.forest
    ensures Parse(mem, off, len, def, perLevel, limit, c).made == rest.made
  {
    hide ReadHeader, Search;
    var h := ReadHeader(mem, off, len, c.pos);
    t, at := h.tlv, h.at;
    inner := if t.constructed then Parse(mem, off + at, |t.value|, Search(def, c, t).0, perLevel, limit, Inside(c))
             else Parsed([], c.made + 1, map[]);
    rest := Parse(mem, off, len, def, perLevel, limit,
                  After(t, at, Search(def, c, t).1, Search(def, c, t).0, c.level, inner.made));
  }

  /** Where the loop goes on after an element with a one-octet identifier: right after its contents in the short form,
      two octets further in the indefinite form, whose contents are as long as the search for their end says. */
  lemma NextElement(mem: seq<byte>, off: nat, len: nat, def: Option<Def>, perLevel: bool, limit: nat, c: Cursor)
      returns (first: Tlv, rest: Parsed, next: Cursor)
    requires c.pos + 1 < len && off + len <= |mem| && mem[off + c.pos] % 32 != 31 && mem[off + c.pos + 1] <= 128
    requires Parse(mem, off, len, def, perLevel, limit, c).Parsed?
    ensures rest == Parse(mem, off, len, def, perLevel, limit, next) && rest.Parsed?
    ensures Parse(mem, off, len, def, perLevel, limit, c).forest == [first] + rest.forest
    ensures var (v, from) := (first.value, off + c.pos + 2);
            && from + |v| <= |mem| && v == mem[from..from + |v|]
            && (mem[from - 1] < 128 ==> |v| == mem[from - 1] && next.pos == c.pos + 2 + |v|)
            && (mem[from - 1] == 128 ==>
                  FindEocSpec(mem, from, len - c.pos - 2) == At(|v|) && next.pos == c.pos + 2 + |v| + 2)
  {
    hide ReadHeader, Search, Parse, FindEocSpec;
    var t, at, inner;
    t, at, inner, rest := ParseParts(mem, off, len, def, perLevel, limit, c);
    first := t.(kids := inner.forest);
    next := After(t, at, Search(def, c, t).1, Search(def, c, t).0, c.level, inner.made);
    ShortHeader(mem, off, len, c.pos);
  }

  lemma ShortHeader(mem: seq<byte>, off: nat, len: nat, pos: nat)
    requires pos + 1 < len && off + len <= |mem| && mem[off + pos] % 32 != 31 && mem[off + pos + 1] <= 128
    requires ReadHeader(mem, off, len, pos).Header?
    ensures var h := ReadHeader(mem, off, len, pos);
            && h.at == pos + 2 && h.tlv.value == mem[off + pos + 2..off + pos + 2 + |h.tlv.value|]
            && (mem[off + pos + 1] < 128 ==> |h.tlv.value| == mem[off + pos + 1] && h.tlv.lengthType == DefiniteShort)
            && (mem[off + pos + 1] == 128 ==>
                  FindEocSpec(mem, off + pos + 2, len - pos - 2) == At(|h.tlv.value|) && h.tlv.lengthType == Indefinite)
  {
    hide ReadTag, FindEocSpec, FromBigEndian;
    TagInNumbers(mem, off + pos, mem[off + pos], 0, 0, 0);
  }

  /** A one-octet identifier and a definite length keep the header and the contents inside the level. */
  lemma PlainHeaderInside(mem: seq<byte>, off: nat, len: nat, pos: nat)
    requires pos < len && ReadHeader(mem, off, len, pos).Header?
    requires var t := ReadHeader(mem, off, len, pos).tlv; t.tagSize == 1 && t.lengthType != Indefinite
    ensures var h := ReadHeader(mem, off, len, pos);
            && h.at == pos + h.tlv.tagSize + h.tlv.lengthSize && h.at + |h.tlv.value| <= len
            && mem[off + h.at..off + h.at + |h.tlv.value|] == h.tlv.value
  {
    hide ReadTag, FindEocSpec, FromBigEndian;
  }

  /** When _decode returns 0 and met only one-octet identifiers and definite lengths, the elements it
      produced tile the buffer exactly, at every depth. */
  lemma {:induction false} ElementsTile(mem: seq<byte>, off: nat, len: nat, def: Option<Def>, perLevel: bool,
                                        limit: nat, c: Cursor)
    requires c.pos <= len && Parse(mem, off, len, def, perLevel, limit, c).Parsed?
    requires forall t | t in Parse(mem, off, len, def, perLevel, limit, c).forest :: PlainTlv(t)
    ensures Tiles(mem, off + c.pos, len - c.pos, Parse(mem, off, len, def, perLevel, limit, c).forest)
    decreases |mem| - off, |mem| - off - c.pos
  {
    hide ReadHeader, Search, Parse, Tiles;
    ParseAtEnd(mem, off, len, def, perLevel, limit, c);
    if c.pos < len {
      var t, at, inner, rest := ParseParts(mem, off, len, def, perLevel, limit, c);
      var ts := [t.(kids := inner.forest)] + rest.forest;
      assert ts[0] in ts && PlainTlv(ts[0]);
      assert forall k | k in rest.forest :: k in ts;
      PlainHeaderInside(mem, off, len, c.pos);
      if t.constructed {
        ElementsTile(mem, off + at, |t.value|, Search(def, c, t).0, perLevel, limit, Inside(c));
      }
      ElementsTile(mem, off, len, def, perLevel, limit,
                   After(t, at, Search(def, c, t).1, Search(def, c, t).0, c.level, inner.made));
      TilesCons(mem, off, c.pos, len, at, t, inner.forest, rest.forest);
    } else {
      TilesNothing(mem, off + c.pos);
    }
  }

  lemma ParseAtEnd(mem: seq<byte>, off: nat, len: nat, def: Option<Def>, perLevel: bool, limit: nat, c: Cursor)
    ensures c.pos >= len ==> Parse(mem, off, len, def, perLevel, limit, c) == Parsed([], c.made, map[])
  {
  }

  lemma TilesNothing(mem: seq<byte>, off: nat)
    ensures Tiles(mem, off, 0, [])
  {
  }

  lemma TilesCons(mem: seq<byte>, off: nat, pos: nat, len: nat, at: nat, t: Tlv, kids: seq<Tlv>, rest: seq<Tlv>)
    requires at == pos + t.tagSize + t.lengthSize && at + |t.value| <= len && off + at + |t.value| <= |mem|
    requires mem[off + at..off + at + |t.value|] == t.value
    requires if t.constructed then Tiles(mem, off + at + 0, |t.value| - 0, kids) else kids == []
    requires Tiles(mem, off + (at + |t.value|), len - (at + |t.value|), rest)
    ensures Tiles(mem, off + pos, len - pos, [t.(kids := kids)] + rest)
  {
    var ts := [t.(kids := kids)] + rest;
    assert ts[1..] == rest;
    var header := t.tagSize + t.lengthSize;
    assert off + pos + header == off + at + 0;
    assert off + pos + (header + |t.value|) == off + (at + |t.value|);
    assert len - pos - (header + |t.value|) == len - (at + |t.value|);
  }

  // ---------------------------------------------------------------- which components a decode marks

  ghost predicate DistinctTags(ds: seq<Def>) {
    && (forall i, j :: 0 <= i < j < |ds| ==> !(ds[i].tagClass == ds[j].tagClass && ds[i].tag == ds[j].tag))
    && forall d | d in ds :: DistinctTags(d.kids)
  }

  /** bs is a message of the components ds in which exactly the components in `linked` are present. */
  ghost predicate MessageOf(ds: seq<Def>, linked: set<nat>, bs: seq<Ber>)
    decreases bs, |ds|
  {
    if ds == [] then bs == []
    else if ds[0].node !in linked then MessageOf(ds[1..], linked, bs)
    else
      && bs != [] && bs[0].tagClass == ds[0].tagClass && bs[0].tag == ds[0].tag
      && (if bs[0].Cons? then MessageOf(ds[0].kids, linked, bs[0].kids) else ds[0].kids == [])
      && MessageOf(ds[1..], linked, bs[1..])
  }

  /** The linked components that are reached through linked components only, each with its element. */
  ghost function Present(ds: seq<Def>, linked: set<nat>, bs: seq<Ber>): map<nat, Tlv>
    requires MessageOf(ds, linked, bs) && AllSendable(bs)
    decreases bs, |ds|
  {
    if ds == [] then map[]
    else if ds[0].node !in linked then Present(ds[1..], linked, bs)
    else
      map[ds[0].node := ImageHeader(bs[0])]
      + (if bs[0].Cons? then Present(ds[0].kids, linked, bs[0].kids) else map[])
      + Present(ds[1..], linked, bs[1..])
  }

  lemma SearchFinds(def: Def, c: Cursor, t: Tlv, m: nat)
    requires DistinctTags(def.kids) && c.next <= m < |def.kids|
    requires t.tagClass == def.kids[m].tagClass && t.tag == def.kids[m].tag
    ensures Search(Some(def), c, t) == (Some(def.kids[m]), if def.isSet then 0 else m + 1, true)
  {
  }

  /** Decoding a message of a definition marks exactly the components that are present in it. */
  lemma {:induction false} MarksPresent(mem: seq<byte>, off: nat, len: nat, def: Def, perLevel: bool, limit: nat,
                                        c: Cursor, m: nat, linked: set<nat>, bs: seq<Ber>)
    requires AllSendable(bs) && AllLowTags(bs) && |mem| < 0x8000_0000
    requires Here(mem, off + c.pos, EncodingOfAll(bs)) && len == c.pos + |EncodingOfAll(bs)|
    requires c.made + CountAll(bs) <= limit && c.level <= c.made
    requires DistinctTags(def.kids) && c.next <= m <= |def.kids| && MessageOf(def.kids[m..], linked, bs)
    ensures Parse(mem, off, len, Some(def), perLevel, limit, c).Parsed?
    ensures Parse(mem, off, len, Some(def), perLevel, limit, c).marks == Present(def.kids[m..], linked, bs)
    decreases bs, |def.kids| - m
  {
    hide ReadHeader, Search, Encoding, Content, Image, ImageHeader, Here, Parse, DistinctTags;
    ParseUndoesEncoding(mem, off, len, Some(def), perLevel, limit, c, bs);
    ParseAtEnd(mem, off, len, Some(def), perLevel, limit, c);
    if m < |def.kids| {
      var d := def.kids[m];
      assert def.kids[m..][1..] == def.kids[m + 1..];
      if d.node !in linked {
        MarksPresent(mem, off, len, def, perLevel, limit, c, m + 1, linked, bs);
      } else {
        MarksOfFirst(mem, off, len, def, perLevel, limit, c, m, linked, bs);
      }
    }
  }

  lemma {:induction false} MarksOfFirst(mem: seq<byte>, off: nat, len: nat, def: Def, perLevel: bool, limit: nat,
                                        c: Cursor, m: nat, linked: set<nat>, bs: seq<Ber>)
    requires AllSendable(bs) && AllLowTags(bs) && |mem| < 0x8000_0000
    requires Here(mem, off + c.pos, EncodingOfAll(bs)) && len == c.pos + |EncodingOfAll(bs)|
    requires c.made + CountAll(bs) <= limit && c.level <= c.made
    requires DistinctTags(def.kids) && c.next <= m < |def.kids| && def.kids[m].node in linked
    requires bs != [] && bs[0].tagClass == def.kids[m].tagClass && bs[0].tag == def.kids[m].tag
    requires if bs[0].Cons? then MessageOf(def.kids[m].kids, linked, bs[0].kids) else def.kids[m].kids == []
    requires MessageOf(def.kids[m + 1..], linked, bs[1..])
    ensures Parse(mem, off, len, Some(def), perLevel, limit, c).Parsed?
    ensures Parse(mem, off, len, Some(def), perLevel, limit, c).marks
            == map[def.kids[m].node := ImageHeader(bs[0])]
               + (if bs[0].Cons? then Present(def.kids[m].kids, linked, bs[0].kids) else map[])
               + Present(def.kids[m + 1..], linked, bs[1..])
    decreases bs, 0
  {
    hide ReadHeader, Search, Encoding, Content, Image, ImageHeader, Here, Parse, DistinctTags, MessageOf;
    var b, rest, d := bs[0], bs[1..], def.kids[m];
    assert Sendable(b) && LowTags(b);
    HereSplit(mem, off + c.pos, Encoding(b), EncodingOfAll(rest));
    var t, at := HeaderOfEncoding(mem, off, len, c.pos, b);
    SearchFinds(def, c, t, m);
    var next := if def.isSet then 0 else m + 1;
    var inner := Parsed([], c.made + 1, map[]);
    if b.Cons? {
      var c' := Inside(c);
      DistinctInside(def.kids, m);
      assert d.kids[0..] == d.kids;
      MarksPresent(mem, off + at, |t.value|, d, perLevel, limit, c', 0, linked, b.kids);
      ParseUndoesEncoding(mem, off + at, |t.value|, Some(d), perLevel, limit, c', b.kids);
      inner := Parse(mem, off + at, |t.value|, Some(d), perLevel, limit, c');
    }
    var c'' := After(t, at, next, Some(d), c.level, inner.made);
    CountAtLeast(b);
    MarksPresent(mem, off, len, def, perLevel, limit, c'', m + 1, linked, rest);
    ParseOne(mem, off, len, Some(def), perLevel, limit, c, t, at, inner,
             Parse(mem, off, len, Some(def), perLevel, limit, c''));
  }

  lemma DistinctInside(ds: seq<Def>, m: nat)
    requires DistinctTags(ds) && m < |ds|
    ensures DistinctTags(ds[m].kids)
  {
  }
}
