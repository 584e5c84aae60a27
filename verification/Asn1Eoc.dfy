/** The search for end-of-contents octets is exact on well-formed contents (X.690, section 8.1.5). */
module Asn1Eoc {
  import opened Asn1Octets
  import opened Asn1Read

  /** The octets s stand in mem at offset off. */
  ghost predicate Here(mem: seq<byte>, off: nat, s: seq<byte>) {
    off + |s| <= |mem| && forall i {:trigger s[i]} :: 0 <= i < |s| ==> mem[off + i] == s[i]
  }

  lemma HereSlice(mem: seq<byte>, off: nat, s: seq<byte>)
    ensures Here(mem, off, s) <==> off + |s| <= |mem| && mem[off..off + |s|] == s
  {
    if off + |s| <= |mem| && mem[off..off + |s|] == s {
      forall i | 0 <= i < |s| ensures mem[off + i] == s[i] {
        assert mem[off..off + |s|][i] == s[i];
      }
    }
  }

  lemma HereSplit(mem: seq<byte>, off: nat, a: seq<byte>, b: seq<byte>)
    requires Here(mem, off, a + b)
    ensures Here(mem, off, a) && Here(mem, off + |a|, b)
  {
    forall i | 0 <= i < |a| ensures mem[off + i] == a[i] {
      assert (a + b)[i] == a[i];
    }
    forall i | 0 <= i < |b| ensures mem[off + |a| + i] == b[i] {
      assert (a + b)[|a| + i] == b[i];
    }
  }

  lemma HereHead(mem: seq<byte>, off: nat, s: seq<byte>)
    requires Here(mem, off, s) && s != []
    ensures off < |mem| && mem[off] == s[0]
  {
    assert mem[off + 0] == s[0];
  }

  // ---------------------------------------------------------------- any identifier a peer may send

  datatype Ident =
    | LowTag(tagClass: TagClass, constructed: bool, num: nat)
    | HighTag(tagClass: TagClass, constructed: bool, septets: seq<byte>)

  ghost predicate ValidIdent(id: Ident) {
    && id.tagClass != ClassUnknown
    && match id
       case LowTag(_, _, num) => num <= 30
       case HighTag(_, _, s) => |s| > 0 && s[|s| - 1] < 0x80 && forall i :: 0 <= i < |s| - 1 ==> s[i] >= 0x80
  }

  ghost function IdentOctets(id: Ident): (s: seq<byte>)
    requires ValidIdent(id)
    ensures |s| > 0
  {
    match id
    case LowTag(c, p, num) => [Lead(c, p) + num]
    case HighTag(c, p, s) => [Lead(c, p) + 0x1f] + s
  }

  lemma {:induction false} SeptetsCounted(mem: seq<byte>, off: nat, s: seq<byte>)
    requires Here(mem, off, s)
    requires |s| > 0 && s[|s| - 1] < 0x80 && forall i :: 0 <= i < |s| - 1 ==> s[i] >= 0x80
    ensures SeptetCount(mem, off) == |s|
    decreases |s|
  {
    HereHead(mem, off, s);
    if |s| > 1 {
      HereSplit(mem, off, s[..1], s[1..]) by { assert s[..1] + s[1..] == s; }
      SeptetsCounted(mem, off + 1, s[1..]);
    }
  }

  ghost function TagNumber(id: Ident): nat {
    match id
    case LowTag(_, _, num) => num
    case HighTag(_, _, septets) => Base128(septets)
  }

  lemma IdentRead(mem: seq<byte>, off: nat, id: Ident)
    requires ValidIdent(id) && Here(mem, off, IdentOctets(id))
    ensures ReadTag(mem, off) == TagRead(id.tagClass, id.constructed, TagNumber(id), |IdentOctets(id)|)
  {
    match id
    case LowTag(c, p, num) =>
      LeadRead(c, p, num);
      HereHead(mem, off, [Lead(c, p) + num]);
    case HighTag(c, p, s) =>
      LeadRead(c, p, 0x1f);
      HereSplit(mem, off, [Lead(c, p) + 0x1f], s);
      HereHead(mem, off, [Lead(c, p) + 0x1f]);
      HighTagRead(mem, off, c, p, s);
  }

  lemma HighTagRead(mem: seq<byte>, off: nat, c: TagClass, p: bool, s: seq<byte>)
    requires off < |mem| && Low5(mem[off]) == 0x1f && ClassOf(mem[off]) == c && (Bit5(mem[off]) <==> p)
    requires Here(mem, off + 1, s)
    requires |s| > 0 && s[|s| - 1] < 0x80 && forall i :: 0 <= i < |s| - 1 ==> s[i] >= 0x80
    ensures ReadTag(mem, off) == TagRead(c, p, Base128(s), 1 + |s|)
  {
    SeptetsCounted(mem, off + 1, s);
    HereSlice(mem, off + 1, s);
  }

  // ---------------------------------------------------------------- well-formed elements

  /** A length field that means n: the short form, or the long form with up to four octets, leading zeros allowed. */
  ghost predicate LengthField(field: seq<byte>, n: nat) {
    || (|field| == 1 && n < 0x80 && field[0] == n)
    || (2 <= |field| <= 5 && field[0] == 0x80 + (|field| - 1) && FromBigEndian(field[1..]) == n)
  }

  /** An element as it may arrive: of definite length, or indefinite with nested elements. */
  datatype Wire =
    | Definite(id: Ident, field: seq<byte>, content: seq<byte>)
    | IndefiniteForm(id: Ident, parts: seq<Wire>)

  /** Identifier and length field mean what they say; an indefinite form may have nothing inside. */
  ghost predicate Element(w: Wire) {
    && ValidIdent(w.id)
    && match w
       case Definite(_, field, content) => LengthField(field, |content|) && |content| < 0x8000_0000
       case IndefiniteForm(id, parts) => id.constructed && forall p | p in parts :: Element(p)
  }

  ghost predicate Elements(ws: seq<Wire>) {
    forall w | w in ws :: Element(w)
  }

  /** What end-of-contents octets are when they are read as an element. */
  function Null(): Wire {
    Definite(LowTag(Universal, false, 0), [0x00], [])
  }

  /** A row that the search can follow: not empty, at any depth, and only its first element may be Null. */
  ghost predicate Row(ws: seq<Wire>)
    decreases ws
  {
    && ws != [] && Elements(ws) && (forall i :: 0 < i < |ws| ==> ws[i] != Null())
    && forall w | w in ws :: w.IndefiniteForm? ==> Row(w.parts)
  }

  ghost function Octets(w: Wire): (s: seq<byte>)
    requires Element(w)
    ensures |s| >= 2
    decreases w
  {
    match w
    case Definite(id, field, content) => IdentOctets(id) + (field + content)
    case IndefiniteForm(id, parts) => IdentOctets(id) + ([0x80] + (AllOctets(parts) + [0x00, 0x00]))
  }

  ghost function AllOctets(ws: seq<Wire>): (s: seq<byte>)
    requires Elements(ws)
    ensures ws != [] ==> |s| >= 2
    decreases ws
  {
    if ws == [] then [] else Octets(ws[0]) + AllOctets(ws[1..])
  }

  /** No other element starts with what looks like end-of-contents octets. */
  lemma NotEoc(w: Wire)
    requires Element(w) && w != Null()
    ensures !(Octets(w)[0] == 0 && Octets(w)[1] == 0)
  {
    var id := IdentOctets(w.id);
    assert Octets(w)[0] == id[0];
    if w.Definite? && w.id == LowTag(Universal, false, 0) {
      assert Octets(w)[1] == w.field[0];
    }
  }

  lemma DefiniteLengthRead(mem: seq<byte>, off: nat, len: nat, field: seq<byte>, n: nat)
    requires LengthField(field, n) && Here(mem, off, field) && len >= |field|
    ensures !IsIndefinite(mem, off, len)
    ensures LengthAt(mem, off, len, EocOutside)
            == LengthRead(if |field| == 1 then DefiniteShort else DefiniteLong, |field|, n)
  {
    HereHead(mem, off, field);
    if |field| > 1 {
      assert field == field[..1] + field[1..];
      HereSplit(mem, off, field[..1], field[1..]);
      HereSlice(mem, off + 1, field[1..]);
    }
  }

  lemma ScanStep(mem: seq<byte>, off: nat, len: nat, pos: nat, size: nat, length: nat, step: Step)
    requires pos < len && EocStep(mem, off, len, pos, size, length) == step && step.Step?
    requires step.next < len - 1 && off + step.next + 1 < |mem|
    ensures EocScan(mem, off, len, pos, size, length)
            == if mem[off + step.next] == 0 && mem[off + step.next + 1] == 0 then At(step.next)
               else EocScan(mem, off, len, step.next, step.lengthSize, step.length)
  {
  }

  lemma DefiniteStep(mem: seq<byte>, off: nat, len: nat, pos: nat, size: nat, length: nat,
                     ident: nat, t: LengthType, s: nat, n: nat)
    requires ReadTag(mem, off + pos).TagRead? && ReadTag(mem, off + pos).size == ident
    requires !IsIndefinite(mem, off + (pos + ident), len)
    requires LengthAt(mem, off + (pos + ident), len, EocOutside) == LengthRead(t, s, n)
    requires n < 0x8000_0000
    ensures EocStep(mem, off, len, pos, size, length) == Step(pos + ident + s + n, s, n)
  {
  }

  lemma IndefiniteStep(mem: seq<byte>, off: nat, len: nat, pos: nat, size: nat, length: nat, ident: nat, n: nat)
    requires ReadTag(mem, off + pos).TagRead? && ReadTag(mem, off + pos).size == ident
    requires ReadTag(mem, off + pos).constructed
    requires IsIndefinite(mem, off + (pos + ident), len)
    requires n < 0x8000_0000 && pos + ident + 1 <= len
    requires FindEocSpec(mem, off + (pos + ident) + 1, len - 1) == At(n)
    requires FindEocSpec(mem, off + (pos + ident) + 1, len - ((pos + ident) + 1)) == At(n)
    ensures EocStep(mem, off, len, pos, size, length) == Step(pos + ident + 1 + n + 2, 1, n)
  {
  }

  lemma DefiniteRead(mem: seq<byte>, off: nat, len: nat, id: Ident, field: seq<byte>, content: seq<byte>)
    requires ValidIdent(id) && LengthField(field, |content|)
    requires Here(mem, off, IdentOctets(id) + (field + content)) && len >= |field|
    ensures ReadTag(mem, off) == TagRead(id.tagClass, id.constructed, TagNumber(id), |IdentOctets(id)|)
    ensures !IsIndefinite(mem, off + |IdentOctets(id)|, len)
    ensures LengthAt(mem, off + |IdentOctets(id)|, len, EocOutside)
            == LengthRead(if |field| == 1 then DefiniteShort else DefiniteLong, |field|, |content|)
  {
    hide ReadTag, LengthAt, Here, IdentOctets, LengthField;
    HereSplit(mem, off, IdentOctets(id), field + content);
    HereSplit(mem, off + |IdentOctets(id)|, field, content);
    IdentRead(mem, off, id);
    DefiniteLengthRead(mem, off + |IdentOctets(id)|, len, field, |content|);
  }

  lemma IndefiniteRead(mem: seq<byte>, off: nat, len: nat, id: Ident, inner: seq<byte>)
    requires ValidIdent(id) && len > 0
    requires Here(mem, off, IdentOctets(id) + ([0x80] + inner))
    ensures ReadTag(mem, off) == TagRead(id.tagClass, id.constructed, TagNumber(id), |IdentOctets(id)|)
    ensures IsIndefinite(mem, off + |IdentOctets(id)|, len)
    ensures Here(mem, off + |IdentOctets(id)| + 1, inner)
  {
    hide ReadTag, IdentOctets;
    var octets := IdentOctets(id);
    HereSplit(mem, off, octets, [0x80] + inner);
    HereSplit(mem, off + |octets|, [0x80], inner);
    HereHead(mem, off + |octets|, [0x80]);
    IdentRead(mem, off, id);
  }

  /** One element takes the scan exactly past itself. */
  lemma {:induction false} StepPastElement(mem: seq<byte>, off: nat, len: nat, pos: nat, size: nat, length: nat,
                                           w: Wire)
    requires Element(w) && (w.IndefiniteForm? ==> Row(w.parts)) && Here(mem, off + pos, Octets(w))
    requires pos + |Octets(w)| <= len && |mem| < 0x8000_0000
    ensures EocStep(mem, off, len, pos, size, length).Step?
    ensures EocStep(mem, off, len, pos, size, length).next == pos + |Octets(w)|
    decreases w, 0
  {
    hide ReadTag, LengthAt, EocStep, FindEocSpec, IdentOctets, LengthField;
    var ident := |IdentOctets(w.id)|;
    match w
    case Definite(id, field, content) =>
      DefiniteRead(mem, off + pos, len, id, field, content);
      DefiniteStep(mem, off, len, pos, size, length, ident,
                   if |field| == 1 then DefiniteShort else DefiniteLong, |field|, |content|);
    case IndefiniteForm(id, parts) =>
      IndefiniteRead(mem, off + pos, len, id, AllOctets(parts) + [0x00, 0x00]);
      FindsEoc(mem, off + (pos + ident) + 1, len - 1, parts);
      FindsEoc(mem, off + (pos + ident) + 1, len - ((pos + ident) + 1), parts);
      IndefiniteStep(mem, off, len, pos, size, length, ident, |AllOctets(parts)|);
  }

  lemma {:induction false} ScanPastElement(mem: seq<byte>, off: nat, len: nat, pos: nat, size: nat, length: nat,
                                           w: Wire, next: nat) returns (size': nat, length': nat)
    requires Element(w) && (w.IndefiniteForm? ==> Row(w.parts)) && Here(mem, off + pos, Octets(w))
    requires next == pos + |Octets(w)| <= len && |mem| < 0x8000_0000
    ensures EocScan(mem, off, len, pos, size, length)
            == if next < len - 1 && off + next + 1 >= |mem| then EocOutside
               else if EocHere(mem, off, len, next) then At(next)
               else EocScan(mem, off, len, next, size', length')
    decreases w, 1
  {
    hide EocStep, Here, Octets, Row;
    StepPastElement(mem, off, len, pos, size, length, w);
    var step := EocStep(mem, off, len, pos, size, length);
    size', length' := step.lengthSize, step.length;
  }

  lemma {:induction false} ScanFindsEoc(mem: seq<byte>, off: nat, len: nat, pos: nat, size: nat, length: nat,
                                        ws: seq<Wire>)
    requires Row(ws)
    requires Here(mem, off + pos, AllOctets(ws) + [0x00, 0x00])
    requires pos + |AllOctets(ws)| + 2 <= len && |mem| < 0x8000_0000
    ensures EocScan(mem, off, len, pos, size, length) == At(pos + |AllOctets(ws)|)
    decreases ws, 1
  {
    hide EocStep, EocScan, Here, Octets;
    var octets, rest := Octets(ws[0]), ws[1..];
    var after := AllOctets(rest) + [0x00, 0x00];
    assert AllOctets(ws) + [0x00, 0x00] == octets + after;
    HereSplit(mem, off + pos, octets, after);
    var next := pos + |octets|;
    HereTwo(mem, off + next, after);
    var size', length' := ScanPastElement(mem, off, len, pos, size, length, ws[0], next);
    EndsHereIfDone(rest);
    if rest != [] {
      ScanFindsEoc(mem, off, len, next, size', length', rest);
    }
  }

  lemma EndsHereIfDone(rest: seq<Wire>)
    requires Elements(rest) && forall i :: 0 <= i < |rest| ==> rest[i] != Null()
    ensures var s := AllOctets(rest) + [0x00, 0x00]; s[0] == 0 && s[1] == 0 <==> rest == []
  {
    hide Octets, Elements, AllOctets;
    NothingHasNoOctets();
    if rest != [] {
      RowStart(rest);
    }
  }

  lemma RowStart(ws: seq<Wire>)
    requires Elements(ws) && ws != [] && ws[0] != Null()
    ensures |AllOctets(ws)| >= 2 && !(AllOctets(ws)[0] == 0 && AllOctets(ws)[1] == 0)
  {
    hide Octets, Element;
    NotEoc(ws[0]);
  }

  lemma HereTwo(mem: seq<byte>, off: nat, s: seq<byte>)
    requires Here(mem, off, s) && |s| >= 2
    ensures off + 1 < |mem| && mem[off] == s[0] && mem[off + 1] == s[1]
  {
    assert mem[off + 0] == s[0] && mem[off + 1] == s[1];
  }

  /** On any row followed by 00 00, find_eoc returns the length of the row, whatever follows and however far beyond it
      the caller's length reaches. */
  lemma {:induction false} FindsEoc(mem: seq<byte>, off: nat, len: nat, ws: seq<Wire>)
    requires Row(ws)
    requires Here(mem, off, AllOctets(ws) + [0x00, 0x00])
    requires |AllOctets(ws)| + 2 <= len && |mem| < 0x8000_0000
    ensures FindEocSpec(mem, off, len) == At(|AllOctets(ws)|)
    decreases ws, 2
  {
    ScanFindsEoc(mem, off, len, 0, 0, 0, ws);
  }

  /** A scan crosses a row without stopping in it. */
  lemma {:induction false} ScanAcross(mem: seq<byte>, off: nat, len: nat, pos: nat, size: nat, length: nat,
                                      ws: seq<Wire>)
      returns (size': nat, length': nat)
    requires Row(ws) && Here(mem, off + pos, AllOctets(ws))
    requires pos + |AllOctets(ws)| <= len && |mem| < 0x8000_0000
    ensures var end := pos + |AllOctets(ws)|;
            EocScan(mem, off, len, pos, size, length)
            == if end < len - 1 && off + end + 1 >= |mem| then EocOutside
               else if EocHere(mem, off, len, end) then At(end)
               else EocScan(mem, off, len, end, size', length')
    decreases ws
  {
    hide EocStep, EocScan, Here, Octets;
    var octets, rest := Octets(ws[0]), ws[1..];
    HereSplit(mem, off + pos, octets, AllOctets(rest));
    var next := pos + |octets|;
    size', length' := ScanPastElement(mem, off, len, pos, size, length, ws[0], next);
    if rest != [] {
      HereTwo(mem, off + next, AllOctets(rest));
      RowStart(rest);
      size', length' := ScanAcross(mem, off, len, next, size', length', rest);
    }
  }

  /** What a scan over a row finds lies beyond it; over a row that runs to the end of the data it finds nothing. */
  lemma ScanPastRow(mem: seq<byte>, off: nat, len: nat, pos: nat, size: nat, length: nat, ws: seq<Wire>)
    requires Row(ws) && Here(mem, off + pos, AllOctets(ws))
    requires pos + |AllOctets(ws)| <= len && |mem| < 0x8000_0000
    ensures var r := EocScan(mem, off, len, pos, size, length); r.At? ==> r.pos == 0 || r.pos >= pos + |AllOctets(ws)|
    ensures len == pos + |AllOctets(ws)| ==> EocScan(mem, off, len, pos, size, length) == At(0)
  {
    hide EocScan, Here, AllOctets;
    var size', length' := ScanAcross(mem, off, len, pos, size, length, ws);
    ScanGoesOn(mem, off, len, pos + |AllOctets(ws)|, size', length');
  }

  /** What the scan finds, it finds further on. */
  lemma {:induction false} ScanGoesOn(mem: seq<byte>, off: nat, len: nat, pos: nat, size: nat, length: nat)
    ensures var r := EocScan(mem, off, len, pos, size, length); r.At? ==> r.pos == 0 || r.pos > pos
    ensures pos >= len ==> EocScan(mem, off, len, pos, size, length) == At(0)
    decreases |mem| - off - pos
  {
    hide EocStep;
    if pos < len {
      match EocStep(mem, off, len, pos, size, length)
      case StepOutside =>
      case Step(next, size', length') =>
        if !(next < len - 1 && off + next + 1 >= |mem|) && !EocHere(mem, off, len, next) {
          ScanGoesOn(mem, off, len, next, size', length');
        }
    }
  }

  // ---------------------------------------------------------------- contents that are empty, or hold something empty

  /** X.690 keeps the universal tag 0 for the end-of-contents octets: no element has it, at any depth. */
  ghost predicate Legal(ws: seq<Wire>)
    decreases ws
  {
    Elements(ws) && forall w | w in ws :: w.id != LowTag(Universal, false, 0) && (w.IndefiniteForm? ==> Legal(w.parts))
  }

  /** How many indefinite forms have nothing inside, at any depth. */
  ghost function Empties(ws: seq<Wire>): nat
    decreases ws
  {
    if ws == [] then 0 else EmptiesIn(ws[0]) + Empties(ws[1..])
  }

  ghost function EmptiesIn(w: Wire): nat
    decreases w
  {
    match w
    case Definite(_, _, _) => 0
    case IndefiniteForm(_, parts) => if parts == [] then 1 else Empties(parts)
  }

  lemma LegalSplit(ws: seq<Wire>)
    requires Legal(ws) && ws != []
    ensures Element(ws[0]) && ws[0] != Null() && Legal(ws[1..]) && (ws[0].IndefiniteForm? ==> Legal(ws[0].parts))
  {
    assert ws[0] in ws && forall w :: w in ws[1..] ==> w in ws;
  }

  /** Rows may be joined when the second does not start with Null. */
  lemma RowJoin(a: seq<Wire>, b: seq<Wire>)
    requires Row(a) && (b != [] ==> Row(b) && b[0] != Null())
    ensures Row(a + b)
  {
    var ws := a + b;
    forall i | 0 <= i < |ws| ensures ws[i] in a || ws[i] in b {
    }
    forall i | 0 < i < |ws| ensures ws[i] != Null() {
    }
  }

  lemma RowOne(w: Wire)
    requires Element(w) && (w.IndefiniteForm? ==> Row(w.parts))
    ensures Row([w])
  {
  }

  /** A legal row without empty forms is one the search can follow. */
  lemma {:induction false} NoneEmptyIsRow(ws: seq<Wire>)
    requires Legal(ws) && Empties(ws) == 0 && ws != []
    ensures Row(ws) && ws[0] != Null()
    decreases ws
  {
    hide Row, Legal, Element;
    LegalSplit(ws);
    if ws[0].IndefiniteForm? {
      NoneEmptyIsRow(ws[0].parts);
    }
    RowOne(ws[0]);
    if ws[1..] != [] {
      NoneEmptyIsRow(ws[1..]);
    }
    RowJoin([ws[0]], ws[1..]);
    assert ws == [ws[0]] + ws[1..];
  }

  /** find_eoc measures every legal row without empty forms, other than the empty row. */
  lemma MeasuresLegal(mem: seq<byte>, off: nat, len: nat, ws: seq<Wire>)
    requires Legal(ws) && Empties(ws) == 0 && ws != []
    requires Here(mem, off, AllOctets(ws) + [0x00, 0x00]) && |AllOctets(ws)| + 2 <= len && |mem| < 0x8000_0000
    ensures FindEocSpec(mem, off, len) == At(|AllOctets(ws)|)
  {
    NoneEmptyIsRow(ws);
    FindsEoc(mem, off, len, ws);
  }

  /** Empty contents are legal, but the search does not look before the first element: it takes their end-of-contents
      octets for one.  With a legal row ws after them it comes to 0, which is right, if and only if that row runs to the
      end of the data and is not closed by end-of-contents octets of its own. */
  lemma EmptyContentsIff(mem: seq<byte>, off: nat, len: nat, ws: seq<Wire>, closed: bool)
    requires Legal(ws) && Empties(ws) == 0 && |mem| < 0x8000_0000
    requires Here(mem, off, [0x00, 0x00] + AllOctets(ws) + if closed then [0x00, 0x00] else [])
    requires if closed then 2 + |AllOctets(ws)| + 2 <= len else 2 + |AllOctets(ws)| == len
    ensures FindEocSpec(mem, off, len) == At(0) <==> !closed
    ensures FindEocSpec(mem, off, len) == At(if closed then 2 + |AllOctets(ws)| else 0)
  {
    var all := [Null()] + ws;
    RowOne(Null());
    if ws != [] {
      NoneEmptyIsRow(ws);
    }
    RowJoin([Null()], ws);
    assert all[1..] == ws && IdentOctets(Null().id) == [0x00] && Octets(Null()) == [0x00, 0x00];
    assert AllOctets(all) == [0x00, 0x00] + AllOctets(ws);
    if closed {
      FindsEoc(mem, off, len, all);
    } else {
      assert AllOctets(all) + [] == AllOctets(all);
      ScanPastRow(mem, off, len, 0, 0, 0, all);
    }
  }

  /** With exactly one empty form, the search takes the end-of-contents octets of that form for an element, and those of
      every form around it one level too far in. */
  ghost function Shifted(ws: seq<Wire>): (r: seq<Wire>)
    requires Legal(ws) && Empties(ws) == 1
    decreases ws
  {
    LegalSplit(ws);
    if EmptiesIn(ws[0]) == 0 then [ws[0]] + Shifted(ws[1..])
    else [IndefiniteForm(ws[0].id, (if ws[0].parts == [] then [Null()] else Shifted(ws[0].parts)) + ws[1..])]
  }

  lemma AllOctetsJoin(a: seq<Wire>, b: seq<Wire>)
    requires Elements(a) && Elements(b)
    ensures Elements(a + b) && AllOctets(a + b) == AllOctets(a) + AllOctets(b)
  {
    hide Element, Octets;
    assert forall w :: w in a + b ==> w in a || w in b;
    if a == [] {
      assert a + b == b;
    } else {
      AllOctetsJoin(a[1..], b);
      assert (a + b)[0] == a[0] && (a + b)[1..] == a[1..] + b;
    }
  }

  lemma {:induction false} ShiftedIs(ws: seq<Wire>)
    requires Legal(ws) && Empties(ws) == 1
    ensures Row(Shifted(ws)) && Shifted(ws)[0] != Null()
    ensures AllOctets(Shifted(ws)) == AllOctets(ws) + [0x00, 0x00]
    decreases ws
  {
    hide Row, Legal, Element, Octets;
    LegalSplit(ws);
    var w, rest := ws[0], ws[1..];
    if EmptiesIn(w) == 0 {
      ShiftedIs(rest);
      if w.IndefiniteForm? {
        NoneEmptyIsRow(w.parts);
      }
      RowOne(w);
      RowJoin([w], Shifted(rest));
      assert Shifted(ws)[1..] == Shifted(rest);
    } else {
      if w.parts != [] {
        ShiftedIs(w.parts);
      }
      ShiftedForm(w.id, w.parts, if w.parts == [] then [Null()] else Shifted(w.parts), rest);
      assert ws == [w] + rest;
    }
  }

  /** The form takes in its own end-of-contents octets and the rest of its row, up to those that close the row. */
  lemma ShiftedForm(id: Ident, parts: seq<Wire>, inner: seq<Wire>, rest: seq<Wire>)
    requires ValidIdent(id) && id.constructed && Legal(parts) && Legal(rest) && Empties(rest) == 0
    requires if parts == [] then inner == [Null()]
             else Row(inner) && AllOctets(inner) == AllOctets(parts) + [0x00, 0x00]
    ensures Row([IndefiniteForm(id, inner + rest)]) && Elements([IndefiniteForm(id, parts)] + rest)
    ensures AllOctets([IndefiniteForm(id, inner + rest)])
            == AllOctets([IndefiniteForm(id, parts)] + rest) + [0x00, 0x00]
  {
    hide Row, Legal, Octets, Empties, Elements, AllOctets;
    NullRow();
    NothingHasNoOctets();
    if rest != [] {
      NoneEmptyIsRow(rest);
    }
    RowJoin(inner, rest);
    RowElements(inner);
    RowElements(inner + rest);
    RowOne(IndefiniteForm(id, inner + rest));
    LegalElements(parts);
    LegalElements(rest);
    SameOctets(id, parts, inner, rest);
  }

  lemma NothingHasNoOctets()
    ensures Elements([]) && AllOctets([]) == []
  {
  }

  lemma SameOctets(id: Ident, parts: seq<Wire>, inner: seq<Wire>, rest: seq<Wire>)
    requires ValidIdent(id) && id.constructed && Elements(parts) && Elements(inner) && Elements(rest)
    requires AllOctets(inner) == AllOctets(parts) + [0x00, 0x00]
    ensures Elements([IndefiniteForm(id, inner + rest)]) && Elements([IndefiniteForm(id, parts)] + rest)
    ensures AllOctets([IndefiniteForm(id, inner + rest)])
            == AllOctets([IndefiniteForm(id, parts)] + rest) + [0x00, 0x00]
  {
    hide Octets, Elements, AllOctets;
    NothingHasNoOctets();
    FormOctets(id, parts, [], rest);
    FormOctets(id, inner, rest, []);
    var wide := IndefiniteForm(id, inner + rest);
    assert [wide] + [] == [wide] && parts + [] == parts;
    Regrouped(IdentOctets(id), AllOctets(parts), AllOctets(rest));
  }

  lemma NullRow()
    ensures Row([Null()]) && AllOctets([Null()]) == [0x00, 0x00]
  {
    RowOne(Null());
    assert AllOctets([Null()]) == Octets(Null()) == IdentOctets(Null().id) + ([0x00] + []) == [0x00, 0x00];
  }

  lemma RowElements(ws: seq<Wire>)
    requires Row(ws)
    ensures Elements(ws)
  {
  }

  lemma LegalElements(ws: seq<Wire>)
    requires Legal(ws)
    ensures Elements(ws)
  {
  }

  lemma FormOctets(id: Ident, a: seq<Wire>, b: seq<Wire>, rest: seq<Wire>)
    requires ValidIdent(id) && id.constructed && Elements(a) && Elements(b) && Elements(rest)
    ensures Elements(a + b) && Elements([IndefiniteForm(id, a + b)] + rest)
    ensures AllOctets([IndefiniteForm(id, a + b)] + rest)
            == IdentOctets(id) + ([0x80] + (AllOctets(a) + AllOctets(b) + [0x00, 0x00])) + AllOctets(rest)
  {
    AllOctetsJoin(a, b);
    var w := IndefiniteForm(id, a + b);
    assert ([w] + rest)[1..] == rest;
  }

  lemma Regrouped(head: seq<byte>, p: seq<byte>, r: seq<byte>)
    ensures head + ([0x80] + (p + [0x00, 0x00] + r + [0x00, 0x00])) + []
            == head + ([0x80] + (p + [] + [0x00, 0x00])) + r + [0x00, 0x00]
  {
  }

  /** A legal row with exactly one empty form, however deep, is never measured right, whatever follows its
      end-of-contents octets and however far the caller's length reaches. */
  lemma OneEmptyMissed(mem: seq<byte>, off: nat, len: nat, ws: seq<Wire>)
    requires Legal(ws) && Empties(ws) == 1
    requires Here(mem, off, AllOctets(ws) + [0x00, 0x00]) && |AllOctets(ws)| + 2 <= len && |mem| < 0x8000_0000
    ensures FindEocSpec(mem, off, len) != At(|AllOctets(ws)|)
    ensures len == |AllOctets(ws)| + 2 ==> FindEocSpec(mem, off, len) == At(0)
  {
    hide EocScan, Row, Octets;
    ShiftedIs(ws);
    ScanPastRow(mem, off, len, 0, 0, 0, Shifted(ws));
  }

  /** A legal row that is not empty and has at most one empty form is measured if and only if it has none. */
  lemma MeasuresIff(mem: seq<byte>, off: nat, len: nat, ws: seq<Wire>)
    requires Legal(ws) && ws != [] && Empties(ws) <= 1
    requires Here(mem, off, AllOctets(ws) + [0x00, 0x00]) && |AllOctets(ws)| + 2 <= len && |mem| < 0x8000_0000
    ensures FindEocSpec(mem, off, len) == At(|AllOctets(ws)|) <==> Empties(ws) == 0
  {
    if Empties(ws) == 0 {
      MeasuresLegal(mem, off, len, ws);
    } else {
      OneEmptyMissed(mem, off, len, ws);
    }
  }

  /** The simplest case of EmptyContentsIff: the octets that close empty contents, followed by others. */
  lemma EmptyContentsMissed(mem: seq<byte>, off: nat, len: nat)
    requires Here(mem, off, [0x00, 0x00, 0x00, 0x00]) && len >= 4
    ensures FindEocSpec(mem, off, len) == At(2)
  {
    var octets: seq<byte> := [0x00, 0x00, 0x00, 0x00];
    HereTwo(mem, off, octets);
    HereSplit(mem, off, octets[..2], octets[2..]);
    HereTwo(mem, off + 2, octets[2..]);
    assert EocStep(mem, off, len, 0, 0, 0) == Step(2, 1, 0);
    ScanStep(mem, off, len, 0, 0, 0, Step(2, 1, 0));
  }

  // ---------------------------------------------------------------- two empty forms: nothing can be said

  ghost function Form(parts: seq<Wire>): Wire {
    IndefiniteForm(LowTag(ContextSpecific, true, 0), parts)
  }

  lemma FormIs(parts: seq<Wire>)
    requires Elements(parts)
    ensures Element(Form(parts)) && Octets(Form(parts)) == [0xa0, 0x80] + AllOctets(parts) + [0x00, 0x00]
  {
    assert IdentOctets(Form(parts).id) == [0xa0];
  }

  lemma RowOf(a: Wire, b: seq<Wire>)
    requires Element(a) && Elements(b)
    ensures Elements([a] + b) && AllOctets([a] + b) == Octets(a) + AllOctets(b)
  {
    assert ([a] + b)[1..] == b;
  }

  /** An element whose contents the search can mistake for the start of another. */
  ghost function Decoy(x: byte, y: byte): Wire {
    Definite(LowTag(Universal, false, 4), [0x02], [x, y])
  }

  ghost function TwoEmpties(x: byte, y: byte): seq<Wire> {
    [Form([Decoy(x, y), Form([]), Form([])])]
  }

  function TwoEmptiesOctets(x: byte, y: byte): seq<byte> {
    [0xa0, 0x80, 0x04, 0x02, x, y, 0xa0, 0x80, 0x00, 0x00, 0xa0, 0x80, 0x00, 0x00, 0x00, 0x00, 0x00, 0x00, 0x05,
     0x00]
  }

  lemma DecoyIs(x: byte, y: byte)
    ensures Element(Decoy(x, y)) && Decoy(x, y) != Null() && Octets(Decoy(x, y)) == [0x04, 0x02, x, y]
  {
    assert IdentOctets(Decoy(x, y).id) == [0x04];
  }

  lemma TwoEmptiesAre(x: byte, y: byte)
    ensures Elements(TwoEmpties(x, y)) && AllOctets(TwoEmpties(x, y)) == TwoEmptiesOctets(x, y)[..16]
  {
    hide Octets, Element, AllOctets, Form, Decoy;
    DecoyIs(x, y);
    NothingHasNoOctets();
    FormIs([]);
    RowOf(Form([]), []);
    RowOf(Form([]), [Form([])] + []);
    RowOf(Decoy(x, y), [Form([])] + ([Form([])] + []));
    var parts := [Decoy(x, y)] + ([Form([])] + ([Form([])] + []));
    assert parts == [Decoy(x, y), Form([]), Form([])];
    FormIs(parts);
    RowOf(Form(parts), []);
    assert TwoEmpties(x, y) == [Form(parts)] + [];
  }

  lemma TwoEmptiesLegal(x: byte, y: byte)
    ensures Legal(TwoEmpties(x, y)) && Empties(TwoEmpties(x, y)) == 2
  {
    DecoyIs(x, y);
    var forms, parts := [Form([]), Form([])], [Decoy(x, y), Form([]), Form([])];
    assert parts[1..] == forms && forms[1..] == [Form([])] && [Form([])][1..] == [];
    assert Empties(forms) == 2 && Empties(parts) == 2;
  }

  /** Both readings of the contents of the outer form run to its end without finding it. */
  lemma DecoyContents(x: byte, y: byte)
    ensures var inner := [Null()] + [Form([Null()])]; var row := [Decoy(x, y)] + [Form(inner)];
            Row(row) && AllOctets(row) == TwoEmptiesOctets(x, y)[2..18]
  {
    hide Octets, Element, AllOctets, Form, Decoy, Row, TwoEmptiesOctets;
    DecoyIs(x, y);
    NullRow();
    NothingHasNoOctets();
    RowElements([Null()]);
    FormIs([Null()]);
    FormRow([Null()]);
    RowOf(Form([Null()]), []);
    var inner := [Null()] + [Form([Null()])];
    RowJoin([Null()], [Form([Null()])]);
    AllOctetsJoin([Null()], [Form([Null()])]);
    FormIs(inner);
    FormRow(inner);
    RowOf(Form(inner), []);
    assert [Form([Null()])] + [] == [Form([Null()])] && [Form(inner)] + [] == [Form(inner)];
    DecoyRow(x, y);
    RowJoin([Decoy(x, y)], [Form(inner)]);
    RowOf(Decoy(x, y), [Form(inner)]);
    assert AllOctets(inner) == [0x00, 0x00, 0xa0, 0x80, 0x00, 0x00, 0x00, 0x00];
    assert AllOctets([Form(inner)])
           == [0xa0, 0x80, 0x00, 0x00, 0xa0, 0x80, 0x00, 0x00, 0x00, 0x00, 0x00, 0x00];
    InnerOctets(x, y);
  }

  lemma InnerOctets(x: byte, y: byte)
    ensures TwoEmptiesOctets(x, y)[2..18]
            == [0x04, 0x02, x, y] + [0xa0, 0x80, 0x00, 0x00, 0xa0, 0x80, 0x00, 0x00, 0x00, 0x00, 0x00, 0x00]
  {
  }

  lemma FormRow(parts: seq<Wire>)
    requires Row(parts)
    ensures Row([Form(parts)]) && Form(parts) != Null() && Elements([Form(parts)])
  {
  }

  lemma DecoyRow(x: byte, y: byte)
    ensures Row([Decoy(x, y)])
  {
    DecoyIs(x, y);
    RowOne(Decoy(x, y));
  }

  lemma TwoEmptiesHere(x: byte, y: byte)
    ensures Legal(TwoEmpties(x, y)) && Empties(TwoEmpties(x, y)) == 2 && |AllOctets(TwoEmpties(x, y))| == 16
    ensures Here(TwoEmptiesOctets(x, y), 0, AllOctets(TwoEmpties(x, y)) + [0x00, 0x00])
  {
    hide EocStep, EocScan, AllOctets, Row, Legal, Empties;
    TwoEmptiesLegal(x, y);
    TwoEmptiesAre(x, y);
    HereSlice(TwoEmptiesOctets(x, y), 0, AllOctets(TwoEmpties(x, y)) + [0x00, 0x00]);
    assert AllOctets(TwoEmpties(x, y)) + [0x00, 0x00] == TwoEmptiesOctets(x, y)[..18];
  }

  /** With two empty forms the search can be right by accident. */
  lemma TwoEmptiesFound()
    ensures var ws, mem := TwoEmpties(0x04, 0x0a), TwoEmptiesOctets(0x04, 0x0a);
            && Legal(ws) && Empties(ws) == 2 && |AllOctets(ws)| == 16 && Here(mem, 0, AllOctets(ws) + [0x00, 0x00])
            && FindEocSpec(mem, 0, 18) == At(16)
  {
    hide EocStep, EocScan, AllOctets, Row, Legal, Empties, TwoEmpties;
    var mem := TwoEmptiesOctets(0x04, 0x0a);
    TwoEmptiesHere(0x04, 0x0a);
    OuterStep(0x04, 0x0a);
    DecoyStep();
    ScanStep(mem, 0, 18, 0, 0, 0, Step(4, 1, 0));
    ScanStep(mem, 0, 18, 4, 1, 0, Step(16, 1, 10));
    assert FindEocSpec(mem, 0, 18) == EocScan(mem, 0, 18, 0, 0, 0);
  }

  /** The same forms around other octets are measured wrong: no condition on empty forms alone decides it. */
  lemma TwoEmptiesMissed()
    ensures var ws, mem := TwoEmpties(0x05, 0x05), TwoEmptiesOctets(0x05, 0x05);
            && Legal(ws) && Empties(ws) == 2 && |AllOctets(ws)| == 16 && Here(mem, 0, AllOctets(ws) + [0x00, 0x00])
            && FindEocSpec(mem, 0, 18) == At(13)
  {
    hide EocStep, EocScan, AllOctets, Row, Legal, Empties, TwoEmpties;
    var mem := TwoEmptiesOctets(0x05, 0x05);
    TwoEmptiesHere(0x05, 0x05);
    OuterStep(0x05, 0x05);
    ShortDecoySteps();
    ScanStep(mem, 0, 18, 0, 0, 0, Step(4, 1, 0));
    ScanStep(mem, 0, 18, 4, 1, 0, Step(11, 1, 5));
    ScanStep(mem, 0, 18, 11, 1, 5, Step(13, 1, 0));
    assert FindEocSpec(mem, 0, 18) == EocScan(mem, 0, 18, 0, 0, 0);
  }

  /** Over the contents of the outer form the search runs to the end of the data. */
  lemma InnerSearchFails(x: byte, y: byte)
    ensures FindEocSpec(TwoEmptiesOctets(x, y), 2, 16) == At(0) && FindEocSpec(TwoEmptiesOctets(x, y), 2, 17) == At(0)
  {
    hide EocStep, AllOctets, Row;
    var mem := TwoEmptiesOctets(x, y);
    DecoyContents(x, y);
    var row := [Decoy(x, y)] + [Form([Null()] + [Form([Null()])])];
    RowElements(row);
    HereSlice(mem, 2 + 0, AllOctets(row));
    ScanPastRow(mem, 2, 16, 0, 0, 0, row);
    var size', length' := ScanAcross(mem, 2, 17, 0, 0, 0, row);
    LastStep(x, y, size', length');
    assert EocScan(mem, 2, 17, 16, size', length') == EocScan(mem, 2, 17, 18, 1, 0) == At(0);
  }

  lemma LastStep(x: byte, y: byte, size: nat, length: nat)
    ensures EocStep(TwoEmptiesOctets(x, y), 2, 17, 16, size, length) == Step(18, 1, 0)
  {
    hide EocScan;
  }

  /** So the outer form is taken to be empty, and the scan goes on inside it. */
  lemma OuterStep(x: byte, y: byte)
    ensures EocStep(TwoEmptiesOctets(x, y), 0, 18, 0, 0, 0) == Step(4, 1, 0)
  {
    hide EocScan, FindEocSpec, EocStep;
    InnerSearchFails(x, y);
    IndefiniteStep(TwoEmptiesOctets(x, y), 0, 18, 0, 0, 0, 1, 0);
  }

  /** An element of one identifier octet and one length octet. */
  lemma ShortStep(mem: seq<byte>, len: nat, pos: nat, size: nat, length: nat)
    requires pos + 1 < |mem| && pos + 1 < len && Low5(mem[pos]) != 0x1f && mem[pos + 1] < 0x80
    ensures EocStep(mem, 0, len, pos, size, length) == Step(pos + 2 + mem[pos + 1], 1, mem[pos + 1])
  {
    hide EocStep, FindEocSpec, FromBigEndian;
    DefiniteStep(mem, 0, len, pos, size, length, 1, DefiniteShort, 1, mem[pos + 1]);
  }

  /** The octets there look like an element of ten contents octets, with end-of-contents octets after it. */
  lemma DecoyStep()
    ensures EocStep(TwoEmptiesOctets(0x04, 0x0a), 0, 18, 4, 1, 0) == Step(16, 1, 10)
  {
    hide EocStep, EocScan, FindEocSpec;
    ShortStep(TwoEmptiesOctets(0x04, 0x0a), 18, 4, 1, 0);
  }

  /** And with other octets like one of five, which ends inside the second empty form. */
  lemma ShortDecoySteps()
    ensures EocStep(TwoEmptiesOctets(0x05, 0x05), 0, 18, 4, 1, 0) == Step(11, 1, 5)
    ensures EocStep(TwoEmptiesOctets(0x05, 0x05), 0, 18, 11, 1, 5) == Step(13, 1, 0)
  {
    hide EocStep, EocScan, FindEocSpec;
    ShortStep(TwoEmptiesOctets(0x05, 0x05), 18, 4, 1, 0);
    ShortStep(TwoEmptiesOctets(0x05, 0x05), 18, 11, 1, 5);
  }
}
