/** decode with a definition, on the heap: it draws records and nodes from the pool, builds the tree of elements
    under root_node and links the matching components of the definition (src/asn1/asn1.cpp, _decode). */
module Asn1Decode {
  import opened Wrappers
  import opened Asn1Octets
  import opened Asn1Read
  import opened Asn1Node
  import opened Asn1Pool
  import opened Asn1Parse

  /** How a call ends: with the source's return code, or outside the model. */
  datatype Outcome = LeftModel | Done(code: int)

  function OutcomeOf(p: Parsed): Outcome {
    match p
    case Outside => LeftModel
    case Failed(code) => Done(code)
    case Parsed(_, _, _) => Done(0)
  }

  // ---------------------------------------------------------------- definitions

  ghost predicate Named(D: set<ASN1Node>) {
    forall d, e | d in D && e in D && d.id == e.id :: d == e
  }

  /** A definition tree, fully created, without ANY, CHOICE and unlimited components. */
  ghost predicate DefTree(D: set<ASN1Node>)
    reads D`tlv, D`children, D`height, Tlvs(D)`tagValue, Tlvs(D)`uniTag, Tlvs(D)`unlimited
  {
    && (forall d, c | d in D && c in d.children :: c in D && c.height < d.height)
    && Named(D)
    && forall d | d in D ::
         d.tlv.uniTag != CHOICE && d.tlv.tagValue != CHOICE && d.tlv.tagValue != ANY && !d.tlv.unlimited
  }

  ghost function DefOf(d: ASN1Node, D: set<ASN1Node>): Def
    requires d in D && DefTree(D)
    reads D`tlv, D`children, D`height, Tlvs(D)`tagValue, Tlvs(D)`uniTag, Tlvs(D)`unlimited, Tlvs(D)`tagClass
    decreases d.height, 1, 0
  {
    Def(d.id, ClassTagOf(d), TagOf(d), d.tlv.uniTag == SET, DefsOf(d.children, d.height, D))
  }

  ghost function DefsOf(ds: seq<ASN1Node>, height: nat, D: set<ASN1Node>): (r: seq<Def>)
    requires DefTree(D) && forall d | d in ds :: d in D && d.height < height
    reads D`tlv, D`children, D`height, Tlvs(D)`tagValue, Tlvs(D)`uniTag, Tlvs(D)`unlimited, Tlvs(D)`tagClass
    ensures |r| == |ds| && forall i | 0 <= i < |ds| :: r[i] == DefOf(ds[i], D)
    decreases height, 0, |ds|
  {
    if ds == [] then [] else [DefOf(ds[0], D)] + DefsOf(ds[1..], height, D)
  }

  /** What is known of the definition nodes: the definitions they stand for, and a bound on their session ids. */
  datatype Definitions = Definitions(of: map<nat, Def>, latest: nat)

  ghost predicate DefAt(D: set<ASN1Node>, defs: Definitions)
    reads D`sessionId, D`tlv, D`children, D`height, Tlvs(D)`tagValue, Tlvs(D)`uniTag, Tlvs(D)`unlimited,
          Tlvs(D)`tagClass
  {
    DefTree(D) && UpTo(D, defs.latest) && forall d | d in D :: d.id in defs.of && defs.of[d.id] == DefOf(d, D)
  }

  /** No component carries a later session id. */
  ghost predicate UpTo(D: set<ASN1Node>, latest: nat)
    reads D`sessionId
  {
    forall d | d in D :: d.sessionId <= latest
  }

  twostate lemma DefKept(D: set<ASN1Node>, new defs: Definitions)
    requires old(DefAt(D, defs)) && UpTo(D, defs.latest)
    requires forall d | d in D :: d.tlv == old(d.tlv) && d.children == old(d.children) && d.height == old(d.height)
    requires forall d | d in D :: unchanged(d.tlv)
    ensures DefAt(D, defs)
  {
    assert DefTree(D);
    forall d | d in D ensures DefOf(d, D) == old(DefOf(d, D)) {
      DefOfKept(d, D);
    }
  }

  twostate lemma DefOfKept(d: ASN1Node, new D: set<ASN1Node>)
    requires old(allocated(D))
    requires d in D && old(DefTree(D)) && DefTree(D)
    requires forall e | e in D :: e.tlv == old(e.tlv) && e.children == old(e.children) && e.height == old(e.height)
    requires forall e | e in D :: unchanged(e.tlv)
    ensures DefOf(d, D) == old(DefOf(d, D))
    decreases d.height
  {
    forall c | c in d.children ensures DefOf(c, D) == old(DefOf(c, D)) {
      DefOfKept(c, D);
    }
    var now, before := DefsOf(d.children, d.height, D), old(DefsOf(d.children, d.height, D));
    assert forall i | 0 <= i < |now| :: now[i] == before[i];
  }

  ghost function DefOrNone(d: ASN1Node?, defs: Definitions): Option<Def> {
    if d == null || d.id !in defs.of then None else Some(defs.of[d.id])
  }

  // ---------------------------------------------------------------- what a decode leaves behind

  /** The record v is what was read of the element t. */
  ghost predicate Reads(v: TLVNode, t: Tlv)
    reads v
  {
    && v.tagClass == t.tagClass && v.complexity == (if t.constructed then Constructed else Primitive)
    && v.tagValue == t.tag && v.tagValueSize == t.tagSize
    && v.lengthType == t.lengthType && v.valueLengthSize == t.lengthSize
    && v.value == t.value && v.valueLength == |t.value|
  }

  /** And the record is ready to be encoded again. */
  ghost predicate Holds(v: TLVNode, t: Tlv)
    reads v
  {
    Reads(v, t) && v.oldValueLength == t.lengthSize + |t.value|
  }

  /** cs is the forest ts, its elements held by the nodes and records requested from the k-th on, in order. */
  ghost predicate Built(cs: seq<ASN1Node>, ts: seq<Tlv>, k: nat, ns: seq<ASN1Node>, vs: seq<TLVNode>)
    requires k + SizeAll(ts) <= |vs| <= |ns|
    reads ns, vs
    decreases ts
  {
    if ts == [] then cs == []
    else
      && cs != [] && cs[0] == ns[k] && ns[k].tlv == vs[k] && Reads(vs[k], ts[0])
      && Built(ns[k].children, ts[0].kids, k + 1, ns, vs)
      && Built(cs[1..], ts[1..], k + 1 + SizeAll(ts[0].kids), ns, vs)
  }

  lemma {:induction false} SizeAppend(ts: seq<Tlv>, t: Tlv)
    ensures SizeAll(ts + [t]) == SizeAll(ts) + 1 + SizeAll(t.kids)
  {
    if ts == [] {
      assert ts + [t] == [t] && [t][1..] == [];
    } else {
      SizeAppend(ts[1..], t);
      assert (ts + [t])[1..] == ts[1..] + [t];
    }
  }

  lemma SizeOne(t: Tlv)
    ensures SizeAll([t]) == 1 + SizeAll(t.kids)
  {
    assert [t][1..] == [];
  }

  lemma {:induction false} BuiltAppend(cs: seq<ASN1Node>, ts: seq<Tlv>, k: nat, c: ASN1Node, t: Tlv,
                                       ns: seq<ASN1Node>, vs: seq<TLVNode>)
    requires k + SizeAll(ts) + 1 + SizeAll(t.kids) <= |vs| <= |ns| && Built(cs, ts, k, ns, vs)
    requires var i := k + SizeAll(ts);
             c == ns[i] && c.tlv == vs[i] && Reads(vs[i], t) && Built(c.children, t.kids, i + 1, ns, vs)
    ensures k + SizeAll(ts + [t]) <= |vs| && Built(cs + [c], ts + [t], k, ns, vs)
    decreases ts
  {
    hide Reads;
    SizeAppend(ts, t);
    if ts == [] {
      assert ts + [t] == [t] && [t][1..] == [] && cs + [c] == [c] && [c][1..] == [];
    } else {
      SizeAppend(ts[1..], t);
      BuiltAppend(cs[1..], ts[1..], k + 1 + SizeAll(ts[0].kids), c, t, ns, vs);
      assert (ts + [t])[1..] == ts[1..] + [t] && (cs + [c])[1..] == cs[1..] + [c];
    }
  }

  lemma BuiltOne(cs: seq<ASN1Node>, t: Tlv, k: nat, ns: seq<ASN1Node>, vs: seq<TLVNode>)
    requires k + 1 + SizeAll(t.kids) <= |vs| <= |ns| && k + SizeAll([t]) <= |vs|
    ensures Built(cs, [t], k, ns, vs) <==>
              cs == [ns[k]] && ns[k].tlv == vs[k] && Reads(vs[k], t) && Built(ns[k].children, t.kids, k + 1, ns, vs)
    ensures SizeAll([t]) == 1 + SizeAll(t.kids)
  {
    hide Reads;
    assert [t][1..] == [];
    if cs != [] {
      assert cs == [cs[0]] + cs[1..];
    }
  }

  twostate lemma HoldsKept(v: TLVNode, new t: Tlv)
    requires RecordOf(v) == old(RecordOf(v))
    ensures Holds(v, t) == old(Holds(v, t)) && Reads(v, t) == old(Reads(v, t))
  {
  }

  twostate lemma BuiltKept(cs: seq<ASN1Node>, new ts: seq<Tlv>, new k: nat, new ns: seq<ASN1Node>,
                           new vs: seq<TLVNode>)
    requires old(allocated(ns)) && old(allocated(vs))
    requires k + SizeAll(ts) <= |vs| <= |ns| && old(Built(cs, ts, k, ns, vs))
    requires forall i | k <= i < k + SizeAll(ts) ::
               PlaceOf(ns[i]) == old(PlaceOf(ns[i])) && RecordOf(vs[i]) == old(RecordOf(vs[i]))
    ensures Built(cs, ts, k, ns, vs)
    decreases ts
  {
    hide RecordOf;
    if ts != [] {
      HoldsKept(vs[k], ts[0]);
      assert PlaceOf(ns[k]) == old(PlaceOf(ns[k]));
      BuiltKept(ns[k].children, ts[0].kids, k + 1, ns, vs);
      BuiltKept(cs[1..], ts[1..], k + 1 + SizeAll(ts[0].kids), ns, vs);
    }
  }

  /** The pool as it stands after `nodes` and `tlvs` requests, counted from where it handed out ns and vs. */
  ghost predicate PoolAt(pool: ASN1Pool, ns: seq<ASN1Node>, vs: seq<TLVNode>, nodes: nat, tlvs: nat)
    reads pool
  {
    && pool.Valid() && pool.tlvCount == |vs| && |vs| <= |ns| && nodes <= |vs| && tlvs <= |vs|
    && pool.TlvsAhead() == Turned(vs, tlvs) && pool.NodesAhead() == Turned(ns, nodes)
  }

  /** None of the nodes requested from the k-th on is root. */
  ghost predicate NotAhead(root: ASN1Node, k: nat, ns: seq<ASN1Node>) {
    forall i | k <= i < |ns| :: ns[i] != root
  }

  ghost predicate Members<T>(s: seq<T>, S: set<T>) {
    (forall i | 0 <= i < |s| :: s[i] in S) && forall x | x in S :: x in s
  }

  /** Pool and definition have nothing in common. */
  ghost predicate Separate(D: set<ASN1Node>, ns: seq<ASN1Node>, vs: seq<TLVNode>, N: set<ASN1Node>, V: set<TLVNode>)
    reads D`tlv
  {
    && |vs| <= |ns| && Distinct(ns) && Distinct(vs) && Members(ns, N) && Members(vs, V)
    && forall d | d in D :: d !in N && d.tlv !in V
  }

  datatype Record = Record(tagClass: TagClass, complexity: Complexity, tag: int, tagSize: int, lengthType: LengthType,
                           lengthSize: int, value: seq<byte>, length: int, oldLength: int)

  ghost function RecordOf(v: TLVNode): Record
    reads v
  {
    Record(v.tagClass, v.complexity, v.tagValue, v.tagValueSize, v.lengthType, v.valueLengthSize, v.value,
           v.valueLength, v.oldValueLength)
  }

  datatype Place = Place(tlv: TLVNode, sessionId: nat, linkedNode: ASN1Node?, parentNode: ASN1Node?,
                         children: seq<ASN1Node>)

  ghost function PlaceOf(n: ASN1Node): Place
    reads n
  {
    Place(n.tlv, n.sessionId, n.linkedNode, n.parentNode, n.children)
  }

  /** All that was requested before the k-th record, and root but for its children. */
  ghost function Below(root: ASN1Node, k: nat, ns: seq<ASN1Node>, vs: seq<TLVNode>)
      : (map<int, Record>, map<int, Place>, Place)
    requires k <= |vs| <= |ns|
    reads root, ns, vs
  {
    (map i | 0 <= i < k :: RecordOf(vs[i]),
     map i | 0 <= i < k :: if ns[i] == root then PlaceOf(root).(children := []) else PlaceOf(ns[i]),
     PlaceOf(root).(children := []))
  }

  twostate lemma BelowMeans(root: ASN1Node, new k: nat, new ns: seq<ASN1Node>, new vs: seq<TLVNode>, new i: nat)
    requires old(allocated(ns)) && old(allocated(vs))
    requires i < k <= |vs| <= |ns| && Below(root, k, ns, vs) == old(Below(root, k, ns, vs))
    ensures RecordOf(vs[i]) == old(RecordOf(vs[i])) && ns[i].tlv == old(ns[i].tlv)
    ensures ns[i] != root ==> PlaceOf(ns[i]) == old(PlaceOf(ns[i]))
  {
    assert Below(root, k, ns, vs).0[i] == RecordOf(vs[i]);
    assert old(Below(root, k, ns, vs).0[i] == RecordOf(vs[i]));
    assert Below(root, k, ns, vs).1[i] == old(Below(root, k, ns, vs).1[i]);
  }

  twostate lemma BelowFrom(root: ASN1Node, new k: nat, new ns: seq<ASN1Node>, new vs: seq<TLVNode>)
    requires old(allocated(ns)) && old(allocated(vs))
    requires k <= |vs| <= |ns| && PlaceOf(root).(children := []) == old(PlaceOf(root).(children := []))
    requires forall i | 0 <= i < k ::
               RecordOf(vs[i]) == old(RecordOf(vs[i])) && (ns[i] == root || PlaceOf(ns[i]) == old(PlaceOf(ns[i])))
    ensures Below(root, k, ns, vs) == old(Below(root, k, ns, vs))
  {
    var now, before := Below(root, k, ns, vs), old(Below(root, k, ns, vs));
    assert now.0.Keys == before.0.Keys && now.1.Keys == before.1.Keys;
    forall i | i in now.0 ensures now.0[i] == before.0[i] && now.1[i] == before.1[i] {
      assert RecordOf(vs[i]) == old(RecordOf(vs[i]));
    }
    assert now.0 == before.0 && now.1 == before.1;
  }

  twostate lemma BelowLess(root: ASN1Node, new k: nat, new k': nat, new ns: seq<ASN1Node>, new vs: seq<TLVNode>)
    requires old(allocated(ns)) && old(allocated(vs))
    requires k <= k' <= |vs| <= |ns| && Below(root, k', ns, vs) == old(Below(root, k', ns, vs))
    ensures Below(root, k, ns, vs) == old(Below(root, k, ns, vs))
  {
    forall i | 0 <= i < k
      ensures RecordOf(vs[i]) == old(RecordOf(vs[i])) && (ns[i] == root || PlaceOf(ns[i]) == old(PlaceOf(ns[i])))
    {
      BelowMeans(root, k', ns, vs, i);
    }
    BelowFrom(root, k, ns, vs);
  }

  /** The place of n among the nodes of the pool, or -1. */
  ghost function Slot(n: ASN1Node?, ns: seq<ASN1Node>): (i: int)
    ensures -1 <= i < |ns| && (i >= 0 ==> n == ns[i]) && (i == -1 ==> forall k :: 0 <= k < |ns| ==> n != ns[k])
  {
    if exists k :: 0 <= k < |ns| && n == ns[k] then var k :| 0 <= k < |ns| && n == ns[k]; k else -1
  }

  datatype Link = Link(sessionId: nat, linked: bool, slot: int)

  ghost function LinkOf(d: ASN1Node, ns: seq<ASN1Node>): Link
    reads d`sessionId, d`linkedNode
  {
    Link(d.sessionId, d.linkedNode != null, Slot(d.linkedNode, ns))
  }

  ghost function Links(D: set<ASN1Node>, ns: seq<ASN1Node>): map<nat, Link>
    requires Named(D)
    reads D`sessionId, D`linkedNode
  {
    map d | d in D :: d.id := LinkOf(d, ns)
  }

  /** The marked components are linked in this session with the elements they matched; the others are as before. */
  ghost predicate Marked(D: set<ASN1Node>, before: map<nat, Link>, marks: map<nat, Tlv>, sid: nat,
                         ns: seq<ASN1Node>, vs: seq<TLVNode>, made: nat)
    requires made <= |vs| <= |ns|
    reads D`sessionId, D`linkedNode, ns, vs
  {
    forall d | d in D ::
      if d.id in marks then d.sessionId == sid && LinkedWith(d, marks[d.id], ns, vs, made)
      else d.id in before && before[d.id] == LinkOf(d, ns)
  }

  ghost predicate LinkedWith(d: ASN1Node, t: Tlv, ns: seq<ASN1Node>, vs: seq<TLVNode>, made: nat)
    requires made <= |vs| <= |ns|
    reads d`linkedNode, ns, vs
  {
    var i := Slot(d.linkedNode, ns);
    0 <= i < made && ns[i].tlv == vs[i] && Holds(vs[i], t)
  }

  lemma MarkedNothing(D: set<ASN1Node>, sid: nat, ns: seq<ASN1Node>, vs: seq<TLVNode>, made: nat)
    requires made <= |vs| <= |ns| && Named(D)
    ensures Marked(D, Links(D, ns), map[], sid, ns, vs, made)
  {
  }

  twostate lemma MarkedThen(D: set<ASN1Node>, new before: map<nat, Link>, new m1: map<nat, Tlv>,
                            new m2: map<nat, Tlv>, new sid: nat, new root: ASN1Node, new ns: seq<ASN1Node>,
                            new vs: seq<TLVNode>, new made: nat, new made': nat)
    requires old(allocated(root)) && old(allocated(ns)) && old(allocated(vs))
    requires made <= made' <= |vs| <= |ns| && Named(D)
    requires old(Marked(D, before, m1, sid, ns, vs, made)) &&
             Below(root, made, ns, vs) == old(Below(root, made, ns, vs))
    requires Marked(D, old(Links(D, ns)), m2, sid, ns, vs, made')
    ensures Marked(D, before, m1 + m2, sid, ns, vs, made')
  {
    hide Holds, Slot, Below;
    forall d | d in D && d.id !in m2
      ensures if d.id in m1 then d.sessionId == sid && LinkedWith(d, m1[d.id], ns, vs, made')
              else d.id in before && before[d.id] == LinkOf(d, ns)
    {
      assert LinkOf(d, ns) == old(Links(D, ns))[d.id] == old(LinkOf(d, ns));
      var i := Slot(d.linkedNode, ns);
      if 0 <= i < made && d.id in m1 {
        BelowMeans(root, made, ns, vs, i);
        HoldsKept(vs[i], m1[d.id]);
      }
    }
  }

  // ---------------------------------------------------------------- one element

  /** Header and contents of the element at pos; the form with a definition settles the length a parent would count. */
  method ReadElement(mem: seq<byte>, off: nat, len: nat, pos: nat, tlv: TLVNode, settle: bool) returns (h: Header)
    modifies tlv
    ensures h == ReadHeader(mem, off, len, pos)
    ensures h.Header? ==> Reads(tlv, h.tlv) && (settle ==> Holds(tlv, h.tlv))
  {
    hide ReadTag, ReadLength;
    var inside := DecodeTag(mem, off + pos, tlv);
    if !inside {
      return HeaderOutside;
    }
    var p := pos + tlv.tagValueSize;
    if Remaining(len, p) < 0 {
      return HeaderOutside;
    }
    var l := DecodeLength(mem, off + p, Remaining(len, p), tlv);
    if l.LengthOutside? {
      return HeaderOutside;
    }
    if l.LengthError? {
      return HeaderFailed(300);
    }
    if settle {
      tlv.oldValueLength := tlv.valueLengthSize + tlv.valueLength;
    }
    var at := p + tlv.valueLengthSize;
    if tlv.valueLength > Remaining(len, at) {
      return HeaderFailed(200);
    }
    if off + at + tlv.valueLength > |mem| {
      return HeaderOutside;
    }
    tlv.value := mem[off + at..off + at + tlv.valueLength];
    h := Header(Tlv(tlv.tagClass, tlv.complexity == Constructed, tlv.tagValue, tlv.tagValueSize, tlv.lengthType,
                    tlv.valueLengthSize, tlv.value, []), at);
  }

  /** Takes a record from the pool and reads the element at pos into it, unless the pool is used up. */
  method TakeRecord(mem: seq<byte>, off: nat, len: nat, pos: nat, pool: ASN1Pool, usedNc: nat,
                    ghost ns: seq<ASN1Node>, ghost vs: seq<TLVNode>, ghost N: set<ASN1Node>, ghost V: set<TLVNode>)
      returns (full: bool, tlv: TLVNode, h: Header)
    requires PoolAt(pool, ns, vs, usedNc, usedNc) && Distinct(vs) && Members(vs, V)
    modifies pool`freeTlvCount, pool`nextFreeTlv, V
    ensures full <==> usedNc + 1 > |vs|
    ensures !full ==>
              && h == ReadHeader(mem, off, len, pos) && tlv == vs[usedNc] && (h.Header? ==> Holds(tlv, h.tlv))
              && PoolAt(pool, ns, vs, usedNc, usedNc + 1) && forall i | 0 <= i < usedNc :: unchanged(vs[i])
  {
    hide ReadHeader, Ahead;
    if usedNc < |vs| {
      TurnedOnce(vs, usedNc);
    } else {
      assert Turned(vs, usedNc)[0] == vs[0];
    }
    tlv := pool.RequestTlv();
    tlv.valueLength := 0;
    full, h := usedNc + 1 > pool.tlvCount, HeaderOutside;
    if full {
      return;
    }
    h := ReadElement(mem, off, len, pos, tlv, true);
  }

  /** Takes a node from the pool for the record and hangs it under root. */
  method AddNode(pool: ASN1Pool, root: ASN1Node, tlv: TLVNode, sid: nat, ghost k: nat, ghost ns: seq<ASN1Node>,
                 ghost vs: seq<TLVNode>)
      returns (n: ASN1Node)
    requires k < |vs| && PoolAt(pool, ns, vs, k, k + 1) && root != ns[k]
    modifies pool`freeAsn1NodeCount, pool`nextFreeAsn1Node, root`children, {ns[k]}
    ensures PoolAt(pool, ns, vs, k + 1, k + 1) && n == ns[k]
    ensures n.children == [] && n.tlv == tlv && n.linkedNode == n && n.sessionId == sid && n.parentNode == root
    ensures root.children == old(root.children) + [n]
  {
    hide Ahead;
    TurnedOnce(ns, k);
    n := pool.RequestAsn1Node();
    n.children := [];
    n.tlv := tlv;
    n.linkedNode := n;
    n.sessionId := sid;
    n.parentNode := root;
    root.children := root.children + [n];
  }

  /** Searches the definition for the element and links the component that matches. */
  method MatchComponent(def: ASN1Node, n: ASN1Node, next: nat, matched: ASN1Node?, sid: nat,
                        ghost D: set<ASN1Node>, ghost defs: Definitions, ghost c: Cursor, ghost t: Tlv)
      returns (next': nat, matched': ASN1Node?)
    requires DefAt(D, defs) && def in D && (matched != null ==> matched in D) && Holds(n.tlv, t) && n !in D
    requires c.next == next && c.matched == DefOrNone(matched, defs)
    modifies D`sessionId, D`linkedNode
    ensures matched' != null ==> matched' in D
    ensures var s := Search(Some(defs.of[def.id]), c, t);
            && s.0 == DefOrNone(matched', defs) && s.1 == next'
            && (s.2 ==>
                  && matched' != null && matched'.linkedNode == n && matched'.sessionId == sid
                  && s.0.value.node == matched'.id)
            && forall d | d in D && !(s.2 && d == matched') :: unchanged(d)
  {
    hide Search, FirstMatch;
    next', matched' := next, matched;
    ghost var kids := defs.of[def.id].kids;
    SearchSkipped(defs.of[def.id], c, t);
    var j := next;
    while j < |def.children|
      invariant next <= j && (next < j ==> j <= |kids|)
      invariant forall i :: next <= i < j && i < |kids| ==> !(kids[i].tagClass == t.tagClass && kids[i].tag == t.tag)
      invariant next' == next && matched' == if j == next then matched else null
      invariant forall d | d in D :: unchanged(d)
      decreases |def.children| - j
    {
      var src := def.children[j];
      assert kids[j] == defs.of[src.id];
      var tagValue, tagClass := src.tlv.tagValue, src.tlv.tagClass;
      if src.tlv.tagValue == UNKNOWN_UNIVERSAL_TAG {
        tagValue, tagClass := src.tlv.uniTag, Universal;
      }
      if n.tlv.tagClass == tagClass && n.tlv.tagValue == tagValue {
        matched' := src;
      } else {
        matched' := null;
      }
      if matched' != null {
        if def.tlv.uniTag == SET && !def.tlv.unlimited {
          next' := 0;
        } else {
          next' := j + 1;
        }
        SearchStops(defs.of[def.id], c, t, j);
        matched'.linkedNode := n;
        matched'.sessionId := sid;
        return;
      }
      j := j + 1;
    }
    SearchStops(defs.of[def.id], c, t, j);
  }

  lemma SearchSkipped(def: Def, c: Cursor, t: Tlv)
    ensures c.next >= |def.kids| ==> Search(Some(def), c, t) == (c.matched, c.next, false)
  {
  }

  lemma SearchStops(def: Def, c: Cursor, t: Tlv, j: nat)
    requires c.next < |def.kids| ==> c.next <= j <= |def.kids|
    requires forall i :: c.next <= i < j && i < |def.kids| ==>
               !(def.kids[i].tagClass == t.tagClass && def.kids[i].tag == t.tag)
    requires j < |def.kids| ==> def.kids[j].tagClass == t.tagClass && def.kids[j].tag == t.tag
    ensures c.next < |def.kids| ==>
              Search(Some(def), c, t)
              == if j < |def.kids| then (Some(def.kids[j]), if def.isSet then 0 else j + 1, true)
                 else (None, c.next, false)
  {
  }

  /** The component an element answers to, from the fields of the definition: child j, if its class and number are the
      element's own, and no earlier child from the cursor on is.  A child without a tag of its own (-1) stands for the
      universal class and its type number.  The search goes on at the next child, or at the first in a SET (0x11); an
      element that no child stands for leaves the cursor where it was. */
  lemma FirstAnswer(def: ASN1Node, D: set<ASN1Node>, c: Cursor, t: Tlv, j: nat)
    requires DefTree(D) && def in D && c.next <= j <= |def.children| && c.next < |def.children|
    requires forall i | c.next <= i < j ::
               var v := def.children[i].tlv;
               if v.tagValue == -1 then t.tagClass != Universal || t.tag != v.uniTag
               else t.tagClass != v.tagClass || t.tag != v.tagValue
    requires j < |def.children| ==>
               var v := def.children[j].tlv;
               if v.tagValue == -1 then t.tagClass == Universal && t.tag == v.uniTag
               else t.tagClass == v.tagClass && t.tag == v.tagValue
    ensures Search(Some(DefOf(def, D)), c, t) ==
            if j == |def.children| then (None, c.next, false)
            else (Some(DefOf(def.children[j], D)), if def.tlv.uniTag == 0x11 then 0 else j + 1, true)
    ensures j < |def.children| ==> DefOf(def.children[j], D).node == def.children[j].id
  {
    hide Search;
    var d := DefOf(def, D);
    forall i | 0 <= i < |def.children| ensures d.kids[i] == DefOf(def.children[i], D) {
      assert def.children[i] in def.children;
    }
    SearchStops(d, c, t, j);
  }

  // ---------------------------------------------------------------- the level

  /** What has been hung under root since it had the children `before`: the forest, held by the nodes and records
      requested from the k-th to the made-th. */
  ghost predicate Grown(root: ASN1Node, before: seq<ASN1Node>, forest: seq<Tlv>, k: nat, made: nat,
                        ns: seq<ASN1Node>, vs: seq<TLVNode>)
    requires made <= |vs| <= |ns|
    reads root, ns, vs
  {
    && made == k + SizeAll(forest) && |before| <= |root.children| && root.children[..|before|] == before
    && Built(root.children[|before|..], forest, k, ns, vs)
  }

  lemma GrownNothing(root: ASN1Node, k: nat, ns: seq<ASN1Node>, vs: seq<TLVNode>)
    requires k <= |vs| <= |ns|
    ensures Grown(root, root.children, [], k, k, ns, vs)
  {
  }

  twostate lemma GrownThen(root: ASN1Node, new before: seq<ASN1Node>, new forest: seq<Tlv>, new t: Tlv, new k: nat,
                           new made: nat, new made': nat, new ns: seq<ASN1Node>, new vs: seq<TLVNode>)
    requires old(allocated(before)) && old(allocated(ns)) && old(allocated(vs))
    requires made <= made' <= |vs| <= |ns| && k <= made && Distinct(ns) && NotAhead(root, k, ns)
    requires old(Grown(root, before, forest, k, made, ns, vs)) &&
             Below(root, made, ns, vs) == old(Below(root, made, ns, vs))
    requires Grown(root, old(root.children), [t], made, made', ns, vs)
    ensures Grown(root, before, forest + [t], k, made', ns, vs)
  {
    hide Reads;
    var cs := old(root.children[|before|..]);
    forall i | k <= i < made ensures PlaceOf(ns[i]) == old(PlaceOf(ns[i])) && RecordOf(vs[i]) == old(RecordOf(vs[i])) {
      BelowMeans(root, made, ns, vs, i);
      assert ns[i] != root;
    }
    BuiltKept(cs, forest, k, ns, vs);
    var new' := root.children[|old(root.children)|..];
    BuiltOne(new', t, made, ns, vs);
    BuiltAppend(cs, forest, k, new'[0], t, ns, vs);
    SizeAppend(forest, t);
    assert root.children[|before|..] == cs + new';
  }

  /** The element t has its node n and its record, and the search has left the marks m. */
  ghost predicate Begun(root: ASN1Node, n: ASN1Node, pool: ASN1Pool, sid: nat, D: set<ASN1Node>, defs: Definitions,
                        ns: seq<ASN1Node>, vs: seq<TLVNode>, N: set<ASN1Node>, V: set<TLVNode>,
                        before: seq<ASN1Node>, links: map<nat, Link>, k: nat, m: map<nat, Tlv>, t: Tlv)
    reads root, pool, D, Tlvs(D), ns, vs, n, n.tlv
  {
    && k + 1 <= |vs| <= |ns| && PoolAt(pool, ns, vs, k + 1, k + 1) && Separate(D, ns, vs, N, V) && DefAt(D, defs)
    && n == ns[k] && Requested(n, vs[k], t) && root.children == before + [n] && Marked(D, links, m, sid, ns, vs, k + 1)
  }

  /** The first half of a turn: record, header, node and search. */
  method BeginElement(mem: seq<byte>, off: nat, len: nat, root: ASN1Node, def: ASN1Node?, pool: ASN1Pool, sid: nat,
                      usedNc: nat, pos: nat, next: nat, matched: ASN1Node?,
                      ghost D: set<ASN1Node>, ghost defs: Definitions, ghost ns: seq<ASN1Node>, ghost vs: seq<TLVNode>,
                      ghost N: set<ASN1Node>, ghost V: set<TLVNode>, ghost c: Cursor,
                      ghost before: seq<ASN1Node>, ghost links: map<nat, Link>)
      returns (r: Outcome, n: ASN1Node?, at: nat, next': nat, matched': ASN1Node?, ghost t: Tlv)
    requires PoolAt(pool, ns, vs, usedNc, usedNc) && Separate(D, ns, vs, N, V) && DefAt(D, defs) && Named(D)
    requires root !in D && NotAhead(root, usedNc, ns) && (def != null ==> def in D)
    requires sid <= defs.latest && (matched != null ==> matched in D)
    requires CursorAt(c, pos, next, matched, usedNc, defs) && pos < len && before == root.children &&
             links == Links(D, ns)
    modifies pool`freeTlvCount, pool`nextFreeTlv, pool`freeAsn1NodeCount, pool`nextFreeAsn1Node
    modifies root`children, D`sessionId, D`linkedNode, N, V
    ensures DefAt(D, defs) && (matched' != null ==> matched' in D)
    ensures r != Done(0) ==> Ends(mem, off, len, DefOrNone(def, defs), |vs|, c, r)
    ensures r == Done(0) ==> n != null
    ensures r == Done(0) ==>
              var d := DefOrNone(def, defs);
              && Begun(root, n, pool, sid, D, defs, ns, vs, N, V, before, links, usedNc, FirstMark(d, c, t), t)
              && usedNc + 1 <= |vs| <= |ns| && Below(root, usedNc, ns, vs) == old(Below(root, usedNc, ns, vs))
              && ReadHeader(mem, off, len, pos) == Header(t, at)
              && Search(d, c, t).0 == DefOrNone(matched', defs) && Search(d, c, t).1 == next'
  {
    hide ReadHeader, Search, Built, Holds, PoolAt, Parse, Marked, Links, DefOf, Named, Ends, Below;
    ghost var d := DefOrNone(def, defs);
    next', matched' := next, matched;
    r, n, at, t := TakeElement(mem, off, len, root, pool, sid, usedNc, pos, D, d, ns, vs, N, V, c);
    DefKept(D, defs);
    SearchNothing(c, t);
    label taken:
    if r == Done(0) && def != null {
      next', matched' := MatchComponent(def, n, next, matched, sid, D, defs, c, t);
      DefKept@taken(D, defs);
    }
    if r == Done(0) {
      NewlyMarked(D, Search(d, c, t).2, matched', n, t, sid, usedNc, ns, vs);
    }
  }

  /** A record and a node from the pool for the element at pos. */
  method TakeElement(mem: seq<byte>, off: nat, len: nat, root: ASN1Node, pool: ASN1Pool, sid: nat, usedNc: nat,
                     pos: nat, ghost D: set<ASN1Node>, ghost d: Option<Def>, ghost ns: seq<ASN1Node>,
                     ghost vs: seq<TLVNode>,
                     ghost N: set<ASN1Node>, ghost V: set<TLVNode>, ghost c: Cursor)
      returns (r: Outcome, n: ASN1Node?, at: nat, ghost t: Tlv)
    requires PoolAt(pool, ns, vs, usedNc, usedNc) && Separate(D, ns, vs, N, V) && root !in D &&
             NotAhead(root, usedNc, ns)
    requires c.pos == pos < len && c.made == usedNc
    modifies pool`freeTlvCount, pool`nextFreeTlv, pool`freeAsn1NodeCount, pool`nextFreeAsn1Node
    modifies root`children, N, V
    ensures forall e | e in D :: unchanged(e) && unchanged(e.tlv)
    ensures r == Done(0) ==> n != null
    ensures r != Done(0) ==> Ends(mem, off, len, d, |vs|, c, r)
    ensures r == Done(0) ==>
              && usedNc + 1 <= |vs| && ReadHeader(mem, off, len, pos) == Header(t, at)
              && n == ns[usedNc] && Requested(n, vs[usedNc], t) && root.children == old(root.children) + [n]
              && PoolAt(pool, ns, vs, usedNc + 1, usedNc + 1)
              && Below(root, usedNc, ns, vs) == old(Below(root, usedNc, ns, vs))
  {
    hide ReadHeader, Search, Holds, Ahead, Turned, Parse;
    r, n, at, t := Done(400), null, 0, NoTlv();
    ParseRefuses(mem, off, len, d, false, |vs|, c);
    var full, tlv, h := TakeRecord(mem, off, len, pos, pool, usedNc, ns, vs, N, V);
    if full {
      return;
    }
    if !h.Header? {
      r := if h.HeaderFailed? then Done(h.code) else LeftModel;
      return;
    }
    r, t, at := Done(0), h.tlv, h.at;
    n := AddNode(pool, root, tlv, sid, usedNc, ns, vs);
    BelowFrom(root, usedNc, ns, vs);
  }

  /** The one component that was just matched is the one that is marked. */
  twostate lemma NewlyMarked(D: set<ASN1Node>, new found: bool, new e: ASN1Node?, new n: ASN1Node, new t: Tlv,
                             new sid: nat, new k: nat, new ns: seq<ASN1Node>, new vs: seq<TLVNode>)
    requires old(allocated(e)) && old(allocated(ns)) && old(allocated(vs))
    requires Named(D) && Distinct(ns) && k < |vs| <= |ns| && n == ns[k] && Requested(n, vs[k], t)
    requires found ==> e in D && e.linkedNode == n && e.sessionId == sid
    requires forall d | d in D && !(found && d == e) ::
               d.sessionId == old(d.sessionId) && d.linkedNode == old(d.linkedNode)
    ensures Marked(D, old(Links(D, ns)), if found then map[e.id := t] else map[], sid, ns, vs, k + 1)
  {
    hide Holds;
    forall d | d in D && !(found && d == e) ensures LinkOf(d, ns) == old(Links(D, ns))[d.id] {
      assert LinkOf(d, ns) == old(LinkOf(d, ns));
    }
  }

  lemma SearchNothing(c: Cursor, t: Tlv)
    ensures Search(None, c, t) == (c.matched, c.next, false)
  {
  }

  /** A node and its record, ready for the contents of an element. */
  ghost predicate Requested(n: ASN1Node, v: TLVNode, t: Tlv)
    reads n, v
  {
    n.tlv == v && n.children == [] && Holds(v, t)
  }

  function NoTlv(): Tlv {
    Tlv(ClassUnknown, false, 0, 0, LengthTypeUnknown, 0, [], [])
  }

  /** What is decoded under n leaves the level above alone. */
  twostate lemma RootKept(root: ASN1Node, new k: nat, new ns: seq<ASN1Node>, new vs: seq<TLVNode>,
                          new N: set<ASN1Node>)
    requires old(allocated(ns)) && old(allocated(vs)) && old(allocated(N))
    requires k < |vs| <= |ns| && Members(ns, N) && NotAhead(root, k, ns) &&
             Below(ns[k], k + 1, ns, vs) == old(Below(ns[k], k + 1, ns, vs))
    requires root !in N ==> PlaceOf(root) == old(PlaceOf(root))
    ensures PlaceOf(root) == old(PlaceOf(root))
  {
    if root in N {
      var i :| 0 <= i < |ns| && ns[i] == root;
      BelowMeans(ns[k], k + 1, ns, vs, i);
    }
  }

  /** Where a level stands that began with children `before`, links `links` and k requests made: `found` is under
      root and in the definition, and the pool is where it should be. */
  ghost predicate LevelAt(root: ASN1Node, pool: ASN1Pool, sid: nat, D: set<ASN1Node>, defs: Definitions,
                          ns: seq<ASN1Node>, vs: seq<TLVNode>, N: set<ASN1Node>, V: set<TLVNode>,
                          before: seq<ASN1Node>, links: map<nat, Link>, k: nat, found: Parsed)
    reads root, pool, D, Tlvs(D), ns, vs
  {
    && found.Parsed? && k <= found.made <= |vs| <= |ns|
    && PoolAt(pool, ns, vs, found.made, found.made) && Separate(D, ns, vs, N, V) && DefAt(D, defs)
    && Grown(root, before, found.forest, k, found.made, ns, vs)
    && Marked(D, links, found.marks, sid, ns, vs, found.made)
  }

  lemma LevelStarts(root: ASN1Node, pool: ASN1Pool, sid: nat, D: set<ASN1Node>, defs: Definitions,
                    ns: seq<ASN1Node>, vs: seq<TLVNode>, N: set<ASN1Node>, V: set<TLVNode>, k: nat)
    requires PoolAt(pool, ns, vs, k, k) && Separate(D, ns, vs, N, V) && DefAt(D, defs)
    ensures Named(D) && LevelAt(root, pool, sid, D, defs, ns, vs, N, V, root.children, Links(D, ns), k,
                                Parsed([], k, map[]))
  {
    NamedDefs(D, defs);
    MarkedNothing(D, sid, ns, vs, k);
    GrownNothing(root, k, ns, vs);
  }

  /** The contents of the element have been decoded under n. */
  twostate lemma ElementDone(root: ASN1Node, new n: ASN1Node, new pool: ASN1Pool, new sid: nat, new D: set<ASN1Node>,
                             new defs: Definitions, new ns: seq<ASN1Node>, new vs: seq<TLVNode>,
                             new N: set<ASN1Node>, new V: set<TLVNode>, new before: seq<ASN1Node>,
                             new links: map<nat, Link>, new k: nat, new m: map<nat, Tlv>, new t: Tlv,
                             new inner: Parsed)
    requires old(allocated(n)) && old(allocated(pool)) && old(allocated(D)) && old(allocated(ns)) && old(allocated(vs))
    requires old(allocated(N)) && old(allocated(V)) && old(allocated(before))
    requires old(Begun(root, n, pool, sid, D, defs, ns, vs, N, V, before, links, k, m, t)) && n != root &&
             k + 1 <= |vs| <= |ns|
    requires Named(D) && LevelAt(n, pool, sid, D, defs, ns, vs, N, V, [], old(Links(D, ns)), k + 1, inner)
    requires PlaceOf(root) == old(PlaceOf(root)) && Below(n, k + 1, ns, vs) == old(Below(n, k + 1, ns, vs))
    ensures LevelAt(root, pool, sid, D, defs, ns, vs, N, V, before, links, k,
                    Parsed([t.(kids := inner.forest)], inner.made, m + inner.marks))
    ensures Below(root, k, ns, vs) == old(Below(root, k, ns, vs))
  {
    hide Built, Marked, SizeAll, Below, RecordOf, PoolAt, DefAt, Members;
    MarkedThen(D, links, m, inner.marks, sid, n, ns, vs, k + 1, inner.made);
    var t' := t.(kids := inner.forest);
    BelowMeans(n, k + 1, ns, vs, k);
    HoldsKept(vs[k], t);
    assert root.children[|before|..] == [n] && n.children[0..] == n.children;
    SizeOne(t');
    BuiltOne([n], t', k, ns, vs);
    forall i | 0 <= i < k
      ensures RecordOf(vs[i]) == old(RecordOf(vs[i])) && (ns[i] == root || PlaceOf(ns[i]) == old(PlaceOf(ns[i])))
    {
      BelowMeans(n, k + 1, ns, vs, i);
    }
    BelowFrom(root, k, ns, vs);
  }

  /** The loop finds `el` on its way from cursor c to cursor c'. */
  ghost predicate Advances(mem: seq<byte>, off: nat, len: nat, d: Option<Def>, limit: nat, c: Cursor, el: Parsed,
                           c': Cursor) {
    && el.Parsed? && el.made == c'.made && c.pos < c'.pos && off + c.pos < |mem|
    && Parse(mem, off, len, d, false, limit, c)
       == Before(el.forest, el.marks, Parse(mem, off, len, d, false, limit, c'))
  }

  /** The loop ends with r at cursor c. */
  ghost predicate Ends(mem: seq<byte>, off: nat, len: nat, d: Option<Def>, limit: nat, c: Cursor, r: Outcome) {
    var p := Parse(mem, off, len, d, false, limit, c);
    r == OutcomeOf(p) && !p.Parsed?
  }

  ghost predicate CursorAt(c: Cursor, pos: nat, next: nat, matched: ASN1Node?, used: nat, defs: Definitions) {
    c.pos == pos && c.next == next && c.matched == DefOrNone(matched, defs) && c.made == used
  }

  /** One turn of the loop; `el` is what it adds. */
  method DecodeElement(mem: seq<byte>, off: nat, len: nat, root: ASN1Node, def: ASN1Node?, pool: ASN1Pool, sid: nat,
                      usedNc: nat, pos: nat, next: nat, matched: ASN1Node?,
                      ghost D: set<ASN1Node>, ghost defs: Definitions, ghost ns: seq<ASN1Node>, ghost vs: seq<TLVNode>,
                      ghost N: set<ASN1Node>, ghost V: set<TLVNode>, ghost c: Cursor,
                      ghost before: seq<ASN1Node>, ghost links: map<nat, Link>)
      returns (r: Outcome, used: nat, pos': nat, next': nat, matched': ASN1Node?, ghost el: Parsed, ghost c': Cursor)
    requires PoolAt(pool, ns, vs, usedNc, usedNc) && Separate(D, ns, vs, N, V) && DefAt(D, defs)
    requires root !in D && NotAhead(root, usedNc, ns) && (def != null ==> def in D)
    requires sid <= defs.latest && (matched != null ==> matched in D)
    requires CursorAt(c, pos, next, matched, usedNc, defs) && pos < len && before == root.children &&
             links == Links(D, ns)
    modifies pool`freeTlvCount, pool`nextFreeTlv, pool`freeAsn1NodeCount, pool`nextFreeAsn1Node
    modifies root`children, D`sessionId, D`linkedNode, N, V
    ensures DefAt(D, defs) && (matched' != null ==> matched' in D)
    ensures r != Done(0) ==> Ends(mem, off, len, DefOrNone(def, defs), |vs|, c, r)
    ensures r == Done(0) ==>
              && LevelAt(root, pool, sid, D, defs, ns, vs, N, V, before, links, usedNc, el) && |vs| <= |ns|
              && Below(root, usedNc, ns, vs) == old(Below(root, usedNc, ns, vs))
              && Advances(mem, off, len, DefOrNone(def, defs), |vs|, c, el, c')
              && CursorAt(c', pos', next', matched', used, defs)
              && el.Parsed? && |el.forest| == 1
    decreases |mem| - off, 0, 1
  {
    hide ReadHeader, Search, Parse, Before, FirstMark, PoolAt, DefAt, Marked, Grown, Links, Named, NotAhead, Below,
      LevelAt, Advances, Ends, Begun, InnerOf, Separate, Distinct, Members, DefTree, DefOf, UpTo;
    NamedDefs(D, defs);
    ghost var d := DefOrNone(def, defs);
    var n, at;
    ghost var t;
    r, n, at, next', matched', t := BeginElement(mem, off, len, root, def, pool, sid, usedNc, pos, next, matched, D,
                                                 defs, ns, vs, N, V, c, before, links);
    used, pos', el, c' := usedNc + 1, pos, Parsed.Outside, c;
    if r == Done(0) {
      ghost var inner;
      r, used, pos', inner := FinishElement(mem, off, root, n, matched', pool, sid, usedNc, at, D, defs, ns, vs, N, V,
                                            links, FirstMark(d, c, t), before, t);
      c' := Cursor(pos', next', DefOrNone(matched', defs), c.level + 1, used);
      ElementParse(mem, off, len, d, |vs|, c, t, at, inner, c');
      if inner.Parsed? {
        el := Parsed([t.(kids := inner.forest)], used, FirstMark(d, c, t) + inner.marks);
      }
    }
  }

  lemma NamedDefs(D: set<ASN1Node>, defs: Definitions)
    requires DefAt(D, defs)
    ensures Named(D)
  {
  }

  lemma ElementParse(mem: seq<byte>, off: nat, len: nat, d: Option<Def>, limit: nat, c: Cursor, t: Tlv, at: nat,
                     inner: Parsed, c': Cursor)
    requires c.pos < len && c.made + 1 <= limit && ReadHeader(mem, off, len, c.pos) == Header(t, at)
    requires inner == InnerOf(mem, off, at, Search(d, c, t).0, limit, c.made, t)
    requires inner.Parsed? ==> c' == After(t, at, Search(d, c, t).1, Search(d, c, t).0, c.level, inner.made)
    ensures !inner.Parsed? ==> Ends(mem, off, len, d, limit, c, OutcomeOf(inner))
    ensures inner.Parsed? ==>
              Advances(mem, off, len, d, limit, c,
                       Parsed([t.(kids := inner.forest)], inner.made, FirstMark(d, c, t) + inner.marks), c')
  {
    hide ReadHeader, Search, Parse, FirstMark;
    ParseOne(mem, off, len, d, false, limit, c, t, at, inner, Parse(mem, off, len, d, false, limit, c'));
  }

  /** What the contents of an element come to. */
  ghost function InnerOf(mem: seq<byte>, off: nat, at: nat, matched: Option<Def>, limit: nat, k: nat, t: Tlv): Parsed {
    if t.constructed then Parse(mem, off + at, |t.value|, matched, false, limit, Cursor(0, 0, None, 0, k + 1))
    else Parsed([], k + 1, map[])
  }

  lemma BegunMeans(root: ASN1Node, n: ASN1Node, pool: ASN1Pool, sid: nat, D: set<ASN1Node>, defs: Definitions,
                   ns: seq<ASN1Node>, vs: seq<TLVNode>, N: set<ASN1Node>, V: set<TLVNode>,
                   before: seq<ASN1Node>, links: map<nat, Link>, k: nat, m: map<nat, Tlv>, t: Tlv)
    requires Begun(root, n, pool, sid, D, defs, ns, vs, N, V, before, links, k, m, t) && NotAhead(root, k, ns)
    ensures PoolAt(pool, ns, vs, k + 1, k + 1) && Separate(D, ns, vs, N, V) && DefAt(D, defs) && Named(D)
    ensures n == ns[k] && n in N && n !in D && NotAhead(n, k + 1, ns) && root != n && Members(ns, N) && n.tlv == vs[k]
    ensures n.tlv.valueLength == |t.value| && n.tlv.lengthType == t.lengthType &&
            (n.tlv.complexity == Constructed <==> t.constructed)
    ensures n.children == []
    ensures LevelAt(n, pool, sid, D, defs, ns, vs, N, V, [], Links(D, ns), k + 1, Parsed([], k + 1, map[]))
  {
    LevelStarts(n, pool, sid, D, defs, ns, vs, N, V, k + 1);
  }

  lemma AheadLess(root: ASN1Node, k: nat, k': nat, ns: seq<ASN1Node>)
    requires NotAhead(root, k, ns) && k <= k'
    ensures NotAhead(root, k', ns)
  {
  }

  /** The second half of a turn: the contents of a constructed element, and the position after it. */
  method FinishElement(mem: seq<byte>, off: nat, root: ASN1Node, n: ASN1Node, matched: ASN1Node?, pool: ASN1Pool,
                       sid: nat, usedNc: nat, at: nat,
                       ghost D: set<ASN1Node>, ghost defs: Definitions, ghost ns: seq<ASN1Node>, ghost vs: seq<TLVNode>,
                       ghost N: set<ASN1Node>, ghost V: set<TLVNode>, ghost links: map<nat, Link>,
                       ghost m: map<nat, Tlv>,
                       ghost before: seq<ASN1Node>, ghost t: Tlv)
      returns (r: Outcome, used: nat, pos': nat, ghost inner: Parsed)
    requires Begun(root, n, pool, sid, D, defs, ns, vs, N, V, before, links, usedNc, m, t)
    requires root !in D && NotAhead(root, usedNc, ns) && (matched != null ==> matched in D) && sid <= defs.latest
    requires usedNc + 1 <= |vs| <= |ns| && off < |mem| && at > 0
    modifies pool`freeTlvCount, pool`nextFreeTlv, pool`freeAsn1NodeCount, pool`nextFreeAsn1Node
    modifies D`sessionId, D`linkedNode, N, V
    ensures DefAt(D, defs)
    ensures inner == InnerOf(mem, off, at, DefOrNone(matched, defs), |vs|, usedNc, t)
    ensures r == OutcomeOf(inner) && (r == Done(0) ==> inner.Parsed?)
    ensures inner.Parsed? ==>
              && used == inner.made && pos' == at + |t.value| + Trailer(t)
              && LevelAt(root, pool, sid, D, defs, ns, vs, N, V, before, links, usedNc,
                         Parsed([t.(kids := inner.forest)], used, m + inner.marks))
              && Below(root, usedNc, ns, vs) == old(Below(root, usedNc, ns, vs))
    decreases |mem| - off, 0, 0
  {
    hide Parse, Separate, PoolAt, DefAt, Begun, LevelAt, Below, Links, Members, Distinct, NotAhead, Named, DefTree,
         DefOf, UpTo;
    BegunMeans(root, n, pool, sid, D, defs, ns, vs, N, V, before, links, usedNc, m, t);
    used, inner, r := usedNc + 1, Parsed([], usedNc + 1, map[]), Done(0);
    pos' := at + n.tlv.valueLength + if n.tlv.lengthType == Indefinite then 2 else 0;
    if n.tlv.complexity == Constructed {
      r, used, inner := DecodeLevel(mem, off + at, n.tlv.valueLength, n, matched, pool, sid, used, D, defs, ns, vs, N,
                                    V);
    }
    if r == Done(0) {
      RootKept(root, usedNc, ns, vs, N);
      ElementDone(root, n, pool, sid, D, defs, ns, vs, N, V, before, links, usedNc, m, t, inner);
    }
  }

  /** A turn, added to what the turns before it have found. */
  method DecodeTurn(mem: seq<byte>, off: nat, len: nat, root: ASN1Node, def: ASN1Node?, pool: ASN1Pool, sid: nat,
                    usedNc: nat, pos: nat, next: nat, matched: ASN1Node?,
                    ghost D: set<ASN1Node>, ghost defs: Definitions, ghost ns: seq<ASN1Node>, ghost vs: seq<TLVNode>,
                    ghost N: set<ASN1Node>, ghost V: set<TLVNode>, ghost c: Cursor,
                    ghost before: seq<ASN1Node>, ghost links: map<nat, Link>, ghost k: nat, ghost found: Parsed,
                    ghost p: Parsed)
      returns (r: Outcome, used: nat, pos': nat, next': nat, matched': ASN1Node?, ghost found': Parsed,
               ghost c': Cursor)
    requires LevelAt(root, pool, sid, D, defs, ns, vs, N, V, before, links, k, found) && found.made == usedNc &&
             |vs| <= |ns|
    requires root !in D && NotAhead(root, k, ns) && (def != null ==> def in D) && sid <= defs.latest &&
             (matched != null ==> matched in D)
    requires CursorAt(c, pos, next, matched, usedNc, defs) && pos < len && k <= |vs|
    requires p == Before(found.forest, found.marks, Parse(mem, off, len, DefOrNone(def, defs), false, |vs|, c))
    modifies pool`freeTlvCount, pool`nextFreeTlv, pool`freeAsn1NodeCount, pool`nextFreeAsn1Node
    modifies root`children, D`sessionId, D`linkedNode, N, V
    ensures DefAt(D, defs) && (matched' != null ==> matched' in D)
    ensures r != Done(0) ==> r == OutcomeOf(p) && !p.Parsed?
    ensures r == Done(0) ==>
              && LevelAt(root, pool, sid, D, defs, ns, vs, N, V, before, links, k, found')
              && Below(root, k, ns, vs) == old(Below(root, k, ns, vs))
              && found'.Parsed? && found'.made == used && pos < pos' && off + pos < |mem|
              && CursorAt(c', pos', next', matched', used, defs)
              && p == Before(found'.forest, found'.marks, Parse(mem, off, len, DefOrNone(def, defs), false, |vs|, c'))
    decreases |mem| - off, 0, 2
  {
    hide Parse, PoolAt, DefAt, Marked, Grown, Links, Named, Below, Members, Distinct, NotAhead, DefTree, DefOf, UpTo;
    NamedDefs(D, defs);
    AheadLess(root, k, usedNc, ns);
    RootAbove(root, D, ns, vs, N, V);
    ghost var el;
    r, used, pos', next', matched', el, c' :=
      DecodeElement(mem, off, len, root, def, pool, sid, usedNc, pos, next, matched, D, defs, ns, vs, N, V, c,
                    root.children, Links(D, ns));
    found' := found;
    if r == Done(0) {
      LevelThen(root, pool, sid, D, defs, ns, vs, N, V, before, links, k, found, el);
      BelowLess(root, k, usedNc, ns, vs);
      BeforeBefore(found.forest, found.marks, el.forest, el.marks,
                   Parse(mem, off, len, DefOrNone(def, defs), false, |vs|, c'));
      found' := Parsed(found.forest + el.forest, used, found.marks + el.marks);
    }
  }

  /** A level that has found `found` goes on to find the element el. */
  twostate lemma LevelThen(root: ASN1Node, new pool: ASN1Pool, new sid: nat, new D: set<ASN1Node>,
                           new defs: Definitions, new ns: seq<ASN1Node>, new vs: seq<TLVNode>, new N: set<ASN1Node>,
                           new V: set<TLVNode>, new before: seq<ASN1Node>, new links: map<nat, Link>, new k: nat,
                           new found: Parsed, new el: Parsed)
    requires old(allocated(pool)) && old(allocated(D)) && old(allocated(ns)) && old(allocated(vs))
    requires old(allocated(N)) && old(allocated(V)) && old(allocated(before))
    requires old(LevelAt(root, pool, sid, D, defs, ns, vs, N, V, before, links, k, found)) && Named(D) &&
             NotAhead(root, k, ns)
    requires LevelAt(root, pool, sid, D, defs, ns, vs, N, V, old(root.children), old(Links(D, ns)), found.made, el) &&
             |el.forest| == 1
    requires |vs| <= |ns| && found.made <= |vs| &&
             Below(root, found.made, ns, vs) == old(Below(root, found.made, ns, vs))
    ensures LevelAt(root, pool, sid, D, defs, ns, vs, N, V, before, links, k,
                    Parsed(found.forest + el.forest, el.made, found.marks + el.marks))
  {
    hide Below, Grown, Marked, PoolAt, DefAt, Links, Distinct, Members, Named, NotAhead;
    RootAbove(root, D, ns, vs, N, V);
    assert el.forest == [el.forest[0]];
    MarkedThen(D, links, found.marks, el.marks, sid, root, ns, vs, found.made, el.made);
    GrownThen(root, before, found.forest, el.forest[0], k, found.made, el.made, ns, vs);
  }

  lemma LoopDone(mem: seq<byte>, off: nat, len: nat, d: Option<Def>, limit: nat, c: Cursor, found: Parsed, p: Parsed)
    requires c.pos >= len && found.Parsed? && found.made == c.made
    requires p == Before(found.forest, found.marks, Parse(mem, off, len, d, false, limit, c))
    ensures p == found
  {
    BeforeTheEnd(found);
  }

  lemma RootAbove(root: ASN1Node, D: set<ASN1Node>, ns: seq<ASN1Node>, vs: seq<TLVNode>, N: set<ASN1Node>,
                  V: set<TLVNode>)
    requires Separate(D, ns, vs, N, V)
    ensures Distinct(ns) && |vs| <= |ns|
  {
  }

  /** _decode with a definition, for one level. */
  method DecodeLevel(mem: seq<byte>, off: nat, len: nat, root: ASN1Node, def: ASN1Node?, pool: ASN1Pool, sid: nat,
                     usedNc: nat, ghost D: set<ASN1Node>, ghost defs: Definitions, ghost ns: seq<ASN1Node>,
                     ghost vs: seq<TLVNode>,
                     ghost N: set<ASN1Node>, ghost V: set<TLVNode>)
      returns (r: Outcome, used: nat, ghost p: Parsed)
    requires PoolAt(pool, ns, vs, usedNc, usedNc) && Separate(D, ns, vs, N, V) && DefAt(D, defs)
    requires root !in D && NotAhead(root, usedNc, ns) && (def != null ==> def in D) && sid <= defs.latest
    modifies pool`freeTlvCount, pool`nextFreeTlv, pool`freeAsn1NodeCount, pool`nextFreeAsn1Node
    modifies root`children, D`sessionId, D`linkedNode, N, V
    ensures DefAt(D, defs)
    ensures p == Parse(mem, off, len, DefOrNone(def, defs), false, |vs|, Cursor(0, 0, None, 0, usedNc))
    ensures r == OutcomeOf(p) && (r == Done(0) ==> p.Parsed?)
    ensures p.Parsed? ==>
              && LevelAt(root, pool, sid, D, defs, ns, vs, N, V, old(root.children), old(Links(D, ns)), usedNc, p)
              && used == p.made && Below(root, usedNc, ns, vs) == old(Below(root, usedNc, ns, vs))
    decreases |mem| - off, 1
  {
    hide Parse, Before, DefAt, PoolAt, LevelAt, Links, Named, Distinct, Members, NotAhead, Below, Separate, Marked,
         Grown, DefTree,
      DefOf, UpTo;
    LevelStarts(root, pool, sid, D, defs, ns, vs, N, V, usedNc);
    RootAbove(root, D, ns, vs, N, V);
    ghost var d, before, links := DefOrNone(def, defs), root.children, Links(D, ns);
    var pos, next := 0, 0;
    var matched: ASN1Node? := null;
    used := usedNc;
    ghost var c := Cursor(0, 0, None, 0, usedNc);
    p := Parse(mem, off, len, d, false, |vs|, c);
    ghost var found := Parsed([], used, map[]);
    BeforeNothing(p);
    while pos < len
      invariant CursorAt(c, pos, next, matched, used, defs) && (matched != null ==> matched in D)
      invariant found.Parsed? && found.made == used && DefAt(D, defs)
      invariant p == Before(found.forest, found.marks, Parse(mem, off, len, d, false, |vs|, c))
      invariant LevelAt(root, pool, sid, D, defs, ns, vs, N, V, before, links, usedNc, found)
      invariant Below(root, usedNc, ns, vs) == old(Below(root, usedNc, ns, vs))
      decreases |mem| - off - pos
    {
      var pos', used';
      r, used', pos', next, matched, found, c :=
        DecodeTurn(mem, off, len, root, def, pool, sid, used, pos, next, matched,
                   D, defs, ns, vs, N, V, c, before, links, usedNc, found, p);
      if r != Done(0) {
        return;
      }
      pos, used := pos', used';
    }
    LoopDone(mem, off, len, d, |vs|, c, found, p);
    r := Done(0);
  }
}
