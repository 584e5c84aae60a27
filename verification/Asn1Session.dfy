/** Sessions: decode with a fresh session id, and what the receiver's definition shows afterwards
    (src/asn1/asn1.cpp, SessionId, set_session_id and the public decode). */
module Asn1Session {
  import opened Wrappers
  import opened Asn1Octets
  import opened Asn1Ber
  import opened Asn1Node
  import opened Asn1Pool
  import opened Asn1Parse
  import opened Asn1Encode
  import opened Asn1Decode

  const SESSION_ID_LIMIT := 0x1_0000_0000_0000_0000

  // ---------------------------------------------------------------- session ids

  ghost predicate TreeIn(D: set<ASN1Node>)
    reads D`children, D`height
  {
    forall d, c | d in D && c in d.children :: c in D && c.height < d.height
  }

  /** n and everything below it. */
  ghost function Under(n: ASN1Node, D: set<ASN1Node>): (r: set<ASN1Node>)
    requires n in D && TreeIn(D)
    reads D`children, D`height
    ensures n in r && r <= D
    decreases n.height, 1, 0
  {
    {n} + UnderAll(n.children, n.height, D)
  }

  ghost function UnderAll(cs: seq<ASN1Node>, height: nat, D: set<ASN1Node>): (r: set<ASN1Node>)
    requires TreeIn(D) && forall c | c in cs :: c in D && c.height < height
    reads D`children, D`height
    ensures r <= D
    decreases height, 0, |cs|
  {
    if cs == [] then {} else UnderAll(cs[..|cs| - 1], height, D) + Under(cs[|cs| - 1], D)
  }

  lemma OneMoreUnder(cs: seq<ASN1Node>, i: nat, height: nat, D: set<ASN1Node>)
    requires TreeIn(D) && i < |cs| && forall c | c in cs :: c in D && c.height < height
    ensures UnderAll(cs[..i + 1], height, D) == UnderAll(cs[..i], height, D) + Under(cs[i], D)
  {
    assert cs[..i + 1][..i] == cs[..i];
  }

  method SetSessionId(n: ASN1Node, id: nat, ghost D: set<ASN1Node>)
    requires n in D && TreeIn(D)
    modifies D`sessionId
    ensures forall d | d in D :: d.sessionId == if d in Under(n, D) then id else old(d.sessionId)
    decreases n.height
  {
    n.sessionId := id;
    assert n.children[..0] == [];
    for i := 0 to |n.children|
      invariant forall d | d in D ::
                  d.sessionId == if d in {n} + UnderAll(n.children[..i], n.height, D) then id else old(d.sessionId)
    {
      OneMoreUnder(n.children, i, n.height, D);
      SetSessionId(n.children[i], id, D);
    }
    assert n.children[..|n.children|] == n.children;
  }

  class SessionId {
    var sessionId: nat

    constructor ()
      ensures sessionId == 0
    {
      sessionId := 0;
    }

    /** No node under root carries an id that has not been given out yet. */
    ghost predicate Covers(D: set<ASN1Node>)
      reads this, D`sessionId
    {
      sessionId < SESSION_ID_LIMIT && forall d | d in D :: d.sessionId <= sessionId
    }

    /** The 64-bit counter wraps; then all ids of the tree are cleared and 0 is left out. */
    method GetNextId(node: ASN1Node, ghost D: set<ASN1Node>) returns (id: nat)
      requires node in D && TreeIn(D) && D == Under(node, D) && Covers(D)
      modifies this, D`sessionId
      ensures Covers(D) && id == sessionId > 0 && forall d | d in D :: d.sessionId < id
      ensures old(sessionId) + 1 < SESSION_ID_LIMIT ==>
                id == old(sessionId) + 1 && forall d | d in D :: d.sessionId == old(d.sessionId)
      ensures old(sessionId) + 1 == SESSION_ID_LIMIT ==> id == 1 && forall d | d in D :: d.sessionId == 0
    {
      sessionId := if sessionId + 1 == SESSION_ID_LIMIT then 0 else sessionId + 1;
      if sessionId == 0 {
        SetSessionId(node, sessionId, D);
        sessionId := sessionId + 1;
      }
      id := sessionId;
    }
  }

  // ---------------------------------------------------------------- the public decode

  /** A number above all the given ones. */
  ghost function AboveAll(s: set<nat>): (m: nat)
    ensures forall x | x in s :: x < m
  {
    if s == {} then 0
    else
      var x :| x in s;
      var m := AboveAll(s - {x});
      assert forall y | y in s :: y == x || y in s - {x};
      if x < m then m else x + 1
  }

  /** The forest of elements that ts found, as nodes, parents before children. */
  ghost function Preorder(cs: seq<ASN1Node>, ts: seq<Tlv>, k: nat, ns: seq<ASN1Node>,
                          vs: seq<TLVNode>): (r: seq<ASN1Node>)
    requires k + SizeAll(ts) <= |vs| <= |ns| && Built(cs, ts, k, ns, vs)
    reads ns, vs
    decreases ts
  {
    if ts == [] then []
    else
      [cs[0]] + Preorder(cs[0].children, ts[0].kids, k + 1, ns, vs)
      + Preorder(cs[1..], ts[1..], k + 1 + SizeAll(ts[0].kids), ns, vs)
  }

  lemma PreorderUnfolds(cs: seq<ASN1Node>, ts: seq<Tlv>, k: nat, ns: seq<ASN1Node>, vs: seq<TLVNode>)
    requires k + SizeAll(ts) <= |vs| <= |ns| && Built(cs, ts, k, ns, vs)
    ensures ts == [] ==> Preorder(cs, ts, k, ns, vs) == []
    ensures ts != [] ==>
              var mid := k + 1 + SizeAll(ts[0].kids);
              && SizeAll(ts) == mid - k + SizeAll(ts[1..]) && cs != [] && cs[0] == ns[k] && ns[k].tlv == vs[k]
              && Built(cs[0].children, ts[0].kids, k + 1, ns, vs) && Built(cs[1..], ts[1..], mid, ns, vs)
              && Preorder(cs, ts, k, ns, vs)
                 == [cs[0]] + Preorder(cs[0].children, ts[0].kids, k + 1, ns, vs)
                    + Preorder(cs[1..], ts[1..], mid, ns, vs)
  {
    hide Reads;
  }

  /** The elements hold the nodes and the records requested, in order. */
  lemma {:induction false} HeldInOrder(cs: seq<ASN1Node>, ts: seq<Tlv>, k: nat, ns: seq<ASN1Node>, vs: seq<TLVNode>)
    requires k + SizeAll(ts) <= |vs| <= |ns| && Built(cs, ts, k, ns, vs)
    ensures Preorder(cs, ts, k, ns, vs) == ns[k..k + SizeAll(ts)]
    ensures forall i | k <= i < k + SizeAll(ts) :: ns[i].tlv == vs[i]
    decreases ts
  {
    hide Preorder, Built;
    PreorderUnfolds(cs, ts, k, ns, vs);
    if ts != [] {
      var mid := k + 1 + SizeAll(ts[0].kids);
      HeldInOrder(cs[0].children, ts[0].kids, k + 1, ns, vs);
      HeldInOrder(cs[1..], ts[1..], mid, ns, vs);
      SliceJoins(ns, k, mid, k + SizeAll(ts));
    }
  }

  /** Every element has a node and a record of its own. */
  lemma NothingShared(cs: seq<ASN1Node>, ts: seq<Tlv>, k: nat, ns: seq<ASN1Node>, vs: seq<TLVNode>)
    requires k + SizeAll(ts) <= |vs| <= |ns| && Built(cs, ts, k, ns, vs) && Distinct(ns) && Distinct(vs)
    ensures |Preorder(cs, ts, k, ns, vs)| == SizeAll(ts)
    ensures forall i, j | 0 <= i < j < SizeAll(ts) ::
              && Preorder(cs, ts, k, ns, vs)[i] != Preorder(cs, ts, k, ns, vs)[j]
              && Preorder(cs, ts, k, ns, vs)[i].tlv != Preorder(cs, ts, k, ns, vs)[j].tlv
  {
    hide Preorder, Built;
    HeldInOrder(cs, ts, k, ns, vs);
  }

  lemma SliceJoins<T>(s: seq<T>, k: nat, mid: nat, end: nat)
    requires k < mid <= end <= |s|
    ensures s[k..end] == [s[k]] + s[k + 1..mid] + s[mid..end]
  {
  }

  /** The pool stands before its first request of this decode. */
  lemma PoolReady(pool: ASN1Pool, D: set<ASN1Node>)
    requires pool.Valid() && pool.asn1NodeCount >= pool.tlvCount
    requires forall d | d in D :: d !in pool.asn1Pool && d.tlv !in pool.tlvPool
    ensures var ns, vs := pool.NodesAhead(), pool.TlvsAhead();
            && PoolAt(pool, ns, vs, 0, 0) && |vs| == pool.tlvCount
            && Separate(D, ns, vs, Set(pool.asn1Pool), Set(pool.tlvPool))
  {
    hide Ahead;
    var ns, vs := pool.NodesAhead(), pool.TlvsAhead();
    AheadDistinct(pool.tlvPool, pool.freeTlvCount);
    AheadDistinct(pool.asn1Pool, pool.freeAsn1NodeCount);
    assert Turned(ns, 0) == ns && Turned(vs, 0) == vs;
    forall i | 0 <= i < |ns| ensures ns[i] in Set(pool.asn1Pool) {
      assert ns[i] in ns;
    }
    forall i | 0 <= i < |vs| ensures vs[i] in Set(pool.tlvPool) {
      assert vs[i] in vs;
    }
  }

  function Set<T(==)>(s: seq<T>): set<T> {
    set x | x in s
  }

  lemma DefOfMore(d: ASN1Node, D: set<ASN1Node>, D': set<ASN1Node>)
    requires d in D && D <= D' && DefTree(D) && DefTree(D')
    ensures DefOf(d, D') == DefOf(d, D)
    decreases d.height
  {
    forall c | c in d.children ensures DefOf(c, D') == DefOf(c, D) {
      DefOfMore(c, D, D');
    }
    var more, less := DefsOf(d.children, d.height, D'), DefsOf(d.children, d.height, D);
    assert forall i | 0 <= i < |more| :: more[i] == less[i];
  }

  /** The temporary parent makes a definition with one component. */
  lemma ParentDef(parent: ASN1Node, def: ASN1Node, D: set<ASN1Node>, defs: Definitions)
      returns (top: Def, defs': Definitions)
    requires DefAt(D, defs) && def in D && parent !in D && parent.children == [def] && def.height < parent.height
    requires parent.tlv.uniTag == parent.tlv.tagValue == UNKNOWN_UNIVERSAL_TAG && !parent.tlv.unlimited
    requires parent.sessionId <= defs.latest && forall d | d in D :: d.id < parent.id
    ensures DefAt(D + {parent}, defs') && DefOrNone(parent, defs') == Some(top) && defs'.latest == defs.latest
    ensures top.kids == [defs.of[def.id]] && !top.isSet
    ensures forall d | d in D :: d.id in defs.of && d.id in defs'.of && defs.of[d.id] == defs'.of[d.id]
  {
    var D' := D + {parent};
    assert DefTree(D');
    forall d | d in D ensures DefOf(d, D') == defs.of[d.id] {
      DefOfMore(d, D, D');
    }
    top := DefOf(parent, D');
    defs' := defs.(of := defs.of[parent.id := top]);
    assert top.kids == [defs.of[def.id]];
  }

  lemma LinksFewer(D: set<ASN1Node>, D': set<ASN1Node>, ns: seq<ASN1Node>)
    requires D <= D' && Named(D) && Named(D')
    ensures forall d | d in D ::
              d.id in Links(D, ns) && d.id in Links(D', ns) && Links(D, ns)[d.id] == Links(D', ns)[d.id]
  {
  }

  lemma TreeOfDefs(D: set<ASN1Node>, defs: Definitions)
    requires DefAt(D, defs)
    ensures TreeIn(D)
  {
  }

  lemma RootOutside(root: ASN1Node, D: set<ASN1Node>, ns: seq<ASN1Node>, vs: seq<TLVNode>, N: set<ASN1Node>,
                    V: set<TLVNode>)
    requires Separate(D, ns, vs, N, V) && root !in N
    ensures NotAhead(root, 0, ns)
  {
  }

  lemma DefAtFewer(D: set<ASN1Node>, D': set<ASN1Node>, defs: Definitions, defs': Definitions)
    requires D <= D' && DefAt(D', defs') && TreeIn(D) && defs.latest == defs'.latest
    requires forall d | d in D :: d.id in defs.of && d.id in defs'.of && defs.of[d.id] == defs'.of[d.id]
    ensures DefAt(D, defs)
  {
    forall d | d in D ensures DefOf(d, D') == DefOf(d, D) {
      DefOfMore(d, D, D');
    }
  }

  lemma MarkedFewer(D: set<ASN1Node>, D': set<ASN1Node>, links: map<nat, Link>, links': map<nat, Link>,
                    marks: map<nat, Tlv>, sid: nat, ns: seq<ASN1Node>, vs: seq<TLVNode>, made: nat)
    requires made <= |vs| <= |ns| && D <= D' && Marked(D', links', marks, sid, ns, vs, made)
    requires forall d | d in D :: d.id in links && d.id in links' && links[d.id] == links'[d.id]
    ensures Marked(D, links, marks, sid, ns, vs, made)
  {
    hide LinkedWith, LinkOf;
  }

  /** decode with a definition whose root is not a CHOICE: the definition's root becomes the only component of a
      temporary parent. */
  method Decode(mem: seq<byte>, off: nat, len: nat, root: ASN1Node, def: ASN1Node, pool: ASN1Pool, sid: nat,
                ghost D: set<ASN1Node>, ghost defs: Definitions)
      returns (r: Outcome, ghost p: Parsed, ghost top: Def)
    requires pool.Valid() && pool.asn1NodeCount >= pool.tlvCount && DefAt(D, defs) && def in D
    requires root !in D && root !in pool.asn1Pool && sid <= defs.latest
    requires forall d | d in D :: d !in pool.asn1Pool && d.tlv !in pool.tlvPool
    modifies pool`freeTlvCount, pool`nextFreeTlv, pool`freeAsn1NodeCount, pool`nextFreeAsn1Node
    modifies root`children, D`sessionId, D`linkedNode, Set(pool.asn1Pool), Set(pool.tlvPool)
    ensures top.kids == [defs.of[def.id]] && !top.isSet
    ensures p == Parse(mem, off, len, Some(top), false, pool.tlvCount, Cursor(0, 0, None, 0, 0))
    ensures r == OutcomeOf(p) && (r == Done(0) ==> p.Parsed?) && DefAt(D, defs)
    ensures p.Parsed? ==>
              var ns, vs := old(pool.NodesAhead()), old(pool.TlvsAhead());
              && Named(D) && |vs| <= |ns| && p.made == SizeAll(p.forest) <= |vs| == pool.tlvCount
              && Grown(root, old(root.children), p.forest, 0, p.made, ns, vs)
              && Marked(D, old(Links(D, ns)), p.marks, sid, ns, vs, p.made)
  {
    hide Parse, Grown, Marked, Links, Ahead, PoolAt, DefAt, Named, DefTree, DefOf, UpTo, Distinct, Members;
    PoolReady(pool, D);
    NamedDefs(D, defs);
    TreeOfDefs(D, defs);
    ghost var ns, vs, N, V := pool.NodesAhead(), pool.TlvsAhead(), Set(pool.asn1Pool), Set(pool.tlvPool);
    ghost var links := Links(D, ns);
    var parent;
    ghost var defs';
    parent, top, defs' := TemporaryParent(def, D, defs);
    SeparateMore(D, parent, ns, vs, N, V);
    r, p := DecodeUnder(mem, off, len, root, parent, pool, sid, D, D + {parent}, links, defs', ns, vs, N, V);
    DefAtFewer(D, D + {parent}, defs, defs');
  }

  method TemporaryParent(def: ASN1Node, ghost D: set<ASN1Node>, ghost defs: Definitions)
      returns (parent: ASN1Node, ghost top: Def, ghost defs': Definitions)
    requires DefAt(D, defs) && def in D
    ensures fresh(parent) && fresh(parent.tlv)
    ensures DefAt(D + {parent}, defs') && DefOrNone(parent, defs') == Some(top) && defs'.latest == defs.latest
    ensures top.kids == [defs.of[def.id]] && !top.isSet
    ensures forall d | d in D :: d.id in defs.of && d.id in defs'.of && defs.of[d.id] == defs'.of[d.id]
  {
    hide DefTree, DefOf, Named, UpTo;
    ghost var ids := set d | d in D :: d.id;
    var tlv := new TLVNode();
    parent := new ASN1Node(tlv, AboveAll(ids));
    parent.children := [def];
    parent.height := def.height + 1;
    assert forall d | d in D :: d.id in ids;
    DefNow(D, defs, defs);
    top, defs' := ParentDef(parent, def, D, defs);
  }

  lemma SeparateMore(D: set<ASN1Node>, e: ASN1Node, ns: seq<ASN1Node>, vs: seq<TLVNode>, N: set<ASN1Node>,
                     V: set<TLVNode>)
    requires Separate(D, ns, vs, N, V) && e !in N && e.tlv !in V
    ensures Separate(D + {e}, ns, vs, N, V)
  {
  }

  method DecodeUnder(mem: seq<byte>, off: nat, len: nat, root: ASN1Node, parent: ASN1Node, pool: ASN1Pool, sid: nat,
                     ghost D: set<ASN1Node>, ghost D': set<ASN1Node>, ghost links: map<nat, Link>,
                     ghost defs: Definitions,
                     ghost ns: seq<ASN1Node>, ghost vs: seq<TLVNode>, ghost N: set<ASN1Node>, ghost V: set<TLVNode>)
      returns (r: Outcome, ghost p: Parsed)
    requires PoolAt(pool, ns, vs, 0, 0) && Separate(D', ns, vs, N, V) && DefAt(D', defs)
    requires sid <= defs.latest && root !in D' && root !in N && parent in D' && D <= D' && Named(D) &&
             links == Links(D, ns)
    modifies pool`freeTlvCount, pool`nextFreeTlv, pool`freeAsn1NodeCount, pool`nextFreeAsn1Node
    modifies root`children, D'`sessionId, D'`linkedNode, N, V
    ensures p == Parse(mem, off, len, DefOrNone(parent, defs), false, |vs|, Cursor(0, 0, None, 0, 0))
    ensures r == OutcomeOf(p) && (r == Done(0) ==> p.Parsed?) && DefAt(D', defs)
    ensures p.Parsed? ==>
              && p.made == SizeAll(p.forest) <= |vs| <= |ns|
              && Grown(root, old(root.children), p.forest, 0, p.made, ns, vs)
              && Marked(D, links, p.marks, sid, ns, vs, p.made)
  {
    hide Parse, Grown, Marked, Links, PoolAt, DefAt, Named, DefTree, DefOf, UpTo, Distinct, Members;
    NamedDefs(D', defs);
    ghost var links' := Links(D', ns);
    LinksFewer(D, D', ns);
    RootOutside(root, D', ns, vs, N, V);
    var used;
    r, used, p := DecodeLevel(mem, off, len, root, parent, pool, sid, 0, D', defs, ns, vs, N, V);
    if p.Parsed? {
      ParseMade(mem, off, len, DefOrNone(parent, defs), false, |vs|, Cursor(0, 0, None, 0, 0));
      MarkedFewer(D, D', links, links', p.marks, sid, ns, vs, p.made);
    }
  }

  /** get_next_id and decode, as a receiver calls them: afterwards has_linked_data is true exactly for the
      components this message matched, each linked with the record of its element; nothing from an earlier
      session shows, whether or not the counter wrapped or an earlier decode failed. */
  method Receive(ids: SessionId, mem: seq<byte>, off: nat, len: nat, root: ASN1Node, def: ASN1Node, pool: ASN1Pool,
                 ghost D: set<ASN1Node>, ghost defs: Definitions)
      returns (r: Outcome, id: nat, ghost p: Parsed, ghost top: Def)
    requires pool.Valid() && pool.asn1NodeCount >= pool.tlvCount && DefAt(D, defs) && def in D
    requires TreeIn(D) && D == Under(def, D) && ids.Covers(D)
    requires root !in D && root !in pool.asn1Pool
    requires forall d | d in D :: d !in pool.asn1Pool && d.tlv !in pool.tlvPool
    modifies pool`freeTlvCount, pool`nextFreeTlv, pool`freeAsn1NodeCount, pool`nextFreeAsn1Node
    modifies ids, root`children, D`sessionId, D`linkedNode, Set(pool.asn1Pool), Set(pool.tlvPool)
    ensures ids.Covers(D) && id == ids.sessionId
    ensures top.kids == [defs.of[def.id]] && !top.isSet
    ensures p == Parse(mem, off, len, Some(top), false, pool.tlvCount, Cursor(0, 0, None, 0, 0))
    ensures r == OutcomeOf(p) && (r == Done(0) ==> p.Parsed?)
    ensures r == Done(0) ==>
              forall d | d in D ::
                && (d.HasLinkedData(id) <==> d.id in p.marks)
                && (d.id in p.marks ==> Holds(d.linkedNode.tlv, p.marks[d.id]))
  {
    hide Parse, Grown, Marked, Links, DefTree, DefOf, Holds, Named;
    id := ids.GetNextId(def, D);
    ghost var now := Definitions(defs.of, id);
    DefNow(D, defs, now);
    label given:
    NamedDefs(D, now);
    ghost var ns, vs := pool.NodesAhead(), pool.TlvsAhead();
    ghost var links := Links(D, ns);
    EarlierOnly(D, links, id, ns);
    r, p, top := Decode(mem, off, len, root, def, pool, id, D, now);
    if r == Done(0) {
      ShowsMarked(D, links, p.marks, id, ns, vs, p.made);
    }
  }

  twostate lemma DefNow(D: set<ASN1Node>, new defs: Definitions, new now: Definitions)
    requires old(DefAt(D, defs)) && now.of == defs.of && UpTo(D, now.latest)
    requires forall d | d in D ::
               d.tlv == old(d.tlv) && d.children == old(d.children) && d.height == old(d.height) && unchanged(d.tlv)
    ensures DefAt(D, now)
  {
    assert DefTree(D);
    forall d | d in D ensures DefOf(d, D) == old(DefOf(d, D)) {
      DefOfKept(d, D);
    }
  }

  lemma EarlierOnly(D: set<ASN1Node>, links: map<nat, Link>, id: nat, ns: seq<ASN1Node>)
    requires Named(D) && links == Links(D, ns) && forall d | d in D :: d.sessionId < id
    ensures forall d | d in D :: d.id in links && links[d.id].sessionId < id
  {
  }

  lemma ShowsMarked(D: set<ASN1Node>, links: map<nat, Link>, marks: map<nat, Tlv>, id: nat,
                    ns: seq<ASN1Node>, vs: seq<TLVNode>, made: nat)
    requires made <= |vs| <= |ns| && Marked(D, links, marks, id, ns, vs, made)
    requires forall d | d in D :: d.id in links && links[d.id].sessionId < id
    ensures forall d | d in D ::
              && (d.HasLinkedData(id) <==> d.id in marks)
              && (d.id in marks ==> Holds(d.linkedNode.tlv, marks[d.id]))
  {
    hide Holds;
  }

  // ---------------------------------------------------------------- a message of the same definition

  /** The definition d is that of the sender's node n, without CHOICE; `linked` names the components whose
      counterpart is linked. */
  ghost predicate Mirrors(d: Def, n: ASN1Node, linked: set<nat>, S: set<ASN1Node>, sid: nat)
    requires n in S && Prepared(S)
    reads S, Tlvs(S)
    decreases d
  {
    ChildrenBelow(n, S);
    && !IsChoice(n) && d.tagClass == ClassTagOf(n) && d.tag == TagOf(n) && (d.node in linked <==> n.sessionId == sid)
    && |d.kids| == |n.children| && forall i | 0 <= i < |d.kids| :: Mirrors(d.kids[i], n.children[i], linked, S, sid)
  }

  lemma {:induction false} ForestFront(c: ASN1Node, cs: seq<ASN1Node>, height: nat, S: set<ASN1Node>, sid: nat)
    requires Consistent(S, sid) && forall k | k in [c] + cs :: k in S && k.height < height
    ensures (forall k | k in cs :: k in [c] + cs) && c in [c] + cs
    ensures ForestOf([c] + cs, height, S, sid)
            == (if c.sessionId == sid then [TreeOf(c, S, sid)] else []) + ForestOf(cs, height, S, sid)
    decreases |cs|
  {
    hide Consistent, TreeOf;
    assert forall k | k in cs :: k in [c] + cs;
    assert c in [c] + cs;
    if cs == [] {
      assert [c] + cs == [c] && [c][..0] == [];
    } else {
      var front := cs[..|cs| - 1];
      assert ([c] + cs)[..|cs|] == [c] + front;
      assert forall k | k in [c] + front :: k in [c] + cs;
      ForestFront(c, front, height, S, sid);
    }
  }

  /** The encoding of a tree is a message of its definition, with exactly its linked components. */
  lemma {:induction false} TreeIsMessage(ds: seq<Def>, cs: seq<ASN1Node>, linked: set<nat>, height: nat,
                                         S: set<ASN1Node>, sid: nat)
    requires Consistent(S, sid) && |ds| == |cs| && (forall c | c in cs :: c in S && c.height < height)
    requires forall i | 0 <= i < |ds| :: Mirrors(ds[i], cs[i], linked, S, sid)
    ensures MessageOf(ds, linked, ForestOf(cs, height, S, sid))
    decreases ds
  {
    hide Consistent;
    if ds != [] {
      var d, c := ds[0], cs[0];
      assert cs == [c] + cs[1..];
      ForestFront(c, cs[1..], height, S, sid);
      TreeIsMessage(ds[1..], cs[1..], linked, height, S, sid);
      var rest := ForestOf(cs[1..], height, S, sid);
      if c.sessionId == sid {
        NodeIsMessage(d, c, linked, S, sid);
        assert ([TreeOf(c, S, sid)] + rest)[1..] == rest;
      } else {
        assert [] + rest == rest;
      }
    }
  }

  lemma {:induction false} NodeIsMessage(d: Def, n: ASN1Node, linked: set<nat>, S: set<ASN1Node>, sid: nat)
    requires n in S && Consistent(S, sid) && Mirrors(d, n, linked, S, sid) && n.sessionId == sid
    ensures var b := TreeOf(n, S, sid);
            && b.tagClass == d.tagClass && b.tag == d.tag
            && (if b.Cons? then MessageOf(d.kids, linked, b.kids) else d.kids == [])
    decreases d, 0
  {
    assert TypeAt(n, S) && NodeOk(n, S, sid);
    ChildrenBelow(n, S);
    if IsConstructed(n) {
      TreeIsMessage(d.kids, n.children, linked, n.height, S, sid);
    }
  }

  /** The components that are linked, like everything above them. */
  ghost function Reached(ds: seq<Def>, linked: set<nat>): set<nat>
    decreases ds
  {
    if ds == [] then {}
    else (if ds[0].node in linked then {ds[0].node} + Reached(ds[0].kids, linked) else {}) + Reached(ds[1..], linked)
  }

  lemma {:induction false} PresentReached(ds: seq<Def>, linked: set<nat>, bs: seq<Ber>)
    requires MessageOf(ds, linked, bs) && AllSendable(bs)
    ensures Present(ds, linked, bs).Keys == Reached(ds, linked)
    decreases bs, |ds|
  {
    hide ImageHeader;
    if ds != [] {
      if ds[0].node in linked {
        PresentReached(ds[1..], linked, bs[1..]);
        assert Sendable(bs[0]);
        if bs[0].Cons? {
          PresentReached(ds[0].kids, linked, bs[0].kids);
        }
      } else {
        PresentReached(ds[1..], linked, bs);
      }
    }
  }

  /** What encode writes for a linked node is a message of its definition. */
  lemma WrittenMessage(n: ASN1Node, S: set<ASN1Node>, sid: nat, d: Def, linked: set<nat>)
    requires n in S && Consistent(S, sid) && n.sessionId == sid && Mirrors(d, n, linked, S, sid)
    ensures Sendable(TreeOf(n, S, sid)) && Written(n, S, sid) == Encoding(TreeOf(n, S, sid))
    ensures MessageOf([d], linked, [TreeOf(n, S, sid)])
  {
    hide Encoding, Consistent, Mirrors, TreeOf, MessageOf;
    CachedSizes(n, S, sid);
    assert ForestOf([n], n.height + 1, S, sid) == [TreeOf(n, S, sid)] by { assert [n][..0] == []; }
    TreeIsMessage([d], [n], linked, n.height + 1, S, sid);
  }

  /** What a decode marks in the octets of a message. */
  lemma MessageMarks(b: Ber, mem: seq<byte>, off: nat, len: nat, top: Def, linked: set<nat>, limit: nat)
    requires Sendable(b) && AllLowTags([b]) && CountAll([b]) <= limit
    requires DistinctTags(top.kids) && MessageOf(top.kids, linked, [b])
    requires |mem| < 0x8000_0000 && len == |Encoding(b)| && off + len <= |mem| && mem[off..off + len] == Encoding(b)
    ensures var p := Parse(mem, off, len, Some(top), false, limit, Cursor(0, 0, None, 0, 0));
            && p.Parsed? && AllSendable([b]) && p.forest == Images([b])
            && p.marks == Present(top.kids, linked, [b]) && p.marks.Keys == Reached(top.kids, linked)
  {
    hide Parse, Encoding, Present, Reached, DistinctTags, MessageOf, Image, LowTags, Count;
    assert [b][1..] == [] && EncodingOfAll([b][1..]) == [];
    assert EncodingOfAll([b]) == Encoding(b);
    var c := Cursor(0, 0, None, 0, 0);
    ParseUndoesEncoding(mem, off, len, Some(top), false, limit, c, [b]);
    assert top.kids[0..] == top.kids;
    MarksPresent(mem, off, len, top, false, limit, c, 0, linked, [b]);
    PresentReached(top.kids, linked, [b]);
  }

  /** What a receiver's decode marks in a message that encode wrote: exactly the counterparts of the sender's
      linked components, each with the header and the octets the sender encoded. */
  lemma EncodedMarks(n: ASN1Node, S: set<ASN1Node>, sid: nat, mem: seq<byte>, off: nat, top: Def, linked: set<nat>,
                     limit: nat)
    requires n in S && Consistent(S, sid) && n.sessionId == sid
    requires |top.kids| == 1 && DistinctTags(top.kids) && Mirrors(top.kids[0], n, linked, S, sid)
    requires AllLowTags([TreeOf(n, S, sid)]) && CountAll([TreeOf(n, S, sid)]) <= limit
    requires |mem| < 0x8000_0000 && off + |Written(n, S, sid)| <= |mem|
    requires mem[off..off + |Written(n, S, sid)|] == Written(n, S, sid)
    ensures var p := Parse(mem, off, |Written(n, S, sid)|, Some(top), false, limit, Cursor(0, 0, None, 0, 0));
            && p.Parsed? && AllSendable([TreeOf(n, S, sid)])
            && MessageOf(top.kids, linked, [TreeOf(n, S, sid)])
            && p.forest == Images([TreeOf(n, S, sid)])
            && p.marks == Present(top.kids, linked, [TreeOf(n, S, sid)])
            && p.marks.Keys == Reached(top.kids, linked)
  {
    hide Parse, Encoding, Consistent, Mirrors, TreeOf, Present, Reached, DistinctTags, MessageOf, Image, LowTags, Count;
    WrittenMessage(n, S, sid, top.kids[0], linked);
    assert top.kids == [top.kids[0]];
    MessageMarks(TreeOf(n, S, sid), mem, off, |Written(n, S, sid)|, top, linked, limit);
  }

  /** A linked node, encoded and then received with a definition that mirrors it: the decode succeeds, has_linked_data
      is true exactly for the counterparts of the sender's components that are linked like everything above them, and
      each of those is linked with a record that holds what the sender encoded for it. */
  method EncodeThenReceive(buffer: array<byte>, n: ASN1Node, sid: nat, ids: SessionId, root: ASN1Node, def: ASN1Node,
                           pool: ASN1Pool, ghost S: set<ASN1Node>, ghost T: set<TLVNode>, ghost D: set<ASN1Node>,
                           ghost defs: Definitions, ghost linked: set<nat>)
      returns (r: Outcome, id: nat)
    requires n in S && T == Tlvs(S) && Consistent(S, sid) && n.sessionId == sid
    requires |Written(n, S, sid)| <= buffer.Length < 0x8000_0000
    requires pool.Valid() && pool.asn1NodeCount >= pool.tlvCount && DefAt(D, defs) && def in D
    requires TreeIn(D) && D == Under(def, D) && ids.Covers(D)
    requires root !in D && root !in pool.asn1Pool
    requires forall d | d in D :: d !in pool.asn1Pool && d.tlv !in pool.tlvPool && d.tlv !in T
    requires Mirrors(defs.of[def.id], n, linked, S, sid) && DistinctTags([defs.of[def.id]])
    requires AllLowTags([TreeOf(n, S, sid)]) && CountAll([TreeOf(n, S, sid)]) <= pool.tlvCount
    modifies buffer, T`tagValue, T`tagClass, T`complexity
    modifies pool`freeTlvCount, pool`nextFreeTlv, pool`freeAsn1NodeCount, pool`nextFreeAsn1Node
    modifies ids, root`children, D`sessionId, D`linkedNode, Set(pool.asn1Pool), Set(pool.tlvPool)
    ensures r == Done(0) && id == ids.sessionId && ids.Covers(D)
    ensures var ds, b := [defs.of[def.id]], old(TreeOf(n, S, sid));
            && AllSendable([b]) && MessageOf(ds, linked, [b]) && Present(ds, linked, [b]).Keys == Reached(ds, linked)
            && forall d | d in D ::
                 && (d.HasLinkedData(id) <==> d.id in Reached(ds, linked))
                 && (d.id in Reached(ds, linked) ==> Holds(d.linkedNode.tlv, Present(ds, linked, [b])[d.id]))
  {
    hide Parse, Encoding, Consistent, Mirrors, TreeOf, Present, Reached, DistinctTags, MessageOf, Image, LowTags, Count,
         Written, Meanings, Holds, DefTree, DefOf, Named, Under, UpTo;
    ghost var b, d := TreeOf(n, S, sid), defs.of[def.id];
    WrittenMessage(n, S, sid, d, linked);
    var total := Encode(buffer, 0, n, sid, S, T);
    DefNow(D, defs, defs);
    ghost var p, top;
    r, id, p, top := Receive(ids, buffer[..], 0, total, root, def, pool, D, defs);
    MessageMarks(b, buffer[..], 0, total, top, linked, pool.tlvCount);
  }
}
