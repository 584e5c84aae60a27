/** The ring of reusable records and tree nodes that decoding draws from (src/asn1/asn1.cpp, ASN1Pool). */
module Asn1Pool {
  import opened Asn1Octets
  import opened Asn1Node

  function Reversed<T>(s: seq<T>): (r: seq<T>)
    ensures |r| == |s|
  {
    if s == [] then [] else Reversed(s[1..]) + [s[0]]
  }

  lemma {:induction false} ReversedAt<T>(s: seq<T>, i: nat)
    requires i < |s|
    ensures Reversed(s)[i] == s[|s| - 1 - i]
  {
    if i < |s| - 1 {
      ReversedAt(s[1..], i);
    }
  }

  /** The elements of a ring in the order in which requests will hand them out. */
  function Ahead<T>(pool: seq<T>, free: nat): (r: seq<T>)
    requires 1 <= free <= |pool|
    ensures |r| == |pool|
  {
    Reversed(pool[..free]) + Reversed(pool[free..])
  }

  /** A ring after k requests. */
  function Turned<T>(s: seq<T>, k: nat): (r: seq<T>)
    requires k <= |s|
    ensures |r| == |s|
  {
    s[k..] + s[..k]
  }

  predicate Distinct<T(==)>(s: seq<T>) {
    forall i, j :: 0 <= i < j < |s| ==> s[i] != s[j]
  }

  /** One request turns the ring by one. */
  lemma AheadTurns<T>(pool: seq<T>, free: nat)
    requires 1 <= free <= |pool|
    ensures Ahead(pool, free)[0] == pool[free - 1]
    ensures Ahead(pool, if free > 1 then free - 1 else |pool|) == Turned(Ahead(pool, free), 1)
  {
    hide Ahead;
    var next := if free > 1 then free - 1 else |pool|;
    var now, after := Ahead(pool, free), Ahead(pool, next);
    assert |Turned(now, 1)| == |after|;
    forall i | 0 <= i < |pool| ensures after[i] == Turned(now, 1)[i] {
      AheadAt(pool, free, if i < |pool| - 1 then i + 1 else 0);
      AheadAt(pool, next, i);
    }
    AheadAt(pool, free, 0);
  }

  lemma AheadAt<T>(pool: seq<T>, free: nat, i: nat)
    requires 1 <= free <= |pool| && i < |pool|
    ensures Ahead(pool, free)[i] == pool[if i < free then free - 1 - i else |pool| - 1 - (i - free)]
  {
    if i < free {
      ReversedAt(pool[..free], i);
    } else {
      ReversedAt(pool[free..], i - free);
    }
  }

  lemma TurnedOnce<T>(s: seq<T>, k: nat)
    requires k < |s|
    ensures Turned(s, k)[0] == s[k] && Turned(Turned(s, k), 1) == Turned(s, k + 1)
  {
  }

  /** From any ring position, as many requests as the ring has elements hand out every element exactly once. */
  lemma AheadDistinct<T>(pool: seq<T>, free: nat)
    requires Distinct(pool) && 1 <= free <= |pool|
    ensures Distinct(Ahead(pool, free))
    ensures forall x :: x in pool <==> x in Ahead(pool, free)
    ensures forall k | 0 <= k < |pool| :: Turned(Ahead(pool, free), k)[0] == Ahead(pool, free)[k]
  {
    var a := Ahead(pool, free);
    forall i | 0 <= i < |pool| ensures a[i] == pool[if i < free then free - 1 - i else |pool| - 1 - (i - free)] {
      AheadAt(pool, free, i);
    }
    hide Ahead;
    forall x | x in pool ensures x in a {
      var j :| 0 <= j < |pool| && pool[j] == x;
      assert a[if j < free then free - 1 - j else |pool| - 1 - (j - free)] == x;
    }
  }

  class ASN1Pool {
    var tlvPool: seq<TLVNode>
    var asn1Pool: seq<ASN1Node>
    var tlvCount: int
    var asn1NodeCount: int
    var freeTlvCount: int
    var freeAsn1NodeCount: int
    var nextFreeTlv: TLVNode?
    var nextFreeAsn1Node: ASN1Node?

    ghost predicate Valid()
      reads this
    {
      && |tlvPool| == tlvCount && |asn1Pool| == asn1NodeCount && Distinct(tlvPool) && Distinct(asn1Pool)
      && 1 <= freeTlvCount <= tlvCount && nextFreeTlv == tlvPool[freeTlvCount - 1]
      && 1 <= freeAsn1NodeCount <= asn1NodeCount && nextFreeAsn1Node == asn1Pool[freeAsn1NodeCount - 1]
    }

    ghost function TlvsAhead(): seq<TLVNode>
      requires Valid()
      reads this
    {
      Ahead(tlvPool, freeTlvCount)
    }

    ghost function NodesAhead(): seq<ASN1Node>
      requires Valid()
      reads this
    {
      Ahead(asn1Pool, freeAsn1NodeCount)
    }

    /** set_pool_size and init_pool. */
    constructor (tlvCount: int, asn1NodeCount: int)
      requires tlvCount >= 1 && asn1NodeCount >= 1
      ensures Valid() && this.tlvCount == tlvCount && this.asn1NodeCount == asn1NodeCount
      ensures forall t | t in tlvPool :: fresh(t)
      ensures forall n | n in asn1Pool :: fresh(n) && n.children == []
    {
      var tlvs: seq<TLVNode> := [];
      for i := 0 to tlvCount
        invariant |tlvs| == i && Distinct(tlvs) && forall t | t in tlvs :: fresh(t)
      {
        var t := new TLVNode();
        tlvs := tlvs + [t];
      }
      var nodes: seq<ASN1Node> := [];
      for i := 0 to asn1NodeCount
        invariant |nodes| == i && Distinct(nodes) && forall n | n in nodes :: fresh(n) && n.children == []
      {
        var blank := new TLVNode();
        var n := new ASN1Node(blank, i);
        nodes := nodes + [n];
      }
      this.tlvCount, freeTlvCount, tlvPool, nextFreeTlv := tlvCount, tlvCount, tlvs, tlvs[tlvCount - 1];
      this.asn1NodeCount, freeAsn1NodeCount := asn1NodeCount, asn1NodeCount;
      asn1Pool, nextFreeAsn1Node := nodes, nodes[asn1NodeCount - 1];
    }

    method RequestAsn1Node() returns (n: ASN1Node)
      requires Valid()
      modifies `freeAsn1NodeCount, `nextFreeAsn1Node
      ensures Valid() && n == old(NodesAhead()[0]) && NodesAhead() == Turned(old(NodesAhead()), 1)
    {
      AheadTurns(asn1Pool, freeAsn1NodeCount);
      n := nextFreeAsn1Node;
      freeAsn1NodeCount := freeAsn1NodeCount - 1;
      if freeAsn1NodeCount <= 0 {
        freeAsn1NodeCount := asn1NodeCount;
      }
      nextFreeAsn1Node := asn1Pool[freeAsn1NodeCount - 1];
    }

    method RequestTlv() returns (t: TLVNode)
      requires Valid()
      modifies `freeTlvCount, `nextFreeTlv
      ensures Valid() && t == old(TlvsAhead()[0]) && TlvsAhead() == Turned(old(TlvsAhead()), 1)
    {
      AheadTurns(tlvPool, freeTlvCount);
      t := nextFreeTlv;
      freeTlvCount := freeTlvCount - 1;
      if freeTlvCount <= 0 {
        freeTlvCount := tlvCount;
      }
      nextFreeTlv := tlvPool[freeTlvCount - 1];
    }
  }
}
