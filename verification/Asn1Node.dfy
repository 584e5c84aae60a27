/** Message trees and their cached lengths (src/asn1/asn1.cpp, update_parents, set_linked_data and unlink).

    Every edit pushes a length change up the parent chain; encode later trusts the cached lengths.  The
    invariant says what the caches are worth in every state the edits can reach. */
module Asn1Node {
  import opened Asn1Octets

  class ASN1Node {
    var tlv: TLVNode
    var sessionId: nat
    var children: seq<ASN1Node>
    var linkedNode: ASN1Node?
    var parentNode: ASN1Node?
    var choiceSelection: ASN1Node?
    ghost var index: nat    // position among the parent's children
    ghost var depth: nat    // distance from the root
    ghost var height: nat   // bound on the distance to a leaf
    ghost const id: nat     // name of the node in specifications

    constructor (tlv: TLVNode, ghost id: nat)
      ensures this.tlv == tlv && this.id == id && sessionId == 0 && children == []
      ensures linkedNode == parentNode == choiceSelection == null
    {
      this.tlv, sessionId, children := tlv, 0, [];
      linkedNode, parentNode, choiceSelection := null, null, null;
      this.id := id;
    }

    predicate HasLinkedData(id: nat)
      reads this
    {
      linkedNode != null && sessionId == id
    }

    /** Recomputes this node's header sizes, hands the change of its full size to its parent and goes on from
        there.  `origin` is the node the edit started at: its own consistency is the caller's business. */
    method UpdateParents(sid: nat, ghost S: set<ASN1Node>, ghost T: set<TLVNode>, ghost origin: ASN1Node)
      requires T == Tlvs(S)
      requires this in S && origin in S && Ready(this, S, origin, sid)
      modifies S`sessionId, S`choiceSelection
      modifies T`valueLength, T`valueLengthSize, T`oldValueLength, T`tagValueSize, T`lengthType
      ensures forall m | m in S && m != origin :: NodeOk(m, S, sid)
      ensures HeaderCurrent(this) && tlv.valueLength == old(tlv.valueLength)
      ensures sessionId == sid && choiceSelection == old(choiceSelection)
      ensures forall m | m in S && m != this && m !in Above(this, S) :: SameCaches(m)
      ensures LinkedAbove(this, S, sid)
      decreases depth, 1
    {
      hide ContentOk, LinkOk, ChoiceOk, NodeOk, Typed, LinkedAbove, Ready, HeaderCurrent, CachesOf, TagSize, LengthSize;
      ReadyMeans(this, S, origin, sid);
      if parentNode != null {
        ParentInside(this, S);
      }
      PushStep(sid, S, T);
      if parentNode == null {
        PushedAtRoot(this, S, origin, sid);
        NothingAbove(this, S, sid);
      } else {
        PushedReady(this, S, origin, sid);
        label pushed:
        Climb(sid, S, T, origin);
        forall m | m in S && m != this && m !in Above(this, S) ensures SameCaches(m) {
          assert SameCaches@pushed(m);
        }
      }
    }

    /** update_parents calls itself on the parent. */
    method Climb(sid: nat, ghost S: set<ASN1Node>, ghost T: set<TLVNode>, ghost origin: ASN1Node)
      requires T == Tlvs(S)
      requires this in S && origin in S && Prepared(S) && parentNode != null && parentNode in S
      requires Ready(parentNode, S, origin, sid) && HeaderCurrent(this) && sessionId == sid
      requires IsChoice(parentNode) ==> parentNode.choiceSelection == this
      modifies S`sessionId, S`choiceSelection
      modifies T`valueLength, T`valueLengthSize, T`oldValueLength, T`tagValueSize, T`lengthType
      ensures forall m | m in S && m != origin :: NodeOk(m, S, sid)
      ensures HeaderCurrent(this) && tlv.valueLength == old(tlv.valueLength)
      ensures sessionId == sid && choiceSelection == old(choiceSelection)
      ensures Prepared(S) && parentNode in Above(this, S)
      ensures forall m | m in S && m != this && m !in Above(this, S) :: SameCaches(m)
      ensures LinkedAbove(this, S, sid)
      decreases depth, 0
    {
      hide ContentOk, LinkOk, ChoiceOk, NodeOk, Typed, LinkedAbove, Ready, HeaderCurrent, CachesOf, TagSize, LengthSize;
      ParentInside(this, S);
      parentNode.linkedNode.UpdateParents(sid, S, T, origin);
      LinkedAboveStep(this, S, sid);
      assert SameCaches(this);
      HeaderKept(this);
    }

    /** set_linked_data with a value, on a primitive node. */
    method SetLinkedValue(sid: nat, data: seq<byte>, ghost S: set<ASN1Node>, ghost T: set<TLVNode>)
      requires T == Tlvs(S)
      requires this in S && Consistent(S, sid) && !IsChoice(this) && !IsConstructed(this)
      modifies tlv`value, S`sessionId, S`choiceSelection
      modifies T`valueLength, T`valueLengthSize, T`oldValueLength, T`tagValueSize, T`lengthType
      ensures Consistent(S, sid)
      ensures tlv.value == data && sessionId == sid && LinkedAbove(this, S, sid)
      ensures forall m | m in S && m != this && m !in Above(this, S) :: SameCaches(m)
    {
      hide NodeOk, Typed, Ready, LinkedAbove, TagSize, LengthSize;
      OwnRecords(S);
      tlv.value := data;
      tlv.valueLength := |data|;
      sessionId := sid;
      EditReady(this, S, sid);
      label edited:
      Link(sid, S, T);
      forall m | m in S && m != this && m !in Above(this, S) ensures SameCaches(m) {
        assert SameCaches@edited(m);
      }
    }

    /** set_linked_data without a value: links a node back with the value and children it has. */
    method SetLinked(sid: nat, ghost S: set<ASN1Node>, ghost T: set<TLVNode>)
      requires T == Tlvs(S)
      requires this in S && Consistent(S, sid) && !IsChoice(this)
      modifies S`sessionId, S`choiceSelection
      modifies T`valueLength, T`valueLengthSize, T`oldValueLength, T`tagValueSize, T`lengthType
      ensures Consistent(S, sid)
      ensures sessionId == sid && LinkedAbove(this, S, sid)
      ensures forall m | m in S && m != this && m !in Above(this, S) :: SameCaches(m)
    {
      hide NodeOk, Typed, Ready, LinkedAbove, TagSize, LengthSize;
      LengthNonNegative(this, S, sid);
      sessionId := sid;
      EditReady(this, S, sid);
      label edited:
      Link(sid, S, T);
      forall m | m in S && m != this && m !in Above(this, S) ensures SameCaches(m) {
        assert SameCaches@edited(m);
      }
    }

    /** unlink: not for an alternative of a CHOICE; there the CHOICE itself is unlinked. */
    method Unlink(sid: nat, ghost S: set<ASN1Node>, ghost T: set<TLVNode>)
      requires T == Tlvs(S)
      requires this in S && Consistent(S, sid) && !UnderChoice(this, S)
      modifies S`sessionId, S`choiceSelection
      modifies T`valueLength, T`valueLengthSize, T`oldValueLength, T`tagValueSize, T`lengthType
      ensures Consistent(S, sid)
      ensures old(tlv.tagValueSize) <= 0 ==> forall m | m in S :: SameCaches(m)
      ensures old(tlv.tagValueSize) > 0 ==> sessionId == 0 && LinkedAbove(this, S, sid)
      ensures tlv.valueLength == old(tlv.valueLength)
      ensures forall m | m in S && m != this && m !in Above(this, S) ::
                if old(tlv.tagValueSize) > 0 && IsChoice(this) && m in children then m.sessionId == 0 else SameCaches(m)
    {
      hide Consistent, LinkedAbove;
      ShapeOf(S, sid);
      if linkedNode != null && linkedNode.tlv.tagValueSize > 0 {
        UnlinkLinked(sid, S, T);
      }
    }

    method UnlinkLinked(sid: nat, ghost S: set<ASN1Node>, ghost T: set<TLVNode>)
      requires T == Tlvs(S)
      requires this in S && Consistent(S, sid) && !UnderChoice(this, S) && tlv.tagValueSize > 0
      modifies S`sessionId, S`choiceSelection
      modifies T`valueLength, T`valueLengthSize, T`oldValueLength, T`tagValueSize, T`lengthType
      ensures Consistent(S, sid) && sessionId == 0 && LinkedAbove(this, S, sid) &&
              tlv.valueLength == old(tlv.valueLength)
      ensures forall m | m in S && m != this && m !in Above(this, S) ::
                if IsChoice(this) && m in children then m.sessionId == 0 else SameCaches(m)
    {
      hide Consistent, LinkedAbove, CachesOf;
      ShapeOf(S, sid);
      TakeOut(sid, S, T);
      if linkedNode.tlv.uniTag == CHOICE {
        ForgetAlternatives(sid, S, T);
      }
    }

    /** The part of unlink that makes the parent count nothing for this node. */
    method TakeOut(sid: nat, ghost S: set<ASN1Node>, ghost T: set<TLVNode>)
      requires T == Tlvs(S)
      requires this in S && Consistent(S, sid) && !UnderChoice(this, S) && tlv.tagValueSize > 0
      modifies S`sessionId, S`choiceSelection
      modifies T`valueLength, T`valueLengthSize, T`oldValueLength, T`tagValueSize, T`lengthType
      ensures Consistent(S, sid) && sessionId == 0 && tlv.valueLength == old(tlv.valueLength) &&
              LinkedAbove(this, S, sid)
      ensures forall m | m in S && m != this && m !in Above(this, S) :: SameCaches(m)
    {
      hide NodeOk, Typed, LinkedAbove, TagSize, LengthSize, ContentIs, CachesOf, UnderChoice, Above, Contribution;
      var oldLength := linkedNode.tlv.valueLength;
      Cancel(sid, S, T);
      ContentBack(this, S, sid);
      label cancelled:
      Restore(oldLength, sid, S, T);
      forall m | m in S && m != this && m !in Above(this, S) ensures SameCaches(m) {
        assert SameCaches@cancelled(m);
      }
    }

    /** Puts the borrowed length back and leaves the node out of every session. */
    method Restore(length: int, sid: nat, ghost S: set<ASN1Node>, ghost T: set<TLVNode>)
      requires T == Tlvs(S)
      requires this in S && Prepared(S) && Typed(S) && sid > 0 && LinkedAbove(this, S, sid)
      requires forall m | m in S && m != this :: NodeOk(m, S, sid)
      requires !UnderChoice(this, S) && tlv.tagValueSize == TagSize(tlv.tagValue) && ContentIs(this, S, length)
      requires parentNode != null ==> Contribution(this) == 0
      modifies `sessionId, tlv`valueLength
      ensures Consistent(S, sid) && sessionId == 0 && tlv.valueLength == length && LinkedAbove(this, S, sid)
      ensures forall m | m in S && m != this :: SameCaches(m)
    {
      hide NodeOk, Typed, LinkedAbove, TagSize, LengthSize;
      OwnRecords(S);
      sessionId := 0;
      linkedNode.tlv.valueLength := length;
      assert forall m | m in S && m != this :: m.tlv != tlv;
      LinkedAboveKept(this, S, sid);
      TakenOut(this, S, sid);
    }

    /** Borrows the length that makes this node's full size zero and lets the parents hear of it. */
    method Cancel(sid: nat, ghost S: set<ASN1Node>, ghost T: set<TLVNode>)
      requires T == Tlvs(S)
      requires this in S && Consistent(S, sid) && !UnderChoice(this, S) && tlv.tagValueSize > 0
      modifies S`sessionId, S`choiceSelection
      modifies T`valueLength, T`valueLengthSize, T`oldValueLength, T`tagValueSize, T`lengthType
      ensures forall m | m in S && m != this :: NodeOk(m, S, sid)
      ensures LinkedAbove(this, S, sid) && tlv.tagValueSize == TagSize(tlv.tagValue)
      ensures parentNode != null ==> Contribution(this) == 0
      ensures forall m | m in S && m != this && m !in Above(this, S) :: SameCaches(m)
    {
      hide NodeOk, Typed, Ready, LinkedAbove, TagSize, LengthSize, CachesOf;
      OwnRecords(S);
      TakeOutSize(this, S, sid);
      linkedNode.tlv.valueLength := 0 - linkedNode.tlv.tagValueSize - 1;
      sessionId := sid;
      EditReady(this, S, sid);
      label edited:
      linkedNode.UpdateParents(sid, S, T, this);
      forall m | m in S && m != this && m !in Above(this, S) ensures SameCaches(m) {
        assert SameCaches@edited(m);
      }
    }

    /** A CHOICE that is taken out forgets all its alternatives. */
    method ForgetAlternatives(sid: nat, ghost S: set<ASN1Node>, ghost T: set<TLVNode>)
      requires T == Tlvs(S)
      requires this in S && Consistent(S, sid) && IsChoice(this) && sessionId != sid && LinkedAbove(this, S, sid)
      modifies children`sessionId, (set c | c in children :: c.tlv)`oldValueLength
      ensures Consistent(S, sid) && LinkedAbove(this, S, sid)
      ensures sessionId == old(sessionId) && forall m | m in children :: m.sessionId == 0
      ensures forall m | m in S && m !in children :: SameCaches(m)
    {
      hide Consistent, NodeOk;
      ShapeOf(S, sid);
      ChildrenDistinct(this, S);
      OwnParent(this, S);
      for i := 0 to |children|
        invariant Consistent(S, sid) && sessionId == old(sessionId)
        invariant forall j | 0 <= j < i :: children[j].sessionId == 0
        invariant forall m | m in S && m !in children :: SameCaches(m)
      {
        ForgetAlternative(i, sid, S, T);
      }
      LinkedAboveKept(this, S, sid);
    }

    method ForgetAlternative(i: nat, sid: nat, ghost S: set<ASN1Node>, ghost T: set<TLVNode>)
      requires T == Tlvs(S)
      requires this in S && Consistent(S, sid) && IsChoice(this) && sessionId != sid && i < |children|
      modifies {children[i]}`sessionId, {children[i].tlv}`oldValueLength
      ensures Consistent(S, sid) && children[i].sessionId == 0
      ensures forall m | m in S && m != children[i] :: SameCaches(m)
    {
      hide NodeOk, Typed, TagSize, LengthSize;
      OwnRecords(S);
      ChildHasParent(this, children[i], S);
      children[i].sessionId := 0;
      children[i].tlv.oldValueLength := 0;
      Forgotten(this, children[i], S, sid);
    }

    /** The tail both forms of set_linked_data share. */
    method Link(sid: nat, ghost S: set<ASN1Node>, ghost T: set<TLVNode>)
      requires T == Tlvs(S)
      requires this in S && Ready(this, S, this, sid) && !IsChoice(this) && ContentOk(this, S)
      modifies S`sessionId, S`choiceSelection
      modifies T`valueLength, T`valueLengthSize, T`oldValueLength, T`tagValueSize, T`lengthType
      ensures Consistent(S, sid)
      ensures sessionId == sid && LinkedAbove(this, S, sid)
      ensures forall m | m in S && m != this && m !in Above(this, S) :: SameCaches(m)
    {
      hide NodeOk, Typed, LinkedAbove, TagSize, LengthSize;
      linkedNode.UpdateParents(sid, S, T, this);
      EditDone(this, S, sid);
    }

    method PushStep(sid: nat, ghost S: set<ASN1Node>, ghost T: set<TLVNode>)
      requires T == Tlvs(S)
      requires this in S && Prepared(S) && tlv.tagValueSize >= 0
      modifies tlv`valueLengthSize, tlv`lengthType, tlv`tagValueSize, tlv`oldValueLength
      modifies if parentNode == null then {} else {parentNode}`sessionId
      modifies if parentNode == null then {} else {parentNode}`choiceSelection
      modifies if parentNode == null then {} else {parentNode.tlv}`valueLength
      modifies if parentNode == null then {} else {parentNode.tlv}`valueLengthSize
      ensures Pushed(this, S, sid)
    {
      hide Prepared, Received, HeaderCurrent, TagSize, LengthSize;
      OwnRecords(S);
      if parentNode != null {
        ParentInside(this, S);
      }
      Push(sid);
    }

    /** The steps of update_parents before it calls itself on the parent. */
    method Push(sid: nat)
      requires tlv.tagValueSize >= 0
      requires parentNode != null ==> parentNode != this && parentNode.linkedNode == parentNode && parentNode.tlv != tlv
      modifies tlv`valueLengthSize, tlv`lengthType, tlv`tagValueSize, tlv`oldValueLength
      modifies if parentNode == null then {} else {parentNode}`sessionId
      modifies if parentNode == null then {} else {parentNode}`choiceSelection
      modifies if parentNode == null then {} else {parentNode.tlv}`valueLength
      modifies if parentNode == null then {} else {parentNode.tlv}`valueLengthSize
      ensures old(tlv.tagValueSize == 0 || tlv.tagValueSize == TagSize(tlv.tagValue)) ==> HeaderCurrent(this)
      ensures parentNode != null ==> Received(parentNode, this, sid)
    {
      hide LengthSize, TagSize;
      PrepareLength(tlv);
      var deltaLen := tlv.valueLength + tlv.valueLengthSize - tlv.oldValueLength;
      if tlv.tagValueSize < 1 {
        PrepareTag(tlv);
        deltaLen := deltaLen + tlv.tagValueSize;
      }
      if parentNode != null {
        parentNode.sessionId := sid;
        if parentNode.linkedNode != null {
          var parentTlv := parentNode.linkedNode.tlv;
          if parentTlv.uniTag != CHOICE {
            parentTlv.valueLength := parentTlv.valueLength + deltaLen;
          } else {
            parentTlv.valueLength := tlv.valueLength;
            parentTlv.valueLengthSize := tlv.valueLengthSize;
            parentNode.choiceSelection := this;
          }
          tlv.oldValueLength := tlv.valueLength + tlv.valueLengthSize;
        }
      }
    }
  }

  /** What no edit of a prepared tree changes. */
  twostate predicate SameShape(m: ASN1Node)
    reads m, m.tlv
  {
    && m.tlv == old(m.tlv) && m.children == old(m.children) && m.parentNode == old(m.parentNode)
    && m.linkedNode == old(m.linkedNode) && m.index == old(m.index) && m.depth == old(m.depth)
    && m.height == old(m.height)
    && m.tlv.uniTag == old(m.tlv.uniTag) && m.tlv.complexity == old(m.tlv.complexity)
    && m.tlv.tagValue == old(m.tlv.tagValue) && m.tlv.tagClass == old(m.tlv.tagClass) && m.tlv.owner == old(m.tlv.owner)
  }

  datatype Caches = Caches(sessionId: nat, choiceSelection: ASN1Node?,
                           valueLength: int, valueLengthSize: int, oldValueLength: int, tagValueSize: int)

  /** What an edit may change at a node. */
  ghost function CachesOf(m: ASN1Node): Caches
    reads m`sessionId, m`choiceSelection, m`tlv, m.tlv
  {
    Caches(m.sessionId, m.choiceSelection,
           m.tlv.valueLength, m.tlv.valueLengthSize, m.tlv.oldValueLength, m.tlv.tagValueSize)
  }

  twostate predicate SameCaches(m: ASN1Node)
    reads m`sessionId, m`choiceSelection, m`tlv, m.tlv
  {
    CachesOf(m) == old(CachesOf(m))
  }

  ghost predicate HeaderCurrent(n: ASN1Node)
    reads n`tlv, n`parentNode, n.tlv
  {
    var t := n.tlv;
    && t.valueLengthSize == LengthSize(t.valueLength) && t.tagValueSize == TagSize(t.tagValue)
    && (n.parentNode != null ==> t.oldValueLength == t.valueLength + t.valueLengthSize)
  }

  /** The ancestors of n. */
  ghost function Above(n: ASN1Node, S: set<ASN1Node>): (r: set<ASN1Node>)
    requires n in S && Prepared(S)
    reads S`tlv, S`children, S`parentNode, S`linkedNode, S`index, S`depth, S`height, Tlvs(S)`owner
    ensures r <= S && forall m | m in r :: m.depth < n.depth
    decreases n.depth
  {
    if n.parentNode == null then {}
    else
      ParentInside(n, S);
      {n.parentNode} + Above(n.parentNode, S)
  }

  /** Every ancestor of n is linked, and every CHOICE on the way has selected the alternative that leads to n. */
  ghost predicate LinkedAbove(n: ASN1Node, S: set<ASN1Node>, sid: nat)
    requires n in S && Prepared(S)
    reads S, Tlvs(S)
  {
    forall m | m in Above(n, S) ::
      m.sessionId == sid
      && (IsChoice(m) ==> m.choiceSelection in {n} + Above(n, S) && m.choiceSelection.parentNode == m)
  }

  lemma NothingAbove(n: ASN1Node, S: set<ASN1Node>, sid: nat)
    requires n in S && Prepared(S)
    ensures n.parentNode == null ==> LinkedAbove(n, S, sid)
  {
  }

  lemma LinkedAboveStep(n: ASN1Node, S: set<ASN1Node>, sid: nat)
    requires n in S && Prepared(S) && n.parentNode != null && n.parentNode in S
    requires n.parentNode.sessionId == sid && LinkedAbove(n.parentNode, S, sid)
    requires IsChoice(n.parentNode) ==> n.parentNode.choiceSelection == n
    ensures LinkedAbove(n, S, sid)
    ensures Above(n, S) == {n.parentNode} + Above(n.parentNode, S)
  {
    hide Prepared;
    assert Above(n, S) == {n.parentNode} + Above(n.parentNode, S);
  }

  /** What a parent p made of its child's new size. */
  twostate predicate Received(p: ASN1Node, n: ASN1Node, sid: nat)
    reads p, p.tlv, n`tlv, n.tlv
  {
    p.sessionId == sid &&
    if IsChoice(p) then
      p.choiceSelection == n && p.tlv.valueLength == n.tlv.valueLength
      && p.tlv.valueLengthSize == n.tlv.valueLengthSize
    else
      p.choiceSelection == old(p.choiceSelection)
      && p.tlv.valueLength == old(p.tlv.valueLength) + Contribution(n) - old(Contribution(n))
  }

  /** What one step of update_parents at n changed. */
  twostate predicate Pushed(n: ASN1Node, S: set<ASN1Node>, sid: nat)
    reads n, S, Tlvs(S)
  {
    var p := n.parentNode;
    && n in S && (p != null ==> p in S)
    && (forall m | m in S :: SameShape(m) && m.tlv.value == old(m.tlv.value))
    && (forall m | m in S && m != n && m != p :: SameCaches(m))
    && n.tlv.valueLength == old(n.tlv.valueLength)
    && n.sessionId == old(n.sessionId) && n.choiceSelection == old(n.choiceSelection)
    && (old(n.tlv.tagValueSize == 0 || n.tlv.tagValueSize == TagSize(n.tlv.tagValue)) ==> HeaderCurrent(n))
    && (p != null ==>
          && p.tlv.oldValueLength == old(p.tlv.oldValueLength) && p.tlv.tagValueSize == old(p.tlv.tagValueSize)
          && Received(p, n, sid))
  }

  // ---------------------------------------------------------------- shape and types of a prepared tree

  ghost function Tlvs(S: set<ASN1Node>): set<TLVNode>
    reads S`tlv
  {
    set n | n in S :: n.tlv
  }

  ghost predicate ShapeAt(n: ASN1Node, S: set<ASN1Node>)
    requires n in S
    reads S`tlv, S`children, S`parentNode, S`linkedNode, S`index, S`depth, S`height, n.tlv`owner
  {
    && (n.parentNode != null ==>
          n.parentNode in S && n.index < |n.parentNode.children| && n.parentNode.children[n.index] == n)
    && forall i {:trigger ChildAt(n, i, S)} | 0 <= i < |n.children| :: ChildAt(n, i, S)
  }

  ghost predicate ChildAt(n: ASN1Node, i: int, S: set<ASN1Node>)
    requires n in S && 0 <= i < |n.children|
    reads S`children, S`parentNode, S`index, S`depth, S`height
  {
    var c := n.children[i];
    c in S && c.parentNode == n && c.index == i && c.depth == n.depth + 1 && c.height < n.height
  }

  /** The tree has been through prepare(): parents and linked nodes are set, and every node owns its record. */
  ghost predicate Prepared(S: set<ASN1Node>)
    reads S`tlv, S`children, S`parentNode, S`linkedNode, S`index, S`depth, S`height, Tlvs(S)`owner
  {
    && (forall n | n in S :: n.linkedNode == n && n.tlv.owner == n)
    && (forall n, c | n in S && c in n.children :: c in S)
    && forall n {:trigger ShapeAt(n, S)} | n in S :: ShapeAt(n, S)
  }

  predicate IsChoice(n: ASN1Node)
    reads n`tlv, n.tlv`uniTag
  {
    n.tlv.uniTag == CHOICE
  }

  /** The complexity encode settles on. */
  predicate IsConstructed(n: ASN1Node)
    reads n`tlv, n`children, n.tlv`complexity
  {
    n.tlv.complexity == Constructed || (n.tlv.complexity == ComplexityUnknown && n.children != [])
  }

  /** The tag a node answers to: the universal one of its type if it has none of its own. */
  function TagOf(n: ASN1Node): int
    reads n`tlv, n.tlv`tagValue, n.tlv`uniTag
  {
    if n.tlv.tagValue == UNKNOWN_UNIVERSAL_TAG then n.tlv.uniTag else n.tlv.tagValue
  }

  function ClassTagOf(n: ASN1Node): TagClass
    reads n`tlv, n.tlv`tagValue, n.tlv`tagClass
  {
    if n.tlv.tagValue == UNKNOWN_UNIVERSAL_TAG then Universal else n.tlv.tagClass
  }

  ghost predicate TypeAt(n: ASN1Node, S: set<ASN1Node>)
    requires n in S
    reads S`tlv, S`children, S`parentNode
    reads Tlvs(S)`uniTag, Tlvs(S)`tagValue, Tlvs(S)`tagClass, Tlvs(S)`complexity
  {
    var t := n.tlv;
    && (n.parentNode != null && n.parentNode in S && IsChoice(n.parentNode) ==> TagSize(t.tagValue) == 1)
    && if IsChoice(n) then t.tagValue == UNKNOWN_UNIVERSAL_TAG
       else
         && (if t.tagValue == UNKNOWN_UNIVERSAL_TAG then 0 <= t.uniTag <= 30
             else 0 <= t.tagValue < 0x1000_0000 && t.tagClass != ClassUnknown)
         && (n.children != [] ==> t.complexity != Primitive)
  }

  /** Tags a definition may use: a placeholder for a universal tag or a tag of its own; CHOICE alternatives
      have one-octet tags, because a CHOICE always counts its own identifier as one octet. */
  ghost predicate Typed(S: set<ASN1Node>)
    reads S`tlv, S`children, S`parentNode
    reads Tlvs(S)`uniTag, Tlvs(S)`tagValue, Tlvs(S)`tagClass, Tlvs(S)`complexity
  {
    forall n {:trigger TypeAt(n, S)} | n in S :: TypeAt(n, S)
  }

  // ---------------------------------------------------------------- what the caches say

  /** What a child adds to the contents of its parent. */
  ghost function Contribution(c: ASN1Node): int
    reads c`tlv, c.tlv`tagValueSize, c.tlv`oldValueLength
  {
    c.tlv.tagValueSize + c.tlv.oldValueLength
  }

  ghost function Contributions(cs: seq<ASN1Node>): int
    reads cs`tlv, (set c | c in cs :: c.tlv)`tagValueSize, (set c | c in cs :: c.tlv)`oldValueLength
  {
    if cs == [] then 0 else Contributions(cs[..|cs| - 1]) + Contribution(cs[|cs| - 1])
  }

  ghost predicate ContentOk(n: ASN1Node, S: set<ASN1Node>)
    requires n in S && forall c | c in n.children :: c in S
    reads S`tlv, S`children, Tlvs(S)
  {
    ContentIs(n, S, n.tlv.valueLength)
  }

  /** The contents of n, as its record and its children stand, are `length` octets long. */
  ghost predicate ContentIs(n: ASN1Node, S: set<ASN1Node>, length: int)
    requires n in S && forall c | c in n.children :: c in S
    reads S`tlv, S`children, Tlvs(S)
  {
    IsChoice(n) || (0 <= length && length == if IsConstructed(n) then Contributions(n.children) else |n.tlv.value|)
  }

  ghost predicate UnderChoice(n: ASN1Node, S: set<ASN1Node>)
    reads n`parentNode, S`tlv, Tlvs(S)`uniTag
  {
    n.parentNode != null && n.parentNode in S && IsChoice(n.parentNode)
  }

  /** A linked node's caches are current and its parent counts its full size; the parent of an unlinked
      node counts nothing for it. */
  ghost predicate LinkOk(n: ASN1Node, S: set<ASN1Node>, sid: nat)
    requires n in S
    reads S`sessionId, S`parentNode, S`tlv, Tlvs(S)
  {
    var t := n.tlv;
    && (t.tagValueSize == 0 || t.tagValueSize == TagSize(t.tagValue))
    && (n.sessionId == sid ==>
          && t.tagValueSize == TagSize(t.tagValue) && t.valueLengthSize == LengthSize(t.valueLength)
          && 0 <= t.valueLength
          && (n.parentNode != null ==> t.oldValueLength == t.valueLength + t.valueLengthSize))
    && (n.sessionId != sid && n.parentNode != null && !UnderChoice(n, S) ==> Contribution(n) == 0)
  }

  /** A linked CHOICE mirrors its selected, linked alternative. */
  ghost predicate ChoiceOk(n: ASN1Node, S: set<ASN1Node>, sid: nat)
    requires n in S
    reads S`sessionId, S`parentNode, S`choiceSelection, S`tlv, Tlvs(S)
  {
    IsChoice(n) && n.sessionId == sid ==>
      && n.choiceSelection in S && n.choiceSelection.parentNode == n && n.choiceSelection.sessionId == sid
      && n.tlv.valueLength == n.choiceSelection.tlv.valueLength
      && n.tlv.valueLengthSize == n.choiceSelection.tlv.valueLengthSize
  }

  ghost predicate NodeOk(n: ASN1Node, S: set<ASN1Node>, sid: nat)
    requires n in S && forall c | c in n.children :: c in S
    reads S`tlv, S`children, S`sessionId, S`parentNode, S`choiceSelection, Tlvs(S)
  {
    ContentOk(n, S) && LinkOk(n, S, sid) && ChoiceOk(n, S, sid)
  }

  ghost predicate Consistent(S: set<ASN1Node>, sid: nat)
    reads S, Tlvs(S)
  {
    && Prepared(S) && Typed(S) && sid > 0
    && forall n {:trigger NodeOk(n, S, sid)} | n in S :: NodeOk(n, S, sid)
  }

  twostate lemma ContributionsChange(cs: seq<ASN1Node>, new k: int, new delta: int)
    requires forall i, j | 0 <= i < j < |cs| :: cs[i] != cs[j]
    requires forall i | 0 <= i < |cs| :: cs[i].tlv == old(cs[i].tlv)
    requires forall i | 0 <= i < |cs| :: Contribution(cs[i]) == old(Contribution(cs[i])) + if i == k then delta else 0
    ensures Contributions(cs) == old(Contributions(cs)) + if 0 <= k < |cs| then delta else 0
    decreases |cs|
  {
    if cs != [] {
      var l := |cs| - 1;
      ContributionsChange(cs[..l], k, delta);
    }
  }

  /** What update_parents may rely on when it reaches n: everything is consistent, except that the parent
      chain has not yet heard of n's new length. */
  ghost predicate Ready(n: ASN1Node, S: set<ASN1Node>, origin: ASN1Node, sid: nat)
    requires n in S && origin in S
    reads S, Tlvs(S)
  {
    && Prepared(S) && Typed(S) && sid > 0 && n.sessionId == sid
    && origin.depth >= n.depth && (origin.depth == n.depth ==> origin == n)
    && (n.tlv.tagValueSize == 0 || n.tlv.tagValueSize == TagSize(n.tlv.tagValue))
    && TagSize(n.tlv.tagValue) + n.tlv.valueLength + LengthSize(n.tlv.valueLength) >= 0
    && (UnderChoice(n, S) ==> n.tlv.valueLength >= 0)
    && (n != origin ==> ContentOk(n, S) && ChoiceOk(n, S, sid) && n.tlv.valueLength >= 0)
    && (n != origin && IsChoice(n) ==> n.tlv.valueLengthSize == LengthSize(n.tlv.valueLength))
    && (forall m | m in S && m != n && m != origin :: ContentOk(m, S) && LinkOk(m, S, sid))
    && (forall m | m in S && m != n && m != origin && m != n.parentNode :: ChoiceOk(m, S, sid))
  }

  lemma ReadyMeans(n: ASN1Node, S: set<ASN1Node>, origin: ASN1Node, sid: nat)
    requires n in S && origin in S && Ready(n, S, origin, sid)
    ensures Prepared(S) && n.sessionId == sid && n.tlv.tagValueSize >= 0
  {
  }

  twostate lemma ShapeKept(S: set<ASN1Node>)
    requires old(Prepared(S) && Typed(S)) && forall m | m in S :: SameShape(m)
    ensures Prepared(S) && Typed(S)
  {
    forall n | n in S ensures ShapeAt(n, S) && TypeAt(n, S) {
      assert old(ShapeAt(n, S) && TypeAt(n, S));
      forall i | 0 <= i < |n.children| ensures ChildAt(n, i, S) {
        assert old(ChildAt(n, i, S));
      }
    }
  }

  twostate lemma ContentKept(m: ASN1Node, new S: set<ASN1Node>, new length: int)
    requires old(allocated(S))
    requires m in S && Prepared(S) && old(Prepared(S)) && forall c | c in S :: SameShape(c)
    requires m.tlv.value == old(m.tlv.value) && m.children == old(m.children)
    requires forall c | c in m.children :: Contribution(c) == old(Contribution(c))
    requires old(ContentIs(m, S, length))
    ensures ContentIs(m, S, length)
  {
    hide Prepared, Contributions, Contribution;
    ChildrenDistinct(m, S);
    forall c | c in m.children ensures c.tlv == old(c.tlv) {
      ChildHasParent(m, c, S);
    }
    ContributionsChange(m.children, -1, 0);
  }

  lemma ChildrenDistinct(n: ASN1Node, S: set<ASN1Node>)
    requires n in S && Prepared(S)
    ensures forall i, j | 0 <= i < j < |n.children| :: n.children[i] != n.children[j]
  {
    assert ShapeAt(n, S);
    forall i, j | 0 <= i < j < |n.children| ensures n.children[i] != n.children[j] {
      assert ChildAt(n, i, S) && ChildAt(n, j, S);
    }
  }

  lemma OwnRecords(S: set<ASN1Node>)
    requires Prepared(S)
    ensures forall m | m in S :: m.tlv.owner == m
  {
  }

  lemma ParentInside(n: ASN1Node, S: set<ASN1Node>)
    requires n in S && Prepared(S) && n.parentNode != null
    ensures n.parentNode in S && n.parentNode.linkedNode == n.parentNode
    ensures n.parentNode.depth + 1 == n.depth && n.height < n.parentNode.height && n in n.parentNode.children
  {
    assert ShapeAt(n, S) && ShapeAt(n.parentNode, S) && ChildAt(n.parentNode, n.index, S);
  }

  /** Only the parent counts a child. */
  lemma ChildHasParent(m: ASN1Node, c: ASN1Node, S: set<ASN1Node>)
    requires m in S && Prepared(S) && c in m.children
    ensures c in S && c.parentNode == m && c.depth == m.depth + 1
  {
    assert ShapeAt(m, S);
    var i :| 0 <= i < |m.children| && m.children[i] == c;
    assert ChildAt(m, i, S);
  }

  lemma LinkedContribution(c: ASN1Node, S: set<ASN1Node>, sid: nat)
    requires c in S && c.parentNode != null && !UnderChoice(c, S) && LinkOk(c, S, sid)
    ensures Contribution(c) >= 0
  {
  }

  lemma ContributionsNonNegative(cs: seq<ASN1Node>)
    requires forall c | c in cs :: Contribution(c) >= 0
    ensures Contributions(cs) >= 0
    decreases |cs|
  {
    if cs != [] {
      ContributionsNonNegative(cs[..|cs| - 1]);
    }
  }

  /** The step leaves every node that is neither n nor its parent consistent. */
  twostate lemma PushedOther(n: ASN1Node, new S: set<ASN1Node>, new sid: nat, new m: ASN1Node)
    requires old(allocated(S)) && old(allocated(m))
    requires old(n in S && Prepared(S)) && Prepared(S) && Pushed(n, S, sid) && m in S && m != n && m != n.parentNode
    requires old(ContentOk(m, S) && LinkOk(m, S, sid))
    ensures ContentOk(m, S) && LinkOk(m, S, sid)
    ensures old(ChoiceOk(m, S, sid)) && (n.parentNode == null || m != n.parentNode.parentNode) ==> ChoiceOk(m, S, sid)
  {
    assert SameShape(m) && SameCaches(m);
    forall c | c in m.children ensures Contribution(c) == old(Contribution(c)) {
      ChildHasParent(m, c, S);
    }
    ContentKept(m, S, m.tlv.valueLength);
  }

  /** After the step the parent's contents are again the sum of what its children add. */
  twostate lemma PushedParentContent(n: ASN1Node, new S: set<ASN1Node>, new origin: ASN1Node, new sid: nat)
    requires old(allocated(S)) && old(allocated(origin))
    requires old(n in S && origin in S && Ready(n, S, origin, sid)) && Pushed(n, S, sid)
    requires Prepared(S) && Typed(S) && n.parentNode != null && !IsChoice(n.parentNode)
    ensures ContentOk(n.parentNode, S)
  {
    hide LengthSize, TagSize, Contributions;
    var p := n.parentNode;
    assert ShapeAt(n, S) && ShapeAt(p, S) && ChildAt(p, n.index, S) && SameShape(p) && SameShape(n);
    assert TypeAt(p, S);
    ChildrenDistinct(p, S);
    var delta := Contribution(n) - old(Contribution(n));
    forall i | 0 <= i < |p.children|
      ensures p.children[i].tlv == old(p.children[i].tlv)
      ensures Contribution(p.children[i]) == old(Contribution(p.children[i])) + if i == n.index then delta else 0
    {
      assert ChildAt(p, i, S);
    }
    ContributionsChange(p.children, n.index, delta);
    forall c | c in p.children ensures Contribution(c) >= 0 {
      ChildHasParent(p, c, S);
      if c != n {
        PushedOther(n, S, sid, c);
        LinkedContribution(c, S, sid);
      }
    }
    ContributionsNonNegative(p.children);
  }

  twostate lemma PushedReady(n: ASN1Node, new S: set<ASN1Node>, new origin: ASN1Node, new sid: nat)
    requires old(allocated(S)) && old(allocated(origin))
    requires old(n in S && origin in S && Ready(n, S, origin, sid)) && Pushed(n, S, sid) && n.parentNode != null
    ensures n.parentNode in S && Ready(n.parentNode, S, origin, sid) && HeaderCurrent(n)
    ensures IsChoice(n.parentNode) ==> n.parentNode.choiceSelection == n
  {
    hide LengthSize, TagSize, Contributions, Contribution;
    var p := n.parentNode;
    ShapeKept(S);
    assert ShapeAt(n, S) && ShapeAt(p, S) && ChildAt(p, n.index, S) && SameShape(p) && SameShape(n);
    forall m | m in S && m != p && m != origin
      ensures ContentOk(m, S) && LinkOk(m, S, sid) && (m != p.parentNode ==> ChoiceOk(m, S, sid))
    {
      if m == n {
        forall c | c in n.children ensures Contribution(c) == old(Contribution(c)) {
          ChildHasParent(n, c, S);
        }
        ContentKept(n, S, n.tlv.valueLength);
      } else {
        PushedOther(n, S, sid, m);
      }
    }
    if !IsChoice(p) {
      PushedParentContent(n, S, origin, sid);
    }
  }

  twostate lemma PushedAtRoot(n: ASN1Node, new S: set<ASN1Node>, new origin: ASN1Node, new sid: nat)
    requires old(allocated(S)) && old(allocated(origin))
    requires old(n in S && origin in S && Ready(n, S, origin, sid)) && Pushed(n, S, sid) && n.parentNode == null
    ensures forall m | m in S && m != origin :: NodeOk(m, S, sid)
    ensures HeaderCurrent(n)
  {
    hide LengthSize, TagSize, Contributions, Contribution;
    ShapeKept(S);
    assert SameShape(n);
    forall m | m in S && m != origin ensures NodeOk(m, S, sid) {
      if m == n {
        forall c | c in n.children ensures Contribution(c) == old(Contribution(c)) {
          ChildHasParent(n, c, S);
        }
        ContentKept(n, S, n.tlv.valueLength);
      } else {
        PushedOther(n, S, sid, m);
      }
    }
  }

  /** An edit of n alone leaves update_parents everything it relies on. */
  twostate lemma EditReady(n: ASN1Node, new S: set<ASN1Node>, new sid: nat)
    requires old(allocated(S))
    requires n in S && old(Consistent(S, sid)) && n.sessionId == sid
    requires forall m | m in S :: SameShape(m)
    requires forall m | m in S && m != n :: SameCaches(m) && m.tlv.value == old(m.tlv.value)
    requires n.tlv.oldValueLength == old(n.tlv.oldValueLength) && n.tlv.tagValueSize == old(n.tlv.tagValueSize)
    requires TagSize(n.tlv.tagValue) + n.tlv.valueLength + LengthSize(n.tlv.valueLength) >= 0
    requires UnderChoice(n, S) ==> n.tlv.valueLength >= 0
    ensures Ready(n, S, n, sid)
  {
    hide LengthSize, TagSize, Contributions;
    ShapeKept(S);
    assert SameShape(n) && old(NodeOk(n, S, sid));
    forall m | m in S && m != n
      ensures ContentOk(m, S) && LinkOk(m, S, sid) && (m != n.parentNode ==> ChoiceOk(m, S, sid))
    {
      assert SameShape(m) && SameCaches(m) && old(NodeOk(m, S, sid));
      forall c | c in m.children ensures Contribution(c) == old(Contribution(c)) {
        ChildHasParent(m, c, S);
      }
      ContentKept(m, S, m.tlv.valueLength);
    }
  }

  lemma LengthNonNegative(n: ASN1Node, S: set<ASN1Node>, sid: nat)
    requires n in S && Consistent(S, sid) && !IsChoice(n)
    ensures n.tlv.valueLength >= 0 && TagSize(n.tlv.tagValue) >= 1 && ContentOk(n, S)
  {
    assert NodeOk(n, S, sid);
  }

  /** Once update_parents is through, the edited node is consistent too. */
  twostate lemma EditDone(n: ASN1Node, new S: set<ASN1Node>, new sid: nat)
    requires old(allocated(S))
    requires n in S && Prepared(S) && sid > 0 && old(Prepared(S) && Typed(S)) && (forall m | m in S :: SameShape(m))
    requires forall m | m in S && m != n :: NodeOk(m, S, sid)
    requires forall m | m in S && m != n && m !in Above(n, S) :: SameCaches(m)
    requires n.sessionId == sid && !IsChoice(n) && HeaderCurrent(n)
    requires n.tlv.valueLength == old(n.tlv.valueLength) && n.tlv.value == old(n.tlv.value) && old(ContentOk(n, S))
    ensures Consistent(S, sid)
  {
    hide LengthSize, TagSize, Contributions;
    ShapeKept(S);
    forall c | c in n.children ensures Contribution(c) == old(Contribution(c)) {
      ChildHasParent(n, c, S);
    }
    ContentKept(n, S, n.tlv.valueLength);
    assert NodeOk(n, S, sid);
  }

  /** The length unlink borrows makes the full size of a node zero. */
  lemma TakeOutSize(n: ASN1Node, S: set<ASN1Node>, sid: nat)
    requires n in S && Consistent(S, sid) && n.tlv.tagValueSize > 0
    ensures n.tlv.tagValueSize == TagSize(n.tlv.tagValue)
    ensures LengthSize(0 - n.tlv.tagValueSize - 1) == 1
  {
    assert NodeOk(n, S, sid);
  }

  twostate lemma TakenOut(n: ASN1Node, new S: set<ASN1Node>, new sid: nat)
    requires old(allocated(S))
    requires n in S && old(Prepared(S) && Typed(S)) && sid > 0 && (forall m | m in S :: SameShape(m))
    requires forall m | m in S && m != n :: old(NodeOk(m, S, sid)) && SameCaches(m) && m.tlv.value == old(m.tlv.value)
    requires n.tlv.oldValueLength == old(n.tlv.oldValueLength) && n.tlv.tagValueSize == old(n.tlv.tagValueSize)
    requires n.sessionId != sid && !UnderChoice(n, S) && n.tlv.tagValueSize == TagSize(n.tlv.tagValue)
    requires n.parentNode != null ==> Contribution(n) == 0
    requires Prepared(S) && ContentOk(n, S)
    ensures Consistent(S, sid)
  {
    hide LengthSize, TagSize, Contributions;
    ShapeKept(S);
    forall m | m in S && m != n ensures NodeOk(m, S, sid) {
      assert old(NodeOk(m, S, sid));
      forall c | c in m.children ensures Contribution(c) == old(Contribution(c)) {
        ChildHasParent(m, c, S);
      }
      ContentKept(m, S, m.tlv.valueLength);
    }
    assert NodeOk(n, S, sid);
  }

  twostate lemma ContentBack(n: ASN1Node, new S: set<ASN1Node>, new sid: nat)
    requires old(allocated(S))
    requires n in S && old(Consistent(S, sid)) && Prepared(S) && (forall m | m in S :: SameShape(m))
    requires n.tlv.value == old(n.tlv.value)
    requires forall m | m in S && m != n && m !in Above(n, S) :: SameCaches(m)
    ensures ContentIs(n, S, old(n.tlv.valueLength)) && Typed(S)
  {
    hide Contributions;
    ShapeKept(S);
    assert old(NodeOk(n, S, sid));
    forall c | c in n.children ensures Contribution(c) == old(Contribution(c)) {
      ChildHasParent(n, c, S);
    }
    ContentKept(n, S, old(n.tlv.valueLength));
  }

  twostate lemma Forgotten(n: ASN1Node, new c: ASN1Node, new S: set<ASN1Node>, new sid: nat)
    requires old(allocated(c)) && old(allocated(S))
    requires n in S && c in n.children && old(Consistent(S, sid)) && IsChoice(n) && n.sessionId != sid
    requires forall m | m in S :: SameShape(m) && m.tlv.value == old(m.tlv.value)
    requires forall m | m in S && m != c :: SameCaches(m)
    requires c.tlv.valueLength == old(c.tlv.valueLength) && c.tlv.tagValueSize == old(c.tlv.tagValueSize)
    requires c.sessionId == 0
    ensures Consistent(S, sid)
  {
    hide LengthSize, TagSize, Contributions;
    ShapeKept(S);
    ChildHasParent(n, c, S);
    forall m | m in S ensures NodeOk(m, S, sid) {
      assert old(NodeOk(m, S, sid));
      if m != n {
        forall k | k in m.children ensures Contribution(k) == old(Contribution(k)) {
          ChildHasParent(m, k, S);
        }
        ContentKept(m, S, m.tlv.valueLength);
      }
    }
  }

  lemma OwnParent(n: ASN1Node, S: set<ASN1Node>)
    requires n in S && Prepared(S)
    ensures n.parentNode != n && forall c | c in n.children :: c in S && c.parentNode == n && c != n
  {
    if n.parentNode != null {
      ParentInside(n, S);
    }
    forall c | c in n.children ensures c in S && c.parentNode == n && c != n {
      ChildHasParent(n, c, S);
    }
  }

  lemma ShapeOf(S: set<ASN1Node>, sid: nat)
    requires Consistent(S, sid)
    ensures Prepared(S) && sid > 0
  {
  }

  twostate lemma LinkedAboveKept(n: ASN1Node, new S: set<ASN1Node>, new sid: nat)
    requires old(allocated(S))
    requires n in S && old(Prepared(S) && LinkedAbove(n, S, sid)) && Prepared(S)
    requires forall m | m in S :: SameShape(m)
    requires forall m | m in S && m != n && m !in n.children :: SameCaches(m)
    ensures LinkedAbove(n, S, sid)
  {
    AboveKept(n, S);
    forall m | m in Above(n, S) ensures SameCaches(m) {
      assert m in S && m.depth < n.depth;
      if m in n.children {
        ChildHasParent(n, m, S);
      }
    }
  }

  twostate lemma AboveKept(n: ASN1Node, new S: set<ASN1Node>)
    requires old(allocated(S))
    requires n in S && old(Prepared(S)) && Prepared(S) && forall m | m in S :: SameShape(m)
    ensures Above(n, S) == old(Above(n, S))
    decreases n.depth
  {
    if n.parentNode != null {
      ParentInside(n, S);
      AboveKept(n.parentNode, S);
    }
  }

  twostate lemma HeaderKept(n: ASN1Node)
    requires SameCaches(n) && SameShape(n) && old(HeaderCurrent(n))
    ensures HeaderCurrent(n) && n.tlv.valueLength == old(n.tlv.valueLength)
    ensures n.sessionId == old(n.sessionId) && n.choiceSelection == old(n.choiceSelection)
  {
  }

  /** A tree fresh from prepare() is consistent. */
  lemma FreshConsistent(S: set<ASN1Node>, sid: nat)
    requires Prepared(S) && Typed(S) && sid > 0
    requires forall n | n in S ::
               CachesOf(n).(choiceSelection := null) == Caches(0, null, 0, 0, 0, 0) && n.tlv.value == []
    ensures Consistent(S, sid)
  {
    forall n | n in S ensures NodeOk(n, S, sid) {
      assert CachesOf(n).(choiceSelection := null) == Caches(0, null, 0, 0, 0, 0);
      NothingContributed(n.children);
    }
  }

  lemma NothingContributed(cs: seq<ASN1Node>)
    requires forall c | c in cs :: Contribution(c) == 0
    ensures Contributions(cs) == 0
    decreases |cs|
  {
    if cs != [] {
      NothingContributed(cs[..|cs| - 1]);
    }
  }
}
