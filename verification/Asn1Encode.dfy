/** encode on a message tree: it trusts the cached lengths, and what it writes is the encoding of the message. */
module Asn1Encode {
  import opened Asn1Octets
  import opened Asn1Node
  import opened Asn1Ber

  // ---------------------------------------------------------------- the message a tree stands for

  /** The message of a linked node: a CHOICE stands for its selection, a constructed node for its linked children. */
  ghost function TreeOf(n: ASN1Node, S: set<ASN1Node>, sid: nat): Ber
    requires n in S && Consistent(S, sid) && n.sessionId == sid
    reads S, Tlvs(S)
    decreases n.height, 1, 0
  {
    assert NodeOk(n, S, sid) && TypeAt(n, S);
    if IsChoice(n) then
      ParentInside(n.choiceSelection, S);
      TreeOf(n.choiceSelection, S, sid)
    else if IsConstructed(n) then
      ChildrenBelow(n, S);
      Cons(ClassTagOf(n), TagOf(n), ForestOf(n.children, n.height, S, sid))
    else Prim(ClassTagOf(n), TagOf(n), n.tlv.value)
  }

  ghost function ForestOf(cs: seq<ASN1Node>, height: nat, S: set<ASN1Node>, sid: nat): seq<Ber>
    requires Consistent(S, sid) && forall c | c in cs :: c in S && c.height < height
    reads S, Tlvs(S)
    decreases height, 0, |cs|
  {
    if cs == [] then []
    else
      var last := cs[|cs| - 1];
      ForestOf(cs[..|cs| - 1], height, S, sid) + if last.sessionId == sid then [TreeOf(last, S, sid)] else []
  }

  lemma ChildrenBelow(n: ASN1Node, S: set<ASN1Node>)
    requires n in S && Prepared(S)
    ensures forall c | c in n.children :: c in S && c.height < n.height && c.parentNode == n
  {
    forall c | c in n.children ensures c in S && c.height < n.height && c.parentNode == n {
      ChildHasParent(n, c, S);
      ParentInside(c, S);
    }
  }

  lemma {:induction false} EncodingAppend(bs: seq<Ber>, b: Ber)
    requires AllSendable(bs) && Sendable(b)
    ensures AllSendable(bs + [b]) && EncodingOfAll(bs + [b]) == EncodingOfAll(bs) + Encoding(b)
  {
    hide Encoding;
    if bs == [] {
      assert bs + [b] == [b] && [b][1..] == [];
      assert EncodingOfAll([b]) == Encoding(b) + EncodingOfAll([]);
    } else {
      EncodingAppend(bs[1..], b);
      assert (bs + [b])[1..] == bs[1..] + [b];
    }
  }

  lemma EncodingOfNone()
    ensures EncodingOfAll([]) == []
  {
  }

  /** A child adds its full size if it is linked and nothing otherwise. */
  lemma ChildContribution(n: ASN1Node, c: ASN1Node, S: set<ASN1Node>, sid: nat)
    requires n in S && c in S && c.parentNode == n && !IsChoice(n) && Consistent(S, sid)
    ensures Contribution(c)
            == if c.sessionId == sid then c.tlv.tagValueSize + c.tlv.valueLengthSize + c.tlv.valueLength else 0
  {
    assert NodeOk(c, S, sid);
  }

  /** The cached sizes are those of the message: recomputing the subtree gives what the edits kept up to date. */
  lemma {:induction false} CachedSizes(n: ASN1Node, S: set<ASN1Node>, sid: nat)
    requires n in S && Consistent(S, sid) && n.sessionId == sid
    ensures Sendable(TreeOf(n, S, sid))
    ensures |Content(TreeOf(n, S, sid))| == n.tlv.valueLength
    ensures |Encoding(TreeOf(n, S, sid))| == n.tlv.tagValueSize + n.tlv.valueLengthSize + n.tlv.valueLength
    decreases n.height, 1, 0
  {
    assert NodeOk(n, S, sid) && TypeAt(n, S);
    if IsChoice(n) {
      ParentInside(n.choiceSelection, S);
      assert NodeOk(n.choiceSelection, S, sid) && TypeAt(n.choiceSelection, S);
      CachedSizes(n.choiceSelection, S, sid);
    } else if IsConstructed(n) {
      ChildrenBelow(n, S);
      CachedContents(n, n.children, S, sid);
    }
  }

  lemma {:induction false} CachedContents(n: ASN1Node, cs: seq<ASN1Node>, S: set<ASN1Node>, sid: nat)
    requires n in S && Consistent(S, sid) && !IsChoice(n)
    requires forall c | c in cs :: c in S && c.height < n.height && c.parentNode == n
    ensures AllSendable(ForestOf(cs, n.height, S, sid))
    ensures |EncodingOfAll(ForestOf(cs, n.height, S, sid))| == Contributions(cs)
    decreases n.height, 0, |cs|
  {
    hide TagSize, LengthSize, Encoding, EncodingOfAll, Content, Consistent, TreeOf;
    EncodingOfNone();
    if cs != [] {
      var last, front := cs[|cs| - 1], cs[..|cs| - 1];
      CachedContents(n, front, S, sid);
      ChildContribution(n, last, S, sid);
      if last.sessionId == sid {
        CachedSizes(last, S, sid);
        EncodingAppend(ForestOf(front, n.height, S, sid), TreeOf(last, S, sid));
      } else {
        assert ForestOf(cs, n.height, S, sid) == ForestOf(front, n.height, S, sid);
      }
    }
  }

  // ---------------------------------------------------------------- encode settles placeholders, not the message

  datatype Meaning = Meaning(tlv: TLVNode, children: seq<ASN1Node>, parentNode: ASN1Node?, linkedNode: ASN1Node?,
                             index: nat, depth: nat, height: nat, owner: object?, uniTag: int, value: seq<byte>,
                             caches: Caches, constructed: bool, tag: int, tagClass: TagClass, tagSize: int)

  /** What encode keeps of a node: everything, up to what its placeholders stand for. */
  ghost function MeaningOf(m: ASN1Node): Meaning
    reads m, m.tlv
  {
    Meaning(m.tlv, m.children, m.parentNode, m.linkedNode, m.index, m.depth, m.height, m.tlv.owner, m.tlv.uniTag,
            m.tlv.value, CachesOf(m), IsConstructed(m), TagOf(m), ClassTagOf(m), TagSize(m.tlv.tagValue))
  }

  ghost function Meanings(S: set<ASN1Node>): map<ASN1Node, Meaning>
    reads S, Tlvs(S)
  {
    map m | m in S :: MeaningOf(m)
  }

  twostate lemma MeaningKept(m: ASN1Node, new S: set<ASN1Node>)
    requires old(allocated(S))
    requires m in S && Meanings(S) == old(Meanings(S))
    ensures MeaningOf(m) == old(MeaningOf(m))
  {
    assert Meanings(S)[m] == old(Meanings(S)[m]);
  }

  twostate lemma SettledConsistent(S: set<ASN1Node>, new sid: nat)
    requires old(Consistent(S, sid)) && Meanings(S) == old(Meanings(S)) && Typed(S)
    ensures Consistent(S, sid)
  {
    hide LengthSize, TagSize, Meanings;
    forall n | n in S ensures ShapeAt(n, S) && n.linkedNode == n && n.tlv.owner == n {
      assert old(ShapeAt(n, S)) && old(n.linkedNode == n && n.tlv.owner == n);
      ShapeSettled(n, S);
    }
    forall n | n in S ensures (forall c | c in n.children :: c in S) && NodeOk(n, S, sid) {
      NodeSettled(n, S, sid);
    }
  }

  twostate lemma ShapeSettled(n: ASN1Node, new S: set<ASN1Node>)
    requires old(allocated(S))
    requires n in S && Meanings(S) == old(Meanings(S)) && Typed(S)
    requires old(ShapeAt(n, S)) && old(n.linkedNode == n && n.tlv.owner == n)
    ensures ShapeAt(n, S) && n.linkedNode == n && n.tlv.owner == n
  {
    hide LengthSize, TagSize, Meanings;
    MeaningKept(n, S);
    if n.parentNode != null {
      MeaningKept(n.parentNode, S);
    }
    forall i | 0 <= i < |n.children| ensures ChildAt(n, i, S) {
      assert old(ChildAt(n, i, S));
      MeaningKept(n.children[i], S);
    }
  }

  twostate lemma NodeSettled(n: ASN1Node, new S: set<ASN1Node>, new sid: nat)
    requires old(allocated(S))
    requires n in S && old(Consistent(S, sid)) && Meanings(S) == old(Meanings(S))
    ensures (forall c | c in n.children :: c in S) && NodeOk(n, S, sid)
  {
    hide LengthSize, TagSize, Meanings;
    MeaningKept(n, S);
    assert old(NodeOk(n, S, sid));
    ContributionsSettled(n.children, S);
    if n.parentNode != null && n.parentNode in S {
      MeaningKept(n.parentNode, S);
    }
    if IsChoice(n) && n.sessionId == sid {
      MeaningKept(n.choiceSelection, S);
    }
  }

  twostate lemma ContributionsSettled(cs: seq<ASN1Node>, new S: set<ASN1Node>)
    requires old(allocated(S))
    requires Meanings(S) == old(Meanings(S)) && forall c | c in cs :: c in S
    ensures Contributions(cs) == old(Contributions(cs))
    decreases |cs|
  {
    hide Meanings;
    if cs != [] {
      MeaningKept(cs[|cs| - 1], S);
      ContributionsSettled(cs[..|cs| - 1], S);
    }
  }

  lemma ChoiceLinked(n: ASN1Node, S: set<ASN1Node>, sid: nat)
    requires n in S && Consistent(S, sid) && IsChoice(n) && n.sessionId == sid
    ensures n.choiceSelection in S && n.choiceSelection.parentNode == n && n.choiceSelection.sessionId == sid
  {
    assert NodeOk(n, S, sid);
  }

  twostate lemma TreeSettled(n: ASN1Node, new S: set<ASN1Node>, new sid: nat)
    requires old(allocated(S))
    requires n in S && old(Consistent(S, sid)) && Consistent(S, sid) && Meanings(S) == old(Meanings(S)) &&
             n.sessionId == sid
    ensures old(n.sessionId) == sid && TreeOf(n, S, sid) == old(TreeOf(n, S, sid))
    decreases n.height, 1, 0
  {
    hide Meanings, Prepared, Typed;
    MeaningKept(n, S);
    if IsChoice(n) {
      ChoiceLinked(n, S, sid);
      ParentInside(n.choiceSelection, S);
      TreeSettled(n.choiceSelection, S, sid);
    } else if IsConstructed(n) {
      ChildrenBelow(n, S);
      ForestSettled(n.children, n.height, S, sid);
    }
  }

  twostate lemma ForestSettled(cs: seq<ASN1Node>, new height: nat, new S: set<ASN1Node>, new sid: nat)
    requires old(allocated(S))
    requires old(Consistent(S, sid)) && Consistent(S, sid) && Meanings(S) == old(Meanings(S))
    requires forall c | c in cs :: c in S && c.height < height
    ensures forall c | c in cs :: old(c.height) < height
    ensures ForestOf(cs, height, S, sid) == old(ForestOf(cs, height, S, sid))
    decreases height, 0, |cs|
  {
    hide Meanings, Consistent;
    forall c | c in cs ensures old(c.height) < height {
      MeaningKept(c, S);
    }
    if cs != [] {
      var last := cs[|cs| - 1];
      ForestSettled(cs[..|cs| - 1], height, S, sid);
      MeaningKept(last, S);
      if last.sessionId == sid {
        TreeSettled(last, S, sid);
      }
    }
  }

  twostate lemma WrittenSettled(n: ASN1Node, new S: set<ASN1Node>, new sid: nat)
    requires old(allocated(S))
    requires n in S && old(Consistent(S, sid)) && Consistent(S, sid) && Meanings(S) == old(Meanings(S))
    ensures Written(n, S, sid) == old(Written(n, S, sid)) && CachedSize(n, sid) == old(CachedSize(n, sid))
    ensures n.sessionId == old(n.sessionId) && n.children == old(n.children) && IsChoice(n) == old(IsChoice(n))
    ensures n.height == old(n.height) && IsConstructed(n) == old(IsConstructed(n)) && n.tlv == old(n.tlv)
    ensures n.tlv.valueLength == old(n.tlv.valueLength) && n.tlv.value == old(n.tlv.value)
  {
    hide Meanings, Consistent;
    MeaningKept(n, S);
    if n.sessionId == sid {
      TreeSettled(n, S, sid);
    }
  }

  // ---------------------------------------------------------------- encode

  /** memcpy of a primitive value. */
  method CopyOctets(buffer: array<byte>, pos: nat, value: seq<byte>)
    requires pos + |value| <= buffer.Length
    modifies buffer
    ensures buffer[..] == Patched(old(buffer[..]), pos, value)
  {
    ghost var before := buffer[..];
    for i := 0 to |value|
      invariant forall j :: 0 <= j < buffer.Length && !(pos <= j < pos + i) ==> buffer[j] == before[j]
      invariant forall j :: pos <= j < pos + i ==> buffer[j] == value[j - pos]
    {
      buffer[pos + i] := value[i];
    }
  }

  /** The octets a node takes in a buffer, by its caches. */
  ghost function CachedSize(n: ASN1Node, sid: nat): int
    reads n`sessionId, n`tlv, n.tlv
  {
    if n.sessionId == sid then n.tlv.tagValueSize + n.tlv.valueLengthSize + n.tlv.valueLength else 0
  }

  /** The octets encode is to write for n: its message when it is linked, nothing otherwise. */
  ghost function Written(n: ASN1Node, S: set<ASN1Node>, sid: nat): (s: seq<byte>)
    requires n in S && Consistent(S, sid)
    reads S, Tlvs(S)
    ensures |s| == CachedSize(n, sid)
  {
    if n.sessionId == sid then
      CachedSizes(n, S, sid);
      Encoding(TreeOf(n, S, sid))
    else []
  }

  /** The octets of the linked nodes among the first k children of n. */
  ghost function Contents(n: ASN1Node, k: nat, S: set<ASN1Node>, sid: nat): seq<byte>
    requires n in S && Consistent(S, sid) && !IsChoice(n) && k <= |n.children|
    reads S, Tlvs(S)
  {
    ChildrenBelow(n, S);
    CachedContents(n, n.children[..k], S, sid);
    EncodingOfAll(ForestOf(n.children[..k], n.height, S, sid))
  }

  lemma ContentsStep(n: ASN1Node, k: nat, S: set<ASN1Node>, sid: nat)
    requires n in S && Consistent(S, sid) && !IsChoice(n) && k < |n.children|
    ensures n.children[k] in S && n.children[k].height < n.height
    ensures Contents(n, k + 1, S, sid) == Contents(n, k, S, sid) + Written(n.children[k], S, sid)
  {
    hide Consistent, Encoding, EncodingOfAll, TreeOf, CachedSize;
    ShapeOf(S, sid);
    ChildrenBelow(n, S);
    EncodingOfNone();
    var front, last := n.children[..k], n.children[k];
    assert n.children[..k + 1] == front + [last];
    assert (front + [last])[..|front|] == front;
    CachedContents(n, front, S, sid);
    if last.sessionId == sid {
      CachedSizes(last, S, sid);
      EncodingAppend(ForestOf(front, n.height, S, sid), TreeOf(last, S, sid));
    } else {
      assert ForestOf(front + [last], n.height, S, sid) == ForestOf(front, n.height, S, sid);
    }
  }

  /** The k-th child is written right after the ones before it, and there is room for it. */
  ghost predicate StepOk(n: ASN1Node, k: nat, S: set<ASN1Node>, sid: nat)
    requires n in S && Consistent(S, sid) && !IsChoice(n) && k < |n.children|
    reads S, Tlvs(S)
  {
    && n.children[k] in S && n.children[k].height < n.height
    && Contents(n, k + 1, S, sid) == Contents(n, k, S, sid) + Written(n.children[k], S, sid)
    && |Contents(n, k + 1, S, sid)| <= |Contents(n, |n.children|, S, sid)|
  }

  lemma ContentsNone(n: ASN1Node, S: set<ASN1Node>, sid: nat)
    requires n in S && Consistent(S, sid) && !IsChoice(n)
    ensures Contents(n, 0, S, sid) == []
  {
    hide Consistent;
    EncodingOfNone();
    assert n.children[..0] == [];
  }

  /** The room the contents of a constructed node take; no run of children takes more. */
  lemma {:induction false} ContentsFit(n: ASN1Node, k: nat, S: set<ASN1Node>, sid: nat)
    requires n in S && Consistent(S, sid) && !IsChoice(n) && IsConstructed(n) && k <= |n.children|
    ensures |Contents(n, k, S, sid)| <= n.tlv.valueLength == |Contents(n, |n.children|, S, sid)|
    decreases |n.children| - k
  {
    hide Encoding, EncodingOfAll, ForestOf, Written, CachedSize;
    if k < |n.children| {
      ContentsStep(n, k, S, sid);
      ContentsFit(n, k + 1, S, sid);
    } else {
      assert n.children[..k] == n.children && NodeOk(n, S, sid);
      ChildrenBelow(n, S);
      CachedContents(n, n.children, S, sid);
    }
  }

  /** What follows the header of n. */
  ghost function Body(n: ASN1Node, S: set<ASN1Node>, sid: nat): seq<byte>
    requires n in S && Consistent(S, sid) && !IsChoice(n)
    reads S, Tlvs(S)
  {
    if IsConstructed(n) then Contents(n, |n.children|, S, sid) else n.tlv.value
  }

  ghost predicate Settled(n: ASN1Node)
    reads n, n.tlv
  {
    && n.tlv.tagValue == TagOf(n) && n.tlv.tagClass == ClassTagOf(n)
    && n.tlv.complexity == if IsConstructed(n) then Constructed else Primitive
  }

  /** The cached header of a settled, linked node is the header of its message. */
  lemma LinkedEncoding(n: ASN1Node, S: set<ASN1Node>, sid: nat)
    requires n in S && Consistent(S, sid) && !IsChoice(n) && n.sessionId == sid && Settled(n)
    ensures 0 <= n.tlv.tagValue < 0x1000_0000 && n.tlv.tagValueSize == TagSize(n.tlv.tagValue) &&
            n.tlv.tagClass != ClassUnknown
    ensures 0 <= n.tlv.valueLength == |Body(n, S, sid)| && n.tlv.valueLengthSize == LengthSize(n.tlv.valueLength)
    ensures Written(n, S, sid)
            == TagOctets(n.tlv.tagClass, IsConstructed(n), n.tlv.tagValue)
               + (LengthOctets(n.tlv.valueLength) + Body(n, S, sid))
  {
    hide TagOctets, LengthOctets, LengthSize, EncodingOfAll, ForestOf;
    assert NodeOk(n, S, sid) && TypeAt(n, S);
    CachedSizes(n, S, sid);
    if IsConstructed(n) {
      ContentsFit(n, |n.children|, S, sid);
      assert n.children[..|n.children|] == n.children;
    }
  }

  /** The message of a node, from the node's own fields: the universal class and the node's type number if it has no tag
      of its own (-1), and its own class and number if it has; constructed if it says so, or if it says nothing and has
      children; and nothing at all if it is not linked.  0xff is a CHOICE, which stands for its one alternative. */
  lemma MessageFields(n: ASN1Node, S: set<ASN1Node>, sid: nat)
    requires n in S && Consistent(S, sid) && n.tlv.uniTag != 0xff
    ensures n.sessionId != sid ==> Written(n, S, sid) == []
    ensures n.sessionId == sid ==>
              var (v, b) := (n.tlv, TreeOf(n, S, sid));
              && b.tagClass == (if v.tagValue == -1 then Universal else v.tagClass)
              && b.tag == (if v.tagValue == -1 then v.uniTag else v.tagValue)
              && (b.Cons? <==> v.complexity == Constructed || (v.complexity == ComplexityUnknown && n.children != []))
              && (b.Prim? ==> b.octets == v.value)
  {
    assert NodeOk(n, S, sid) && TypeAt(n, S);
  }

  /** The octets written for a linked node, from the node's own fields: the leading octet, the tag number when it takes
      one octet more, and the whole message behind a short header: the value of a primitive node, what the children
      write of a constructed one (`ContentsNone` and `ContentsStep` give that child by child). */
  lemma WrittenInNumbers(n: ASN1Node, S: set<ASN1Node>, sid: nat)
    requires n in S && Consistent(S, sid) && n.sessionId == sid && n.tlv.uniTag != 0xff
    ensures var v := n.tlv;
            var number := if v.tagValue == -1 then v.uniTag else v.tagValue;
            var constructed := v.complexity == Constructed || (v.complexity == ComplexityUnknown && n.children != []);
            var lead := (if v.tagValue == -1 then 0
                         else match v.tagClass
                              case Universal => 0 case Application => 64 case ContextSpecific => 128 case _ => 192)
                        + (if constructed then 32 else 0) + if number <= 30 then number else 31;
            && Written(n, S, sid)[0] == lead
            && (30 < number < 128 ==> Written(n, S, sid)[1] == number)
            && var contents := if constructed then Contents(n, |n.children|, S, sid) else v.value;
               number <= 30 && |contents| < 128 ==> Written(n, S, sid) == [lead, |contents|] + contents
  {
    hide TagOctets, LengthOctets, Consistent, TreeOf, Written, Encoding, Content, Contents, TagSize;
    MessageFields(n, S, sid);
    TagBelow(n, S, sid);
    var b := TreeOf(n, S, sid);
    var ident := TagOctets(b.tagClass, b.Cons?, b.tag);
    IdentifierOctets(b.tagClass, b.Cons?, b.tag);
    assert ident == [ident[0]] + ident[1..];
    WrittenParts(n, S, sid);
    ContentsAre(n, S, sid);
    if |Content(b)| < 128 {
      LengthOctetsInNumbers(|Content(b)|);
    }
  }

  lemma WrittenParts(n: ASN1Node, S: set<ASN1Node>, sid: nat)
    requires n in S && Consistent(S, sid) && n.sessionId == sid
    requires TreeOf(n, S, sid).tagClass != ClassUnknown && Sendable(TreeOf(n, S, sid))
    ensures var b := TreeOf(n, S, sid);
            Written(n, S, sid) == TagOctets(b.tagClass, b.Cons?, b.tag) + (LengthOctets(|Content(b)|) + Content(b))
    ensures TreeOf(n, S, sid).Prim? ==> Content(TreeOf(n, S, sid)) == TreeOf(n, S, sid).octets
  {
    hide TagOctets, LengthOctets, Consistent, TreeOf;
  }

  lemma ContentsAre(n: ASN1Node, S: set<ASN1Node>, sid: nat)
    requires n in S && Consistent(S, sid) && !IsChoice(n) && n.sessionId == sid && Sendable(TreeOf(n, S, sid))
    ensures TreeOf(n, S, sid).Cons? ==> Content(TreeOf(n, S, sid)) == Contents(n, |n.children|, S, sid)
  {
    hide EncodingOfAll, Encoding, ForestOf;
    assert NodeOk(n, S, sid) && n.children[..|n.children|] == n.children;
  }

  lemma TagBelow(n: ASN1Node, S: set<ASN1Node>, sid: nat)
    requires n in S && Consistent(S, sid) && n.sessionId == sid && !IsChoice(n)
    ensures TreeOf(n, S, sid).tag < 0x1000_0000 && TreeOf(n, S, sid).tagClass != ClassUnknown
    ensures Sendable(TreeOf(n, S, sid))
  {
    CachedSizes(n, S, sid);
    assert NodeOk(n, S, sid) && TypeAt(n, S);
  }

  /** Replaces a placeholder tag by the universal one and an unknown complexity by what the children say. */
  method Settle(n: ASN1Node, ghost S: set<ASN1Node>, sid: nat)
    requires n in S && Consistent(S, sid) && !IsChoice(n)
    modifies n.tlv`tagValue, n.tlv`tagClass, n.tlv`complexity
    ensures Consistent(S, sid) && Meanings(S) == old(Meanings(S)) && Settled(n)
  {
    assert TypeAt(n, S);
    if n.tlv.tagValue == UNKNOWN_UNIVERSAL_TAG {
      n.tlv.tagValue := n.tlv.uniTag;
      n.tlv.tagClass := Universal;
    }
    if n.tlv.complexity == ComplexityUnknown {
      n.tlv.complexity := if |n.children| == 0 then Primitive else Constructed;
    }
    SettleKeeps(n, S, sid);
  }

  twostate lemma SettleKeeps(n: ASN1Node, new S: set<ASN1Node>, new sid: nat)
    requires old(allocated(S))
    requires n in S && old(Consistent(S, sid)) && !IsChoice(n)
    requires forall m | m in S :: unchanged(m) && (m != n ==> unchanged(m.tlv))
    requires MeaningOf(n) == old(MeaningOf(n)) && TypeAt(n, S)
    ensures Consistent(S, sid) && Meanings(S) == old(Meanings(S))
  {
    hide TagSize, LengthSize;
    forall m | m in S ensures MeaningOf(m) == old(MeaningOf(m)) && TypeAt(m, S) {
      assert old(TypeAt(m, S));
    }
    SettledConsistent(S, sid);
  }

  /** encode: writes the message of a linked node at pos and returns its length; writes nothing otherwise. */
  method Encode(buffer: array<byte>, pos: nat, n: ASN1Node, sid: nat, ghost S: set<ASN1Node>, ghost T: set<TLVNode>)
      returns (total: nat)
    requires n in S && T == Tlvs(S) && Consistent(S, sid)
    requires buffer.Length < 0x8000_0000 && pos + |Written(n, S, sid)| <= buffer.Length
    modifies buffer, T`tagValue, T`tagClass, T`complexity
    ensures Consistent(S, sid) && Meanings(S) == old(Meanings(S))
    ensures total == old(|Written(n, S, sid)|) == old(CachedSize(n, sid))
    ensures buffer[..] == Patched(old(buffer[..]), pos, old(Written(n, S, sid)))
    decreases n.height, 3
  {
    hide Consistent, Meanings, TreeOf, Encoding, Patched, MeaningOf;
    total := 0;
    NothingPatched(buffer[..], pos);
    ShapeOf(S, sid);
    if pos < buffer.Length {
      if n.linkedNode != null && n.sessionId == sid {
        if n.linkedNode.tlv.uniTag != CHOICE {
          total := EncodeNode(buffer, pos, n.linkedNode, sid, S, T);
        } else {
          ChoiceIsSelection(n, S, sid);
          if n.linkedNode.choiceSelection != null {
            total := Encode(buffer, pos, n.linkedNode.choiceSelection, sid, S, T);
          }
        }
      }
    }
  }

  /** Everything but a CHOICE: identifier, length and contents. */
  method EncodeNode(buffer: array<byte>, pos: nat, n: ASN1Node, sid: nat, ghost S: set<ASN1Node>, ghost T: set<TLVNode>)
      returns (total: nat)
    requires n in S && T == Tlvs(S) && Consistent(S, sid) && !IsChoice(n) && n.sessionId == sid
    requires buffer.Length < 0x8000_0000 && pos + |Written(n, S, sid)| <= buffer.Length
    modifies buffer, T`tagValue, T`tagClass, T`complexity
    ensures Consistent(S, sid) && Meanings(S) == old(Meanings(S))
    ensures total == old(|Written(n, S, sid)|)
    ensures buffer[..] == Patched(old(buffer[..]), pos, old(Written(n, S, sid)))
    decreases n.height, 2
  {
    hide Consistent, Meanings, Written, TreeOf, Encoding, Patched, MeaningOf, LengthSize, TagSize, LengthOctets,
         TagOctets, Body;
    Settle(n, S, sid);
    WrittenSettled(n, S, sid);
    LinkedEncoding(n, S, sid);
    ghost var before := buffer[..];
    ghost var ident := TagOctets(n.tlv.tagClass, IsConstructed(n), n.tlv.tagValue);
    ghost var field := LengthOctets(n.tlv.valueLength);
    ghost var body := Body(n, S, sid);
    EncodePreparedTag(buffer, pos, n.tlv);
    total := n.tlv.tagValueSize;
    EncodePreparedLength(buffer, pos + total, n.tlv);
    PatchedTwice(before, pos, ident, field);
    total := total + n.tlv.valueLengthSize;
    label header:
    var contents := EncodeBody(buffer, pos + total, n, sid, S, T);
    total := total + contents;
    PatchedTwice(before, pos, ident + field, body);
    assert ident + field + body == ident + (field + body);
  }

  /** The value of a primitive node, the linked children of a constructed one. */
  method EncodeBody(buffer: array<byte>, pos: nat, n: ASN1Node, sid: nat, ghost S: set<ASN1Node>, ghost T: set<TLVNode>)
      returns (total: nat)
    requires n in S && T == Tlvs(S) && Consistent(S, sid) && !IsChoice(n) && Settled(n)
    requires n.tlv.valueLength == |Body(n, S, sid)|
    requires buffer.Length < 0x8000_0000 && pos + |Body(n, S, sid)| <= buffer.Length
    modifies buffer, T`tagValue, T`tagClass, T`complexity
    ensures Consistent(S, sid) && Meanings(S) == old(Meanings(S))
    ensures total == old(|Body(n, S, sid)|)
    ensures buffer[..] == Patched(old(buffer[..]), pos, old(Body(n, S, sid)))
    decreases n.height, 1
  {
    hide Consistent, Meanings, Written, Patched, MeaningOf, Contents, StepOk;
    if n.tlv.complexity == Primitive {
      CopyOctets(buffer, pos, n.tlv.value);
      total := n.tlv.valueLength;
    } else {
      total := EncodeChildren(buffer, pos, n, sid, S, T);
    }
  }

  method EncodeChildren(buffer: array<byte>, pos: nat, n: ASN1Node, sid: nat, ghost S: set<ASN1Node>,
                        ghost T: set<TLVNode>)
      returns (total: nat)
    requires n in S && T == Tlvs(S) && Consistent(S, sid) && !IsChoice(n) && IsConstructed(n)
    requires buffer.Length < 0x8000_0000 && pos + |Contents(n, |n.children|, S, sid)| <= buffer.Length
    modifies buffer, T`tagValue, T`tagClass, T`complexity
    ensures Consistent(S, sid) && Meanings(S) == old(Meanings(S))
    ensures total == old(|Contents(n, |n.children|, S, sid)|)
    ensures buffer[..] == Patched(old(buffer[..]), pos, old(Contents(n, |n.children|, S, sid)))
    decreases n.height, 0
  {
    hide Consistent, Meanings, Written, Patched, MeaningOf, Contents;
    ContentsNone(n, S, sid);
    NothingPatched(buffer[..], pos);
    total := 0;
    forall k | 0 <= k < |n.children| ensures StepOk(n, k, S, sid) {
      ContentsStep(n, k, S, sid);
      ContentsFit(n, k + 1, S, sid);
    }
    for i := 0 to |n.children|
      invariant Consistent(S, sid) && Meanings(S) == old(Meanings(S))
      invariant n.children == old(n.children)
      invariant total == |old(Contents(n, i, S, sid))| && pos + total <= buffer.Length
      invariant buffer[..] == Patched(old(buffer[..]), pos, old(Contents(n, i, S, sid)))
    {
      var c := n.children[i];
      assert old(StepOk(n, i, S, sid));
      WrittenSettled(c, S, sid);
      PatchedTwice(old(buffer[..]), pos, old(Contents(n, i, S, sid)), old(Written(c, S, sid)));
      var length := Encode(buffer, pos + total, c, sid, S, T);
      total := total + length;
    }
  }

  lemma NothingPatched(before: seq<byte>, pos: nat)
    requires pos <= |before|
    ensures Patched(before, pos, []) == before
  {
  }

  lemma ChoiceIsSelection(n: ASN1Node, S: set<ASN1Node>, sid: nat)
    requires n in S && Consistent(S, sid) && IsChoice(n) && n.sessionId == sid
    ensures n.choiceSelection in S && n.choiceSelection.height < n.height
    ensures Written(n, S, sid) == Written(n.choiceSelection, S, sid)
    ensures CachedSize(n, sid) == CachedSize(n.choiceSelection, sid)
  {
    assert NodeOk(n, S, sid);
    ParentInside(n.choiceSelection, S);
    assert NodeOk(n.choiceSelection, S, sid) && TypeAt(n.choiceSelection, S) && TypeAt(n, S);
  }
}
