/** Configuration trees as values (src/config/config.h, ConfigItem), what a reader sees in them, and the shape
    the definition validator guarantees. */
module ConfigTree {
  import opened Wrappers

  datatype NodeType = Block | Item

  datatype NodeState = Ready | Modified | Deleted

  datatype Node = Node(name: string, nodeType: NodeType, typ: string, value: string, newValue: string, state: NodeState,
                       isTemplate: bool, isEmpty: bool, isNew: bool, sortName: Option<string>, kids: seq<Node>)

  /** A template is child 0 and the only definition child of its parent; its instances are blocks. */
  predicate HasTemplate(ks: seq<Node>) {
    ks != [] && ks[0].isTemplate
  }

  /** What validate_definition and the edits guarantee of the children of a block, at every depth: templates come
      first, items have no children, only blocks are new, and an item that is READY has nothing pending. */
  predicate InScope(ks: seq<Node>)
    decreases ks
  {
    && (forall i :: 0 < i < |ks| ==> !ks[i].isTemplate)
    && (HasTemplate(ks) ==> forall i :: 0 <= i < |ks| ==> ks[i].nodeType == Block)
    && forall k | k in ks :: NodeInScope(k)
  }

  predicate NodeInScope(k: Node)
    decreases k, 0
  {
    && (k.nodeType == Item ==> k.kids == [] && !k.isNew && !k.isTemplate)
    && (k.nodeType == Item && k.state == Ready ==> k.newValue == k.value)
    && InScope(k.kids)
  }

  /** Nothing is pending outside the templates. */
  predicate Clean(ks: seq<Node>)
    decreases ks
  {
    forall k | k in ks :: CleanNode(k)
  }

  predicate CleanNode(k: Node)
    decreases k, 0
  {
    k.isTemplate || (k.state == Ready && !k.isNew && Clean(k.kids))
  }

  // ---------------------------------------------------------------- views

  datatype View = VItem(name: string, value: string) | VBlock(name: string, kids: seq<View>)

  /** What was last committed: new blocks do not show. */
  function Committed(ks: seq<Node>): seq<View>
    decreases ks, 1
  {
    if ks == [] then [] else CommittedNode(ks[0]) + Committed(ks[1..])
  }

  function CommittedNode(k: Node): seq<View>
    decreases k, 0
  {
    if k.isTemplate then []
    else if k.nodeType == Item then [VItem(k.name, k.value)]
    else if k.isNew then []
    else [VBlock(k.name, Committed(k.kids))]
  }

  /** What a commit would make of it: deleted blocks are gone, deleted items empty, modified items new. */
  function Pending(ks: seq<Node>): seq<View>
    decreases ks, 1
  {
    if ks == [] then [] else PendingNode(ks[0]) + Pending(ks[1..])
  }

  function PendingNode(k: Node): seq<View>
    decreases k, 0
  {
    if k.isTemplate then []
    else if k.nodeType == Item then
      [VItem(k.name, match k.state case Ready => k.value case Modified => k.newValue case Deleted => "")]
    else if k.state == Deleted then []
    else [VBlock(k.name, Pending(k.kids))]
  }

  lemma Associative<T>(a: seq<T>, b: seq<T>, c: seq<T>)
    ensures a + (b + c) == a + b + c
  {
  }

  lemma {:induction false} CommittedAppend(a: seq<Node>, b: seq<Node>)
    ensures Committed(a + b) == Committed(a) + Committed(b)
  {
    hide CommittedNode;
    if a == [] {
      assert a + b == b;
    } else {
      CommittedAppend(a[1..], b);
      assert (a + b)[0] == a[0] && (a + b)[1..] == a[1..] + b;
      Associative(CommittedNode(a[0]), Committed(a[1..]), Committed(b));
    }
  }

  lemma CommittedSingle(k: Node)
    ensures Committed([k]) == CommittedNode(k)
  {
    assert [k][1..] == [] && Committed([k]) == CommittedNode(k) + [];
  }

  // ---------------------------------------------------------------- equality up to the order of instances

  datatype Canonical = Canonical(head: Node, ordered: seq<Canonical>, instances: multiset<Canonical>)

  /** A node without its children; the value fields of a block mean nothing. */
  function Head(n: Node): Node {
    if n.nodeType == Block then n.(kids := [], value := "", newValue := "") else n.(kids := [])
  }

  /** The whole tree, but for the order of the instances of a template. */
  function Canon(n: Node): Canonical
    decreases n, 1
  {
    var c := CanonKids(n.kids);
    Canonical(Head(n), c.0, c.1)
  }

  function CanonKids(ks: seq<Node>): (seq<Canonical>, multiset<Canonical>)
    decreases ks, 1
  {
    if HasTemplate(ks) then
      assert ks[0] in ks;
      ([Canon(ks[0])], multiset(Canons(ks[1..])))
    else (Canons(ks), multiset{})
  }

  function Canons(ks: seq<Node>): (r: seq<Canonical>)
    ensures |r| == |ks|
    decreases ks, 0
  {
    if ks == [] then [] else [Canon(ks[0])] + Canons(ks[1..])
  }

  lemma {:induction false} CanonsAppend(a: seq<Node>, b: seq<Node>)
    ensures Canons(a + b) == Canons(a) + Canons(b)
  {
    hide Canon;
    if a == [] {
      assert a + b == b;
    } else {
      CanonsAppend(a[1..], b);
      assert (a + b)[0] == a[0] && (a + b)[1..] == a[1..] + b;
      Associative([Canon(a[0])], Canons(a[1..]), Canons(b));
    }
  }

  lemma {:induction false} CanonsAt(ks: seq<Node>, i: nat)
    requires i < |ks|
    ensures Canons(ks)[i] == Canon(ks[i])
  {
    if i > 0 {
      CanonsAt(ks[1..], i - 1);
    }
  }
}
