/** The configuration tree in memory, and the operations on it that work in place: each is proved to do to the tree
    what its specification does to the value of the tree (src/config/config.cpp:2125-2303, 2823-3088). */
module ConfigItem {
  import opened Wrappers
  import opened ConfigTree
  import opened ConfigTransaction

  class ConfigItem {
    var name: string
    var nodeType: NodeType
    var typ: string
    var value: string
    var newValue: string
    var state: NodeState
    var isTemplate: bool
    var isEmpty: bool
    var isNew: bool
    var sortName: Option<string>
    var children: seq<ConfigItem>
    var parent: ConfigItem?
    ghost var repr: set<ConfigItem>

    /** A tree: every child has its own part of it and knows its parent. */
    ghost predicate Valid()
      reads this, repr
      decreases repr
    {
      && this in repr
      && (forall c | c in children :: c in repr && c.repr <= repr && this !in c.repr && c.parent == this && c.Valid())
      && forall i, j | 0 <= i < j < |children| :: children[i].repr !! children[j].repr
    }

    /** The tree as a value. */
    ghost function Model(): Node
      requires Valid()
      reads this, repr
      decreases repr, 2
    {
      Fields().(kids := Kids())
    }

    /** The node without its children. */
    ghost function Fields(): Node
      reads this
    {
      Node(name, nodeType, typ, value, newValue, state, isTemplate, isEmpty, isNew, sortName, [])
    }

    ghost function Kids(): (r: seq<Node>)
      requires Valid()
      reads this, repr
      ensures |r| == |children| && forall i | 0 <= i < |r| :: r[i] == children[i].Model()
      decreases repr, 1
    {
      Models(children, repr - {this})
    }

    constructor (name: string, nodeType: NodeType)
      ensures Valid() && fresh(repr) && repr == {this} && parent == null && children == []
      ensures Model() == Node(name, nodeType, "", "", "", Ready, false, false, false, None, [])
    {
      this.name, this.nodeType, typ, value, newValue, state := name, nodeType, "", "", "", Ready;
      isTemplate, isEmpty, isNew, sortName, children, parent := false, false, false, None, [], null;
      repr := {this};
    }

    // -------------------------------------------------------------- commit

    method Commit(pretend: bool) returns (res: nat)
      requires Valid()
      modifies repr
      ensures Valid() && repr == old(repr) && parent == old(parent) && Fields() == old(Fields())
      ensures Kids() == CommitKids(old(Kids()), pretend) && res == Changes(old(Kids()))
      decreases repr, 1
    {
      hide Valid, Model, Kids, CommitNode, ChangesAt, CommitKids, Changes;
      ghost var ks, k := Kids(), 0;
      res := 0;
      var i := 0;
      CommitNothing(ks, pretend);
      KidCount(this);
      while i < |children|
        invariant Valid() && repr == old(repr) && parent == old(parent) && Fields() == old(Fields())
        invariant k <= |ks| && |children| == i + (|ks| - k)
        invariant Kids() == CommitKids(ks[..k], pretend) + ks[k..] && i == |CommitKids(ks[..k], pretend)|
        invariant res == Changes(ks[..k])
        decreases |ks| - k
      {
        label turn:
        var gone, n := CommitChild(i, pretend);
        CommitMore(ks, k, pretend);
        Replaced(CommitKids(ks[..k], pretend), ks, k, CommitNode(ks[k], pretend));
        KidCount(this);
        res := res + n;
        if !gone {
          i := i + 1;
        }
        k := k + 1;
      }
      assert ks[..k] == ks && CommitKids(ks, pretend) + ks[k..] == CommitKids(ks, pretend);
    }

    /** The child at i: a deleted block is taken out of the vector. */
    method CommitChild(i: nat, pretend: bool) returns (gone: bool, n: nat)
      requires Valid() && i < |children|
      modifies repr
      ensures Valid() && repr == old(repr) && parent == old(parent) && Fields() == old(Fields())
      ensures i < |old(Kids())| &&
              Kids() == old(Kids())[..i] + CommitNode(old(Kids())[i], pretend) + old(Kids())[i + 1..]
      ensures gone == (CommitNode(old(Kids())[i], pretend) == []) && n == ChangesAt(old(Kids())[i])
      decreases repr, 0
    {
      hide Valid, Model, Kids, CommitNode, ChangesAt;
      ChildIn(this, i);
      var item := children[i];
      gone, n := item.CommitSelf(pretend);
      ChildChanged(this, i);
      label changed:
      if gone {
        item.parent.children := item.parent.children[..i] + item.parent.children[i + 1..];
        ChildErased@changed(this, i);
      }
    }

    method CommitSelf(pretend: bool) returns (gone: bool, n: nat)
      requires Valid()
      modifies repr
      ensures Valid() && repr == old(repr) && parent == old(parent)
      ensures CommitNode(old(Model()), pretend) == (if gone then [] else [Model()]) && n == ChangesAt(old(Model()))
      decreases repr, 2
    {
      hide Valid, Kids, CommitKids, Changes;
      KidCount(this);
      gone, n := false, 0;
      if isTemplate {
        return;
      }
      isNew := false;
      match state {
        case Ready =>
          FieldsChanged(this);
          n := Commit(pretend);
        case Modified =>
          if !pretend {
            state := Ready;
            if nodeType == Item {
              value := newValue;
            }
          }
          FieldsChanged(this);
          n := Commit(pretend);
          n := n + 1;
        case Deleted =>
          n := 1;
          if !pretend {
            if nodeType == Block {
              gone := true;
            } else {
              state, value, newValue := Ready, "", "";
            }
          }
          FieldsChanged(this);
      }
    }

    // -------------------------------------------------------------- discard

    /** Only blocks may be new: a new item would keep the loop from ending. */
    method Discard()
      requires Valid() && InScope(Kids())
      modifies repr
      ensures Valid() && repr == old(repr) && parent == old(parent) && Fields() == old(Fields())
      ensures Kids() == DiscardKids(old(Kids()))
      decreases repr, 1
    {
      hide Valid, Model, Kids, DiscardNode, DiscardKids, InScope;
      ghost var ks, k := Kids(), 0;
      var i := 0;
      DiscardNothing(ks);
      KidCount(this);
      while i < |children|
        invariant Valid() && repr == old(repr) && parent == old(parent) && Fields() == old(Fields())
        invariant k <= |ks| && |children| == i + (|ks| - k)
        invariant Kids() == DiscardKids(ks[..k]) + ks[k..] && i == |DiscardKids(ks[..k])|
        decreases |ks| - k
      {
        DiscardMore(ks, k);
        Replaced(DiscardKids(ks[..k]), ks, k, DiscardNode(ks[k]));
        InScopeAt(ks, k);
        var gone := DiscardChild(i);
        KidCount(this);
        if !gone {
          i := i + 1;
        }
        k := k + 1;
      }
      assert ks[..k] == ks && DiscardKids(ks) + ks[k..] == DiscardKids(ks);
    }

    /** The child at i: a new block is taken out of the vector. */
    method DiscardChild(i: nat) returns (gone: bool)
      requires Valid() && i < |children| && i < |Kids()| && NodeInScope(Kids()[i])
      modifies repr
      ensures Valid() && repr == old(repr) && parent == old(parent) && Fields() == old(Fields())
      ensures Kids() == old(Kids())[..i] + DiscardNode(old(Kids())[i]) + old(Kids())[i + 1..]
      ensures gone == (DiscardNode(old(Kids())[i]) == [])
      decreases repr, 0
    {
      hide Valid, Model, Kids, DiscardNode, NodeInScope;
      ChildIn(this, i);
      var item := children[i];
      gone := item.DiscardSelf();
      ChildChanged(this, i);
      label changed:
      if gone {
        item.parent.children := item.parent.children[..i] + item.parent.children[i + 1..];
        ChildErased@changed(this, i);
      }
    }

    method DiscardSelf() returns (gone: bool)
      requires Valid() && NodeInScope(Model())
      modifies repr
      ensures Valid() && repr == old(repr) && parent == old(parent)
      ensures DiscardNode(old(Model())) == if gone then [] else [Model()]
      decreases repr, 2
    {
      hide Valid, Kids, DiscardKids, InScope;
      KidCount(this);
      gone := false;
      if isTemplate {
        return;
      }
      if isNew {
        return nodeType == Block;
      }
      match state {
        case Ready =>
          Discard();
        case _ =>
          state := Ready;
          if nodeType == Item {
            newValue := value;
          }
          FieldsChanged(this);
          Discard();
      }
    }


    // -------------------------------------------------------------- replace_prepare and reset

    method ReplacePrepare()
      requires Valid() && InScope(Kids())
      modifies repr
      ensures Valid() && repr == old(repr) && parent == old(parent) && Fields() == old(Fields())
      ensures Kids() == PrepareKids(old(Kids()))
      decreases repr, 1
    {
      hide Valid, Model, Kids, PrepareKids, PrepareEach, DeleteAll, InScope, PreparedSoFar;
      ghost var ks := Kids();
      KidCount(this);
      PrepareBegins(ks);
      var i := 0;
      while i < |children|
        invariant Valid() && repr == old(repr) && parent == old(parent) && Fields() == old(Fields())
        invariant |children| == |ks| && (if HasTemplate(ks) then i == 0 || i >= |ks| else i <= |ks|)
        invariant Kids() == PreparedSoFar(ks, i)
        decreases |ks| - i
      {
        PrepareMore(ks, i);
        ChildIn(this, i);
        ModelParts(children[i]);
        var node := children[i];
        if node.isTemplate {
          if |node.parent.children| > 1 {
            DeleteInstances();
            KidCount(this);
            ChildIn(this, i);
            i := i + |node.parent.children|;
            continue;
          }
        } else if node.nodeType == Item {
          MarkDeleted(i);
        } else {
          InScopeAt(ks, i);
          PrepareChild(i);
        }
        KidCount(this);
        i := i + 1;
      }
      PrepareEnds(ks, i);
    }

    method PrepareChild(i: nat)
      requires Valid() && i < |children| && i < |Kids()| && NodeInScope(Kids()[i])
      modifies repr
      ensures Valid() && repr == old(repr) && parent == old(parent) && Fields() == old(Fields())
      ensures Kids() == old(Kids())[i := old(Kids())[i].(kids := PrepareKids(old(Kids())[i].kids))]
      decreases repr, 0
    {
      hide Valid, Model, Kids, PrepareKids, InScope;
      ChildIn(this, i);
      ModelParts(children[i]);
      children[i].ReplacePrepare();
      ChildChanged(this, i);
      ModelParts(children[i]);
    }

    method MarkDeleted(i: nat)
      requires Valid() && i < |children|
      modifies {children[i]}`state
      ensures Valid() && repr == old(repr) && parent == old(parent) && Fields() == old(Fields()) &&
              children == old(children)
      ensures i < |old(Kids())| && Kids() == old(Kids())[i := old(Kids())[i].(state := Deleted)]
    {
      hide Valid, Model, Kids;
      ChildIn(this, i);
      ModelParts(children[i]);
      children[i].state := Deleted;
      FieldsChanged(children[i]);
      ChildChanged(this, i);
      ModelParts(children[i]);
    }

    /** All instances of the template at 0. */
    method DeleteInstances()
      requires Valid() && children != []
      modifies repr
      ensures Valid() && repr == old(repr) && parent == old(parent) && Fields() == old(Fields()) &&
              children == old(children)
      ensures Kids() == [old(Kids())[0]] + DeleteAll(old(Kids())[1..])
    {
      hide Valid, Model, Kids, DeleteAll;
      ghost var ks := Kids();
      KidCount(this);
      DeleteBegins(ks);
      for j := 1 to |children|
        invariant Valid() && repr == old(repr) && parent == old(parent) && Fields() == old(Fields()) &&
                  children == old(children)
        invariant Kids() == [ks[0]] + DeleteAll(ks[1..j]) + ks[j..]
      {
        ChildIn(this, j);
        DeleteMore(ks, j);
        MarkDeleted(j);
      }
      KidCount(this);
      assert ks[1..|children|] == ks[1..];
    }

    /** Every value empty, every instance gone. */
    method Reset()
      requires Valid() && InScope(Kids())
      modifies repr
      ensures Valid() && repr == old(repr) && parent == old(parent) && Fields() == old(Fields())
      ensures Kids() == ResetKids(old(Kids()))
      decreases repr, 1
    {
      hide Valid, Model, Kids, ResetKids, ResetEach, InScope, ResetSoFar;
      ghost var ks := Kids();
      KidCount(this);
      ResetBegins(ks);
      var i := 0;
      while i < |children|
        invariant Valid() && repr == old(repr) && parent == old(parent) && Fields() == old(Fields())
        invariant i <= |children| && Kids() == ResetSoFar(ks, i) &&
                  |children| == (if HasTemplate(ks) && i > 0 then 1 else |ks|)
        decreases |children| - i
      {
        ResetMore(ks, i);
        ChildIn(this, i);
        ModelParts(children[i]);
        InScopeAt(ks, i);
        ResetChild(i);
        KidCount(this);
        i := i + 1;
      }
      ResetEnds(ks, i);
    }

    method ResetChild(i: nat)
      requires Valid() && i < |children| && i < |Kids()| && NodeInScope(Kids()[i]) && (Kids()[i].isTemplate ==> i == 0)
      modifies repr
      ensures Valid() && repr == old(repr) && parent == old(parent) && Fields() == old(Fields())
      ensures var k := old(Kids())[i];
              Kids() == if k.isTemplate then [k.(kids := ResetKids(k.kids))]
                        else old(Kids())[i := k.(value := "", newValue := "", state := Ready,
                                                 kids := ResetKids(k.kids))]
      decreases repr, 0
    {
      hide Valid, Model, Kids, ResetKids, InScope;
      ChildIn(this, i);
      ModelParts(children[i]);
      var node := children[i];
      if node.isTemplate {
        if |node.parent.children| > 1 {
          node.parent.children := node.parent.children[..1];
        }
        InstancesErased(this);
      } else {
        node.value, node.newValue, node.state := "", "", Ready;
        FieldsChanged(node);
        ChildChanged(this, i);
      }
      ChildIn(this, i);
      ModelParts(node);
      label turn:
      node.Reset();
      ChildChanged@turn(this, i);
      ModelParts(node);
    }
  }

  ghost predicate AllValid(cs: seq<ConfigItem>, R: set<ConfigItem>)
    reads R
  {
    forall c | c in cs :: c in R && c.repr <= R && c.Valid()
  }

  ghost function Models(cs: seq<ConfigItem>, R: set<ConfigItem>): (r: seq<Node>)
    requires AllValid(cs, R)
    reads R
    ensures |r| == |cs| && forall i | 0 <= i < |r| :: r[i] == cs[i].Model()
    decreases R, 3, |cs|
  {
    if cs == [] then [] else [cs[0].Model()] + Models(cs[1..], R)
  }

  lemma KidCount(t: ConfigItem)
    requires t.Valid()
    ensures t in t.repr && |t.Kids()| == |t.children|
  {
  }

  lemma ChildIn(t: ConfigItem, i: nat)
    requires t.Valid() && i < |t.children|
    ensures t.children[i].Valid() && t.children[i] in t.repr && t.children[i].repr <= t.repr && t !in t.children[i].repr
    ensures t.children[i].parent == t && t.children[i].repr < t.repr && t in t.repr
    ensures i < |t.Kids()| && t.Kids()[i] == t.children[i].Model()
  {
    assert t.children[i] in t.children;
  }

  /** What happens in one child leaves the others alone. */
  twostate lemma SiblingKept(t: ConfigItem, new i: nat, new j: nat)
    requires old(t.Valid()) && i < |t.children| && j < |t.children| && j != i && unchanged(t)
    requires forall o | o in t.repr && o !in old(t.children[i].repr) :: unchanged(o)
    ensures t.children[j].Valid() && t.children[j].Model() == old(t.children[j].Model()) && unchanged(t.children[j])
    ensures t.children[j].parent == t && t.children[j] in t.repr && t.children[j].repr <= t.repr &&
            t !in t.children[j].repr
  {
    assert t.children[j] in t.children;
    if i < j {
      assert old(t.children[i].repr !! t.children[j].repr);
    } else {
      assert old(t.children[j].repr !! t.children[i].repr);
    }
  }

  /** Only the i-th child changed. */
  twostate lemma ChildChanged(t: ConfigItem, new i: nat)
    requires old(t.Valid()) && i < |t.children| && unchanged(t)
    requires t.children[i].Valid() && t.children[i].repr == old(t.children[i].repr) && t.children[i].parent == t
    requires forall o | o in t.repr && o !in old(t.children[i].repr) :: unchanged(o)
    ensures t.Valid() && t.Kids() == old(t.Kids())[i := t.children[i].Model()]
  {
    hide ConfigItem.Model, Models;
    assert t.children[i] in t.children;
    forall j | 0 <= j < |t.children|
      ensures t.children[j].Valid() && t.children[j].parent == t && t.children[j] in t.repr &&
              t.children[j].repr <= t.repr
      ensures t !in t.children[j].repr && t.children[j].repr == old(t.children[j].repr)
      ensures j != i ==> t.children[j].Model() == old(t.children[j].Model())
    {
      if j != i {
        SiblingKept(t, i, j);
      }
    }
    assert t.Valid() by {
      forall j, k | 0 <= j < k < |t.children| ensures t.children[j].repr !! t.children[k].repr {
        assert old(t.children[j].repr !! t.children[k].repr);
      }
    }
  }

  /** The i-th child was taken out. */
  twostate lemma ChildErased(t: ConfigItem, new i: nat)
    requires old(t.Valid()) && i < |old(t.children)| && t.repr == old(t.repr)
    requires t.children == old(t.children)[..i] + old(t.children)[i + 1..]
    requires forall o | o in t.repr && o != t :: unchanged(o)
    ensures t.Valid() && t.Kids() == old(t.Kids())[..i] + old(t.Kids())[i + 1..]
  {
    hide ConfigItem.Model;
    forall j | 0 <= j < |old(t.children)|
      ensures old(t.children)[j].Valid() && old(t.children)[j].Model() == old(t.children[j].Model()) &&
              unchanged(old(t.children)[j])
    {
      assert old(t.children)[j] in old(t.children);
    }
    assert t.Valid();
  }

  /** Only fields of t that say nothing about the structure changed. */
  twostate lemma FieldsChanged(t: ConfigItem)
    requires old(t.Valid()) && t.children == old(t.children) && t.repr == old(t.repr)
    requires forall o | o in t.repr && o != t :: unchanged(o)
    ensures t.Valid() && t.Kids() == old(t.Kids())
  {
    hide ConfigItem.Model, Models;
    forall j | 0 <= j < |t.children|
      ensures t.children[j].Valid() && t.children[j].parent == t && t.children[j] in t.repr &&
              t.children[j].repr <= t.repr
      ensures t !in t.children[j].repr && t.children[j].repr == old(t.children[j].repr)
      ensures t.children[j].Model() == old(t.children[j].Model())
    {
      assert t.children[j] in t.children;
    }
    assert t.Valid() by {
      forall j, k | 0 <= j < k < |t.children| ensures t.children[j].repr !! t.children[k].repr {
        assert old(t.children[j].repr !! t.children[k].repr);
      }
    }
  }

  // ---------------------------------------------------------------- one more child

  lemma Replaced(done: seq<Node>, ks: seq<Node>, k: nat, one: seq<Node>)
    requires k < |ks|
    ensures (done + ks[k..])[|done|] == ks[k]
    ensures (done + ks[k..])[..|done|] + one + (done + ks[k..])[|done| + 1..] == done + one + ks[k + 1..]
  {
    assert (done + ks[k..])[..|done|] == done;
    assert (done + ks[k..])[|done| + 1..] == ks[k + 1..];
  }

  lemma CommitNothing(ks: seq<Node>, pretend: bool)
    ensures CommitKids(ks[..0], pretend) + ks[0..] == ks && CommitKids(ks[..0], pretend) == [] && Changes(ks[..0]) == 0
  {
  }

  lemma {:induction false} ChangesAppend(a: seq<Node>, b: seq<Node>)
    ensures Changes(a + b) == Changes(a) + Changes(b)
  {
    if a == [] {
      assert a + b == b;
    } else {
      ChangesAppend(a[1..], b);
      assert (a + b)[1..] == a[1..] + b;
    }
  }

  lemma CommitMore(ks: seq<Node>, k: nat, pretend: bool)
    requires k < |ks|
    ensures CommitKids(ks[..k + 1], pretend) == CommitKids(ks[..k], pretend) + CommitNode(ks[k], pretend)
    ensures Changes(ks[..k + 1]) == Changes(ks[..k]) + ChangesAt(ks[k])
    ensures |CommitNode(ks[k], pretend)| <= 1 && ks[k..] == [ks[k]] + ks[k + 1..]
  {
    hide CommitNode, ChangesAt;
    assert ks[..k + 1] == ks[..k] + [ks[k]] && [ks[k]][1..] == [];
    CommitAppend(ks[..k], [ks[k]], pretend);
    ChangesAppend(ks[..k], [ks[k]]);
    assert CommitKids([ks[k]], pretend) == CommitNode(ks[k], pretend) + [];
  }

  lemma InScopeAt(ks: seq<Node>, k: nat)
    requires InScope(ks) && k < |ks|
    ensures NodeInScope(ks[k])
  {
    assert ks[k] in ks;
  }

  lemma DiscardNothing(ks: seq<Node>)
    ensures DiscardKids(ks[..0]) + ks[0..] == ks && DiscardKids(ks[..0]) == []
  {
  }

  lemma DiscardMore(ks: seq<Node>, k: nat)
    requires k < |ks|
    ensures DiscardKids(ks[..k + 1]) == DiscardKids(ks[..k]) + DiscardNode(ks[k])
    ensures |DiscardNode(ks[k])| <= 1 && ks[k..] == [ks[k]] + ks[k + 1..]
  {
    hide DiscardNode;
    assert ks[..k + 1] == ks[..k] + [ks[k]];
    DiscardAppend(ks[..k], [ks[k]]);
    DiscardSingle(ks[k]);
  }

  lemma ModelParts(t: ConfigItem)
    requires t.Valid()
    ensures t.Model() == t.Fields().(kids := t.Kids())
  {
  }

  /** Only the first child is left. */
  twostate lemma InstancesErased(t: ConfigItem)
    requires old(t.Valid()) && old(t.children) != [] && t.children == old(t.children)[..1] && t.repr == old(t.repr)
    requires forall o | o in t.repr && o != t :: unchanged(o)
    ensures t.Valid() && old(t.Kids()) != [] && t.Kids() == old(t.Kids())[..1]
  {
    hide ConfigItem.Model, Models;
    var c := old(t.children)[0];
    assert c in old(t.children) && t.children == [c];
    assert c.Valid() && c.Model() == old(c.Model()) && unchanged(c);
  }

  // ---------------------------------------------------------------- replace_prepare and reset, step by step

  lemma DeleteBegins(ks: seq<Node>)
    requires ks != []
    ensures ks == [ks[0]] + DeleteAll(ks[1..1]) + ks[1..]
  {
  }

  lemma DeleteMore(ks: seq<Node>, j: nat)
    requires 1 <= j < |ks|
    ensures var done := [ks[0]] + DeleteAll(ks[1..j]);
            && (done + ks[j..])[j] == ks[j]
            && [ks[0]] + DeleteAll(ks[1..j + 1]) + ks[j + 1..] == (done + ks[j..])[j := ks[j].(state := Deleted)]
  {
    OneMore(ks, j, [ks[0]] + DeleteAll(ks[1..j]), ks[j].(state := Deleted));
  }

  ghost function PreparedSoFar(ks: seq<Node>, i: nat): seq<Node> {
    if HasTemplate(ks) then (if i == 0 then ks else PrepareKids(ks))
    else if i <= |ks| then PrepareEach(ks[..i]) + ks[i..]
    else ks
  }

  lemma PrepareBegins(ks: seq<Node>)
    ensures PreparedSoFar(ks, 0) == ks && |PreparedSoFar(ks, 0)| == |ks|
  {
  }

  lemma PrepareEnds(ks: seq<Node>, i: nat)
    requires i >= |ks| && (i <= |ks| || HasTemplate(ks))
    ensures PreparedSoFar(ks, i) == PrepareKids(ks)
  {
    assert ks[..|ks|] == ks && PrepareEach(ks) + [] == PrepareEach(ks);
  }

  lemma {:induction false} PrepareEachAppend(a: seq<Node>, k: Node)
    ensures PrepareEach(a + [k]) == PrepareEach(a) + PrepareEach([k])
  {
    if a == [] {
      assert a + [k] == [k];
    } else {
      PrepareEachAppend(a[1..], k);
      assert (a + [k])[1..] == a[1..] + [k];
    }
  }

  lemma PrepareMore(ks: seq<Node>, i: nat)
    requires i < |ks| && InScope(ks) && (HasTemplate(ks) ==> i == 0)
    ensures |PreparedSoFar(ks, i)| == |ks| && PreparedSoFar(ks, i)[i] == ks[i] &&
            (ks[i].isTemplate <==> HasTemplate(ks))
    ensures HasTemplate(ks) ==>
              && PreparedSoFar(ks, 0) == ks
              && PreparedSoFar(ks, |ks|) == PreparedSoFar(ks, i + 1) == [ks[0]] + DeleteAll(ks[1..])
    ensures HasTemplate(ks) && |ks| == 1 ==> [ks[0]] + DeleteAll(ks[1..]) == ks
    ensures !HasTemplate(ks) ==>
              PreparedSoFar(ks, i + 1)
              == PreparedSoFar(ks, i)[i := if ks[i].nodeType == Item then ks[i].(state := Deleted)
                                           else ks[i].(kids := PrepareKids(ks[i].kids))]
  {
    hide InScope, PrepareKids;
    if HasTemplate(ks) {
      TemplatePrepared(ks);
    } else {
      NoTemplateAt(ks, i);
      PrepareOneMore(ks, i);
    }
  }

  lemma PrepareOneMore(ks: seq<Node>, i: nat)
    requires i < |ks|
    ensures var p := if ks[i].nodeType == Item then ks[i].(state := Deleted)
                     else ks[i].(kids := PrepareKids(ks[i].kids));
            PrepareEach(ks[..i + 1]) + ks[i + 1..] == (PrepareEach(ks[..i]) + ks[i..])[i := p]
  {
    hide PrepareKids;
    var p := if ks[i].nodeType == Item then ks[i].(state := Deleted) else ks[i].(kids := PrepareKids(ks[i].kids));
    assert [ks[i]][1..] == [] && PrepareEach([ks[i]]) == [p] + PrepareEach([]);
    PrepareEachAppend(ks[..i], ks[i]);
    OneMore(ks, i, PrepareEach(ks[..i]), p);
  }

  lemma OneMore(ks: seq<Node>, i: nat, done: seq<Node>, p: Node)
    requires i < |ks| && |done| == i
    ensures ks[..i + 1] == ks[..i] + [ks[i]] && done + [p] + ks[i + 1..] == (done + ks[i..])[i := p]
  {
  }

  lemma TemplatePrepared(ks: seq<Node>)
    requires HasTemplate(ks)
    ensures PrepareKids(ks) == [ks[0]] + DeleteAll(ks[1..])
  {
  }

  lemma NoTemplateAt(ks: seq<Node>, i: nat)
    requires InScope(ks) && !HasTemplate(ks) && i < |ks|
    ensures !ks[i].isTemplate
  {
  }

  ghost function ResetSoFar(ks: seq<Node>, i: nat): seq<Node> {
    if HasTemplate(ks) then (if i == 0 then ks else ResetKids(ks))
    else if i <= |ks| then ResetEach(ks[..i]) + ks[i..]
    else ks
  }

  lemma ResetBegins(ks: seq<Node>)
    ensures ResetSoFar(ks, 0) == ks
  {
  }

  lemma ResetEnds(ks: seq<Node>, i: nat)
    requires if HasTemplate(ks) && i > 0 then i >= 1 else i == |ks|
    ensures ResetSoFar(ks, i) == ResetKids(ks)
  {
    assert ks[..|ks|] == ks && ResetEach(ks) + [] == ResetEach(ks);
  }

  lemma {:induction false} ResetEachAppend(a: seq<Node>, k: Node)
    ensures ResetEach(a + [k]) == ResetEach(a) + ResetEach([k])
  {
    if a == [] {
      assert a + [k] == [k];
    } else {
      ResetEachAppend(a[1..], k);
      assert (a + [k])[1..] == a[1..] + [k];
    }
  }

  lemma ResetMore(ks: seq<Node>, i: nat)
    requires i < |ks| && InScope(ks) && (HasTemplate(ks) ==> i == 0)
    ensures |ResetSoFar(ks, i)| == |ks| && ResetSoFar(ks, i)[i] == ks[i] && (ks[i].isTemplate <==> HasTemplate(ks))
    ensures HasTemplate(ks) ==> ResetSoFar(ks, i + 1) == [ks[0].(kids := ResetKids(ks[0].kids))]
    ensures !HasTemplate(ks) ==>
              ResetSoFar(ks, i + 1)
              == ResetSoFar(ks, i)[i := ks[i].(value := "", newValue := "", state := Ready,
                                               kids := ResetKids(ks[i].kids))]
  {
    hide InScope;
    if !HasTemplate(ks) {
      NoTemplateAt(ks, i);
      ResetOneMore(ks, i);
    }
  }

  lemma ResetOneMore(ks: seq<Node>, i: nat)
    requires i < |ks|
    ensures var p := ks[i].(value := "", newValue := "", state := Ready, kids := ResetKids(ks[i].kids));
            ResetEach(ks[..i + 1]) + ks[i + 1..] == (ResetEach(ks[..i]) + ks[i..])[i := p]
  {
    hide ResetKids;
    var p := ks[i].(value := "", newValue := "", state := Ready, kids := ResetKids(ks[i].kids));
    assert [ks[i]][1..] == [] && ResetEach([ks[i]]) == [p] + ResetEach([]);
    ResetEachAppend(ks[..i], ks[i]);
    OneMore(ks, i, ResetEach(ks[..i]), p);
  }
}
