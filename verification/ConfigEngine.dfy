/** copy_nodes, merge, validate and the file printer on the tree in memory: each does to the tree what its
    specification does to the value of the tree (src/config/config.cpp:1003-1205, 2125-2148, 2888-3088). */
module ConfigEngine {
  import opened Wrappers
  import opened ConfigTree
  import opened ConfigMerge
  import opened ConfigItem
  import CF = ConfigFile

  // ---------------------------------------------------------------- structure

  /** A tree none of whose nodes changed. */
  twostate lemma Untouched(t: ConfigItem)
    requires old(t.Valid()) && forall o | o in old(t.repr) :: unchanged(o)
    ensures t.Valid() && t.Kids() == old(t.Kids()) && t.Model() == old(t.Model()) && t.Fields() == old(t.Fields())
  {
  }

  /** c was added at the end. */
  twostate lemma ChildAdded(t: ConfigItem, new c: ConfigItem)
    requires old(t.Valid()) && t.children == old(t.children) + [c] && t.repr == old(t.repr) + c.repr
    requires c.Valid() && c.parent == t && c.repr !! old(t.repr)
    requires forall o | o in old(t.repr) && o != t :: unchanged(o)
    ensures t.Valid() && t.Kids() == old(t.Kids()) + [c.Model()]
  {
    hide ConfigItem.Model, Models;
    forall j | 0 <= j < |old(t.children)|
      ensures t.children[j].Valid() && t.children[j].parent == t && t.children[j] in t.repr &&
              t.children[j].repr <= t.repr
      ensures t !in t.children[j].repr && t.children[j].repr == old(t.children[j].repr) && t.children[j].repr !! c.repr
      ensures t.children[j].Model() == old(t.children[j].Model())
    {
      assert t.children[j] in old(t.children);
    }
    assert t.Valid() by {
      forall j, k | 0 <= j < k < |t.children| ensures t.children[j].repr !! t.children[k].repr {
        if k < |old(t.children)| {
          assert old(t.children[j].repr !! t.children[k].repr);
        }
      }
    }
  }

  /** The i-th child changed and may have got new nodes. */
  twostate lemma ChildGrew(t: ConfigItem, new i: nat)
    requires old(t.Valid()) && i < |t.children| && t.children == old(t.children)
    requires t.children[i].Valid() && t.children[i].parent == t && t.repr == old(t.repr) + t.children[i].repr
    requires forall o | o in t.children[i].repr && o !in old(t.children[i].repr) :: o !in old(t.repr)
    requires forall o | o in old(t.repr) && o !in old(t.children[i].repr) && o != t :: unchanged(o)
    ensures t.Valid() && t.Kids() == old(t.Kids())[i := t.children[i].Model()]
  {
    hide ConfigItem.Model, Models;
    var c := t.children[i];
    assert c in t.children;
    forall j | 0 <= j < |t.children| && j != i
      ensures t.children[j].Valid() && t.children[j].parent == t && t.children[j] in t.repr &&
              t.children[j].repr <= t.repr
      ensures t !in t.children[j].repr && t.children[j].repr == old(t.children[j].repr) && t.children[j].repr !! c.repr
      ensures t.children[j].Model() == old(t.children[j].Model())
    {
      SiblingGrew(t, i, j);
    }
    assert t.Valid() by {
      forall j, k | 0 <= j < k < |t.children| ensures t.children[j].repr !! t.children[k].repr {
        assert old(t.children[j].repr !! t.children[k].repr);
      }
    }
  }

  twostate lemma SiblingGrew(t: ConfigItem, new i: nat, new j: nat)
    requires old(t.Valid()) && i < |t.children| && j < |t.children| && j != i && t.children == old(t.children)
    requires t.repr == old(t.repr) + t.children[i].repr
    requires forall o | o in t.children[i].repr && o !in old(t.children[i].repr) :: o !in old(t.repr)
    requires forall o | o in old(t.repr) && o !in old(t.children[i].repr) && o != t :: unchanged(o)
    ensures t.children[j].Valid() && t.children[j].parent == t && t.children[j] in t.repr &&
            t.children[j].repr <= t.repr
    ensures t !in t.children[j].repr && t.children[j].repr == old(t.children[j].repr) &&
            t.children[j].repr !! t.children[i].repr
    ensures t.children[j].Model() == old(t.children[j].Model())
  {
    var d := t.children[j];
    assert d in t.children;
    if i < j {
      assert old(t.children[i].repr !! t.children[j].repr);
    } else {
      assert old(t.children[j].repr !! t.children[i].repr);
    }
    assert forall o | o in d.repr :: o in old(t.repr) && unchanged(o);
  }

  // ---------------------------------------------------------------- copy_nodes

  /** Copies the children of source to the end of the children of dest. */
  method CopyNodes(source: ConfigItem, dest: ConfigItem, newState: Option<NodeState>)
    requires source.Valid() && dest.Valid() && source.repr !! dest.repr
    modifies dest.repr
    ensures dest.Valid() && fresh(dest.repr - old(dest.repr)) && dest.parent == old(dest.parent) &&
            dest.Fields() == old(dest.Fields())
    ensures dest.Kids() == old(dest.Kids()) + CopyKids(old(source.Kids()), newState)
    decreases source.repr, 0
  {
    hide ConfigItem.Valid, ConfigItem.Model, ConfigItem.Kids, CopyKids;
    ghost var ks, before := source.Kids(), dest.Kids();
    KidCount(source);
    KidCount(dest);
    CopyBegins(ks, before, newState);
    for i := 0 to |source.children|
      invariant source.Valid() && source.Kids() == ks && source.children == old(source.children) &&
                |ks| == |source.children|
      invariant source.repr == old(source.repr) && source.repr !! dest.repr
      invariant dest.Valid() && fresh(dest.repr - old(dest.repr)) && old(dest.repr) <= dest.repr
      invariant dest.parent == old(dest.parent) && dest.Fields() == old(dest.Fields())
      invariant dest.Kids() == before + CopyKids(ks[..i], newState)
    {
      ChildIn(source, i);
      CopyMore(ks, i, newState);
      label turn:
      CopyNode(source.children[i], dest, newState);
      Untouched@turn(source);
    }
    assert ks[..|ks|] == ks;
  }

  method CopyNode(node: ConfigItem, dest: ConfigItem, newState: Option<NodeState>)
    requires node.Valid() && dest.Valid() && node.repr !! dest.repr
    modifies dest.repr
    ensures dest.Valid() && fresh(dest.repr - old(dest.repr)) && old(dest.repr) <= dest.repr
    ensures dest.parent == old(dest.parent) && dest.Fields() == old(dest.Fields())
    ensures dest.Kids() == old(dest.Kids()) + [Copied(old(node.Model()), newState)]
    decreases node.repr, 1
  {
    hide ConfigItem.Valid, ConfigItem.Model, ConfigItem.Kids, CopyKids;
    KidCount(dest);
    KidCount(node);
    var copy := NewCopy(node, dest, newState);
    label filled:
    dest.children := dest.children + [copy];
    Untouched@filled(copy);
    Untouched(node);
    CopyNodes(node, copy, newState);
    assert [] + CopyKids(old(node.Kids()), newState) == CopyKids(old(node.Kids()), newState);
    dest.repr := dest.repr + copy.repr;
    ChildAdded(dest, copy);
    ModelParts(copy);
  }

  method NewCopy(node: ConfigItem, dest: ConfigItem, newState: Option<NodeState>) returns (copy: ConfigItem)
    requires node.Valid()
    ensures fresh(copy) && copy.Valid() && copy.repr == {copy} && copy.parent == dest && copy.Kids() == []
    ensures copy.Fields().(kids := CopyKids(node.Kids(), newState)) == Copied(node.Model(), newState)
  {
    hide ConfigItem.Valid, ConfigItem.Model, ConfigItem.Kids, CopyKids;
    ModelParts(node);
    copy := new ConfigItem(node.name, node.nodeType);
    ModelParts(copy);
    Untouched(node);
    TakeFields(copy, node, newState);
    label taken:
    copy.parent := dest;
    FieldsChanged@taken(copy);
  }

  /** The fields of a copy, but for its name, type and whether it is new. */
  method TakeFields(copy: ConfigItem, node: ConfigItem, newState: Option<NodeState>)
    requires copy.Valid() && copy != node
    modifies copy
    ensures copy.Valid() && copy.Kids() == old(copy.Kids()) && copy.repr == old(copy.repr)
    ensures copy.Fields() == node.Fields().(name := old(copy.name), nodeType := old(copy.nodeType),
                                            isNew := old(copy.isNew),
                                            state := if newState.Some? then newState.value else node.state)
  {
    hide ConfigItem.Valid, ConfigItem.Kids;
    copy.isTemplate, copy.isEmpty, copy.sortName := node.isTemplate, node.isEmpty, node.sortName;
    copy.state := if newState.Some? then newState.value else node.state;
    copy.typ, copy.value, copy.newValue := node.typ, node.value, node.newValue;
    FieldsChanged(copy);
  }

  function Copied(k: Node, state: Option<NodeState>): Node {
    k.(state := if state.Some? then state.value else k.state, isNew := false, kids := CopyKids(k.kids, state))
  }

  lemma CopyBegins(ks: seq<Node>, before: seq<Node>, state: Option<NodeState>)
    ensures before + CopyKids(ks[..0], state) == before
  {
  }

  lemma {:induction false} CopyAppend(a: seq<Node>, k: Node, state: Option<NodeState>)
    ensures CopyKids(a + [k], state) == CopyKids(a, state) + [Copied(k, state)]
  {
    if a == [] {
      assert a + [k] == [k] && [k][1..] == [];
    } else {
      CopyAppend(a[1..], k, state);
      assert (a + [k])[1..] == a[1..] + [k];
    }
  }

  lemma CopyMore(ks: seq<Node>, i: nat, state: Option<NodeState>)
    requires i < |ks|
    ensures CopyKids(ks[..i + 1], state) == CopyKids(ks[..i], state) + [Copied(ks[i], state)]
  {
    assert ks[..i + 1] == ks[..i] + [ks[i]];
    CopyAppend(ks[..i], ks[i], state);
  }

  // ---------------------------------------------------------------- keeping instances in order

  /** (*i)(sort_node->name): the child that holds the sort value. */
  function FindItem(cs: seq<ConfigItem>, name: string, from: nat): (i: nat)
    requires from <= |cs|
    reads cs
    ensures from <= i <= |cs|
    decreases |cs| - from
  {
    if from == |cs| || (cs[from].name == name && !cs[from].isTemplate) then from else FindItem(cs, name, from + 1)
  }

  function ItemSortValue(c: ConfigItem, ghost R: set<ConfigItem>): Option<string>
    requires c in R && forall d | d in c.children :: d in R
    reads R
  {
    match c.sortName
    case None => None
    case Some(name) =>
      var i := FindItem(c.children, name, 0);
      if i < |c.children| then Some(c.children[i].value) else None
  }

  function ItemBefore(rules: Rules, a: ConfigItem, b: ConfigItem, ghost R: set<ConfigItem>): bool
    requires a in R && (forall d | d in a.children :: d in R) && b in R && (forall d | d in b.children :: d in R)
    reads R
  {
    if ItemSortValue(a, R).Some? && ItemSortValue(b, R).Some? then
      rules.toInt(ItemSortValue(a, R).value) < rules.toInt(ItemSortValue(b, R).value)
    else rules.nameLess(a.name, b.name)
  }

  lemma FindItemFinds(t: ConfigItem, name: string, from: nat)
    requires t.Valid() && from <= |t.children|
    ensures FindItem(t.children, name, from) == Find(t.Kids(), name, from)
    decreases |t.children| - from
  {
    if from < |t.children| {
      ChildIn(t, from);
      ModelParts(t.children[from]);
      FindItemFinds(t, name, from + 1);
    }
  }

  lemma ItemBeforeIs(rules: Rules, a: ConfigItem, b: ConfigItem, R: set<ConfigItem>)
    requires a.Valid() && b.Valid() && a.repr <= R && b.repr <= R
    ensures a in R && (forall d | d in a.children :: d in R) && b in R && (forall d | d in b.children :: d in R)
    ensures ItemBefore(rules, a, b, R) == Before(rules, a.Model(), b.Model())
  {
    ItemSortValueIs(a, R);
    ItemSortValueIs(b, R);
  }

  lemma ItemSortValueIs(c: ConfigItem, R: set<ConfigItem>)
    requires c.Valid() && c.repr <= R
    ensures c in R && forall d | d in c.children :: d in R
    ensures ItemSortValue(c, R) == SortValue(c.Model()) && c.name == c.Model().name
  {
    ModelParts(c);
    if c.sortName.Some? {
      FindItemFinds(c, c.sortName.value, 0);
      var i := FindItem(c.children, c.sortName.value, 0);
      if i < |c.children| {
        ChildIn(c, i);
        ModelParts(c.children[i]);
      }
    }
  }

  /** One step of the sort: c goes in front of the first instance it comes before. */
  function InsertItem(rules: Rules, c: ConfigItem, cs: seq<ConfigItem>, ghost R: set<ConfigItem>): (r: seq<ConfigItem>)
    requires AllValid(cs, R) && c in R && c.repr <= R && c.Valid()
    reads R
    ensures multiset(r) == multiset(cs) + multiset{c} && AllValid(r, R)
    decreases |cs|
  {
    if cs == [] then [c]
    else
      ItemBeforeIs(rules, c, cs[0], R);
      assert cs == [cs[0]] + cs[1..];
      if ItemBefore(rules, c, cs[0], R) then [c] + cs else [cs[0]] + InsertItem(rules, c, cs[1..], R)
  }

  lemma {:induction false} InsertItemIs(rules: Rules, c: ConfigItem, cs: seq<ConfigItem>, R: set<ConfigItem>)
    requires AllValid(cs, R) && c in R && c.repr <= R && c.Valid()
    ensures Models(InsertItem(rules, c, cs, R), R) == Insert(rules, c.Model(), Models(cs, R))
    decreases |cs|
  {
    hide Before, ItemBefore, ConfigItem.Valid, ConfigItem.Model;
    if cs != [] {
      ItemBeforeIs(rules, c, cs[0], R);
      ModelsCons(cs[0], cs[1..], R);
      assert cs == [cs[0]] + cs[1..];
      if ItemBefore(rules, c, cs[0], R) {
        ModelsCons(c, cs, R);
      } else {
        InsertItemIs(rules, c, cs[1..], R);
        ModelsCons(cs[0], InsertItem(rules, c, cs[1..], R), R);
      }
    } else {
      ModelsCons(c, [], R);
    }
  }

  lemma ModelsCons(c: ConfigItem, cs: seq<ConfigItem>, R: set<ConfigItem>)
    requires AllValid(cs, R) && c in R && c.repr <= R && c.Valid()
    ensures AllValid([c] + cs, R) && Models([c] + cs, R) == [c.Model()] + Models(cs, R)
  {
    assert ([c] + cs)[1..] == cs;
  }

  function SortItems(rules: Rules, cs: seq<ConfigItem>, ghost R: set<ConfigItem>): (r: seq<ConfigItem>)
    requires AllValid(cs, R)
    reads R
    ensures multiset(r) == multiset(cs) && AllValid(r, R)
    decreases |cs|
  {
    if cs == [] then []
    else
      assert cs == cs[..|cs| - 1] + [cs[|cs| - 1]];
      InsertItem(rules, cs[|cs| - 1], SortItems(rules, cs[..|cs| - 1], R), R)
  }

  lemma {:induction false} SortItemsIs(rules: Rules, cs: seq<ConfigItem>, R: set<ConfigItem>)
    requires AllValid(cs, R)
    ensures Models(SortItems(rules, cs, R), R) == Sorted(rules, Models(cs, R))
    decreases |cs|
  {
    hide ConfigItem.Valid, ConfigItem.Model, Insert, InsertItem;
    if cs != [] {
      var front, last := cs[..|cs| - 1], cs[|cs| - 1];
      SortItemsIs(rules, front, R);
      assert Models(cs, R)[..|cs| - 1] == Models(front, R);
      InsertItemIs(rules, last, SortItems(rules, front, R), R);
    }
  }

  /** The instances of a template, in order. */
  method SortInstances(t: ConfigItem, rules: Rules)
    requires t.Valid() && t.children != []
    modifies t`children
    ensures t.Valid() && t.repr == old(t.repr) && t.parent == old(t.parent) && t.Fields() == old(t.Fields())
    ensures old(t.Kids()) != [] && t.Kids() == [old(t.Kids())[0]] + Sorted(rules, old(t.Kids())[1..])
  {
    hide Models, Sorted, SortItems;
    ghost var R := t.repr - {t};
    KidCount(t);
    OwnParts(t);
    var instances := t.children[1..];
    assert t.children == [t.children[0]] + instances;
    ModelsCons(t.children[0], instances, R);
    var sorted := SortItems(rules, instances, R);
    SortItemsIs(rules, instances, R);
    Permuted(t.children, [t.children[0]] + sorted);
    t.children := [t.children[0]] + sorted;
    Reordered(t, sorted);
  }

  lemma {:induction false} CountOnce<T>(s: seq<T>, i: nat)
    requires i < |s|
    ensures multiset(s)[s[i]] >= 1
  {
  }

  lemma CountTwice<T>(s: seq<T>, i: nat, j: nat)
    requires i < j < |s| && s[i] == s[j]
    ensures multiset(s)[s[i]] >= 2
  {
    assert s == s[..j] + s[j..];
    CountOnce(s[..j], i);
    CountOnce(s[j..], 0);
  }

  lemma {:induction false} CountAtMostOnce<T>(s: seq<T>, x: T)
    requires forall i, j :: 0 <= i < j < |s| ==> s[i] != s[j]
    ensures multiset(s)[x] <= 1
  {
    if s != [] {
      CountAtMostOnce(s[1..], x);
      assert s == [s[0]] + s[1..];
      forall k | 0 <= k < |s[1..]| ensures s[1..][k] != s[0] {
        assert s[1..][k] == s[k + 1];
      }
    }
  }

  lemma OwnParts(t: ConfigItem)
    requires t.Valid()
    ensures forall i, j :: 0 <= i < j < |t.children| ==> t.children[i] != t.children[j]
    ensures forall c, d | c in t.children && d in t.children :: c != d ==> c.repr !! d.repr
  {
    forall i, j | 0 <= i < j < |t.children| ensures t.children[i] != t.children[j] {
      ChildIn(t, i);
      KidCount(t.children[i]);
    }
  }

  lemma Permuted<T>(a: seq<T>, b: seq<T>)
    requires multiset(a) == multiset(b) && forall i, j :: 0 <= i < j < |a| ==> a[i] != a[j]
    ensures forall i, j :: 0 <= i < j < |b| ==> b[i] != b[j]
    ensures forall x | x in b :: x in a
  {
    forall i, j | 0 <= i < j < |b| ensures b[i] != b[j] {
      if b[i] == b[j] {
        CountTwice(b, i, j);
        CountAtMostOnce(a, b[i]);
      }
    }
    forall x | x in b ensures x in a {
      assert x in multiset(b);
    }
  }

  /** The instances changed places. */
  twostate lemma Reordered(t: ConfigItem, new sorted: seq<ConfigItem>)
    requires old(allocated(sorted))
    requires old(t.Valid()) && old(t.children) != [] && t.children == [old(t.children)[0]] + sorted &&
             t.repr == old(t.repr)
    requires forall o | o in t.repr && o != t :: unchanged(o)
    requires forall c | c in t.children :: c in old(t.children)
    requires forall i, j :: 0 <= i < j < |t.children| ==> t.children[i] != t.children[j]
    requires old(forall c, d | c in t.children && d in t.children :: c != d ==> c.repr !! d.repr)
    requires old(AllValid(sorted, t.repr - {t}))
    ensures t.Valid() && old(t.Kids()) != [] && t.Kids() == [old(t.Kids())[0]] + old(Models(sorted, t.repr - {t}))
  {
    hide ConfigItem.Model, Models;
    forall c | c in old(t.children)
      ensures c.Valid() && c.parent == t && c in t.repr && c.repr <= t.repr && t !in c.repr && unchanged(c)
      ensures c.Model() == old(c.Model())
    {
    }
    assert t.Valid() by {
      forall j, k | 0 <= j < k < |t.children| ensures t.children[j].repr !! t.children[k].repr {
        assert t.children[j] in t.children && t.children[k] in t.children;
      }
    }
    ReorderedKids(t, sorted);
  }

  twostate lemma ReorderedKids(t: ConfigItem, new sorted: seq<ConfigItem>)
    requires old(allocated(sorted))
    requires old(t.Valid()) && old(t.children) != [] && t.children == [old(t.children)[0]] + sorted &&
             t.repr == old(t.repr)
    requires t.Valid() && old(AllValid(sorted, t.repr - {t}))
    requires forall c | c in t.children :: c in old(t.children) && c.Model() == old(c.Model())
    ensures old(t.Kids()) != [] && t.Kids() == [old(t.Kids())[0]] + old(Models(sorted, t.repr - {t}))
  {
    hide ConfigItem.Model, Models, ConfigItem.Kids;
    assert t.children[0] == old(t.children[0]) && t.children[0] in t.children;
    forall j | 0 <= j < |sorted| ensures t.Kids()[j + 1] == old(Models(sorted, t.repr - {t}))[j] {
      assert t.children[j + 1] == sorted[j] && sorted[j] in t.children;
    }
  }

  // ---------------------------------------------------------------- merge

  /** merge, on a definition whose instances have the shape of their templates. */
  method Merge(def: ConfigItem, contents: seq<File>, set': bool, rules: Rules) returns (ok: bool)
    requires def.Valid() && Conforms(def.Kids())
    modifies def.repr
    ensures def.Valid() && fresh(def.repr - old(def.repr)) && old(def.repr) <= def.repr
    ensures def.parent == old(def.parent) && def.Fields() == old(def.Fields())
    ensures (def.Kids(), ok) == MergeKids(old(def.Kids()), contents, set', rules)
    decreases contents, 0
  {
    hide ConfigItem.Valid, ConfigItem.Model, ConfigItem.Kids, Conforms, MergeOne;
    ghost var all := MergeKids(def.Kids(), contents, set', rules);
    for i := 0 to |contents|
      invariant def.Valid() && fresh(def.repr - old(def.repr)) && old(def.repr) <= def.repr
      invariant def.parent == old(def.parent) && def.Fields() == old(def.Fields())
      invariant Conforms(def.Kids()) && MergeKids(def.Kids(), contents[i..], set', rules) == all
    {
      MergeOneSucceedsIff(def.Kids(), contents[i], set', rules);
      assert contents[i..][1..] == contents[i + 1..];
      ok := MergeNode(def, contents[i], set', rules);
      if !ok {
        return;
      }
    }
    ok := true;
  }

  method MergeNode(def: ConfigItem, f: File, set': bool, rules: Rules) returns (ok: bool)
    requires def.Valid() && Conforms(def.Kids())
    modifies def.repr
    ensures def.Valid() && fresh(def.repr - old(def.repr)) && old(def.repr) <= def.repr
    ensures def.parent == old(def.parent) && def.Fields() == old(def.Fields())
    ensures (def.Kids(), ok) == MergeOne(old(def.Kids()), f, set', rules)
    decreases f, 2
  {
    hide ConfigItem.Valid, ConfigItem.Model, ConfigItem.Kids, Conforms, MergeKids, MergeInstance, FieldsOf, SkeletonOf;
    KidCount(def);
    ghost var ks := def.Kids();
    var j := SearchChild(def, f.name);
    FoundAt(ks, f.name, j);
    if j == |def.children| {
      return false;
    }
    ChildIn(def, j);
    ModelParts(def.children[j]);
    TemplatesFirst(ks, j);
    if def.children[j].isTemplate {
      ok := MergeTemplate(def, f, set', rules);
    } else {
      ok := MergeNamed(def, j, f, set', rules);
    }
  }

  /** The first child that is a template or has this name. */
  method SearchChild(def: ConfigItem, name: string) returns (j: nat)
    requires def.Valid()
    ensures j <= |def.children| == |def.Kids()|
    ensures forall i :: 0 <= i < j ==> !def.Kids()[i].isTemplate && def.Kids()[i].name != name
    ensures j < |def.children| ==> def.Kids()[j].isTemplate || def.Kids()[j].name == name
  {
    j := 0;
    while j < |def.children| && !def.children[j].isTemplate && def.children[j].name != name
      invariant j <= |def.children|
      invariant forall i :: 0 <= i < j ==> !def.children[i].isTemplate && def.children[i].name != name
    {
      j := j + 1;
    }
    forall i | 0 <= i < |def.children|
      ensures def.Kids()[i].isTemplate == def.children[i].isTemplate && def.Kids()[i].name == def.children[i].name
    {
      ChildIn(def, i);
      ModelParts(def.children[i]);
    }
  }

  /** The first instance with this name. */
  method SearchInstance(def: ConfigItem, name: string) returns (k: nat)
    requires def.Valid() && def.children != []
    ensures 1 <= k <= |def.children| == |def.Kids()|
    ensures forall i :: 1 <= i < k ==> def.Kids()[i].name != name
    ensures k < |def.children| ==> def.Kids()[k].name == name
  {
    k := 1;
    while k < |def.children| && def.children[k].name != name
      invariant k <= |def.children| && forall i :: 1 <= i < k ==> def.children[i].name != name
    {
      k := k + 1;
    }
    forall i | 0 <= i < |def.children| ensures def.Kids()[i].name == def.children[i].name {
      ChildIn(def, i);
      ModelParts(def.children[i]);
    }
  }

  /** A child that the contents name. */
  method MergeNamed(def: ConfigItem, j: nat, f: File, set': bool, rules: Rules) returns (ok: bool)
    requires def.Valid() && j < |def.children| && j < |def.Kids()| && Conforms(def.Kids()[j].kids)
    modifies def.repr
    ensures def.Valid() && fresh(def.repr - old(def.repr)) && old(def.repr) <= def.repr
    ensures def.parent == old(def.parent) && def.Fields() == old(def.Fields())
    ensures var k := old(def.Kids())[j];
            (def.Kids(), ok)
            == if f.nodeType == Item && !Fits(rules, k.typ, f.value) then (old(def.Kids()), false)
               else
                 var d := if f.nodeType == Item then Assigned(k, f.value, set') else k;
                 var (kids, ok) := MergeKids(d.kids, f.kids, set', rules);
                 (old(def.Kids())[j := d.(kids := kids)], ok)
    decreases f, 0
  {
    hide ConfigItem.Valid, ConfigItem.Model, ConfigItem.Kids, Conforms, MergeKids;
    ChildIn(def, j);
    ModelParts(def.children[j]);
    if f.nodeType == Item {
      if rules.hasPattern(def.children[j].typ) && !rules.matches(def.children[j].typ, f.value) {
        return false;
      }
      AssignChild(def, j, f.value, set');
    }
    ghost var d := def.Kids()[j];
    assert def.Kids() == old(def.Kids())[j := d];
    ok := MergeBelow(def, j, f.kids, set', rules);
    Overwritten(old(def.Kids()), j, d, def.Kids()[j]);
  }

  lemma Overwritten<T>(s: seq<T>, j: nat, a: T, b: T)
    requires j < |s|
    ensures s[j := a][j := b] == s[j := b]
  {
  }

  /** Merges into the j-th child. */
  method MergeBelow(def: ConfigItem, j: nat, fs: seq<File>, set': bool, rules: Rules) returns (ok: bool)
    requires def.Valid() && j < |def.children| && j < |def.Kids()| && Conforms(def.Kids()[j].kids)
    modifies def.repr
    ensures def.Valid() && fresh(def.repr - old(def.repr)) && old(def.repr) <= def.repr
    ensures def.parent == old(def.parent) && def.Fields() == old(def.Fields())
    ensures var k := old(def.Kids())[j];
            var (kids, ok') := MergeKids(k.kids, fs, set', rules);
            ok == ok' && def.Kids() == old(def.Kids())[j := k.(kids := kids)]
    decreases fs, 1
  {
    hide ConfigItem.Valid, ConfigItem.Model, ConfigItem.Kids, Conforms, MergeKids;
    ChildIn(def, j);
    var d := def.children[j];
    ModelParts(d);
    ok := Merge(d, fs, set', rules);
    def.repr := def.repr + d.repr;
    ChildGrew(def, j);
    ModelParts(d);
  }

  /** Gives the j-th child its value from the file. */
  method AssignChild(def: ConfigItem, j: nat, value: string, set': bool)
    requires def.Valid() && j < |def.children| && j < |def.Kids()|
    modifies def.repr
    ensures def.Valid() && def.repr == old(def.repr) && def.children == old(def.children)
    ensures def.parent == old(def.parent) && def.Fields() == old(def.Fields())
    ensures def.Kids() == old(def.Kids())[j := Assigned(old(def.Kids())[j], value, set')]
  {
    hide ConfigItem.Valid, ConfigItem.Model, ConfigItem.Kids;
    ChildIn(def, j);
    var d := def.children[j];
    ModelParts(d);
    Assign(d, value, set');
    ChildGrew(def, j);
    ModelParts(d);
  }

  method Assign(d: ConfigItem, value: string, set': bool)
    requires d.Valid()
    modifies d`value, d`newValue, d`state
    ensures d.Valid() && d.Kids() == old(d.Kids()) && d.Fields() == Assigned(old(d.Fields()), value, set')
  {
    hide ConfigItem.Valid, ConfigItem.Kids;
    if !set' {
      d.value := value;
    }
    d.newValue := value;
    if set' {
      d.state := Modified;
    }
    FieldsChanged(d);
  }

  /** An instance that the contents name: goes into the one there is, or makes a new one from the template. */
  method MergeTemplate(def: ConfigItem, f: File, set': bool, rules: Rules) returns (ok: bool)
    requires def.Valid() && HasTemplate(def.Kids()) && Conforms(def.Kids())
    modifies def.repr
    ensures def.Valid() && fresh(def.repr - old(def.repr)) && old(def.repr) <= def.repr
    ensures def.parent == old(def.parent) && def.Fields() == old(def.Fields())
    ensures (def.Kids(), ok) == MergeInstance(old(def.Kids()), f, set', rules)
    decreases f, 1
  {
    hide ConfigItem.Valid, ConfigItem.Model, ConfigItem.Kids, Conforms, MergeKids, WithInstance, NewInstance;
    KidCount(def);
    ghost var ks := def.Kids();
    ChildIn(def, 0);
    var tmpl := def.children[0];
    ModelParts(tmpl);
    if f.nodeType != Block {
      return false;
    }
    if rules.hasPattern(tmpl.typ) && !rules.matches(tmpl.typ, f.name) {
      return false;
    }
    var k := |def.children|;
    if set' {
      k := SearchInstance(def, f.name);
      InstanceAt(ks, f.name, k);
    }
    if k < |def.children| {
      ChildIn(def, k);
      ModelParts(def.children[k]);
      ok := MergeExisting(def, k, f, set', rules);
    } else {
      ok := MergeFresh(def, f, set', rules);
    }
  }

  method MergeExisting(def: ConfigItem, k: nat, f: File, set': bool, rules: Rules) returns (ok: bool)
    requires def.Valid() && k < |def.children| && k < |def.Kids()| && Conforms(def.Kids())
    modifies def.repr
    ensures def.Valid() && fresh(def.repr - old(def.repr)) && old(def.repr) <= def.repr
    ensures def.parent == old(def.parent) && def.Fields() == old(def.Fields())
    ensures var d := old(def.Kids())[k].(state := Modified, isNew := false);
            var (kids, ok') := MergeKids(d.kids, f.kids, set', rules);
            def.Kids() == old(def.Kids())[k := d.(kids := kids)] && ok == ok'
    decreases f, 0
  {
    hide ConfigItem.Valid, ConfigItem.Model, ConfigItem.Kids, Conforms, MergeKids;
    ConformsAt(def.Kids(), k);
    ChildIn(def, k);
    var node := def.children[k];
    ModelParts(node);
    node.state, node.isNew := Modified, false;
    FieldsChanged(node);
    ok := Merge(node, f.kids, set', rules);
    def.repr := def.repr + node.repr;
    ChildGrew(def, k);
    ModelParts(node);
  }

  method MergeFresh(def: ConfigItem, f: File, set': bool, rules: Rules) returns (ok: bool)
    requires def.Valid() && HasTemplate(def.Kids()) && Conforms(def.Kids())
    modifies def.repr
    ensures def.Valid() && fresh(def.repr - old(def.repr)) && old(def.repr) <= def.repr
    ensures def.parent == old(def.parent) && def.Fields() == old(def.Fields())
    ensures var d := NewInstance(old(def.Kids())[0], f.name, set');
            var (kids, ok') := MergeKids(d.kids, f.kids, set', rules);
            && ok == ok'
            && def.Kids() == if ok then WithInstance(old(def.Kids()), d.(kids := kids), rules) else old(def.Kids())
    decreases f, 0
  {
    hide ConfigItem.Valid, ConfigItem.Model, ConfigItem.Kids, Conforms, MergeKids, WithInstance, CopyKids;
    KidCount(def);
    ChildIn(def, 0);
    ModelParts(def.children[0]);
    var node := MakeInstance(def, f.name, set');
    Untouched(def);
    ModelParts(node);
    ok := Merge(node, f.kids, set', rules);
    ModelParts(node);
    Untouched(def);
    if !ok {
      return;
    }
    AddInstance(def, node, rules);
  }

  /** The new instance joins the others, which are then sorted unless instances are kept as they come. */
  method AddInstance(def: ConfigItem, node: ConfigItem, rules: Rules)
    requires def.Valid() && HasTemplate(def.Kids()) && node.Valid() && node.parent == def && node.repr !! def.repr
    modifies def.repr
    ensures def.Valid() && def.repr == old(def.repr + node.repr)
    ensures def.parent == old(def.parent) && def.Fields() == old(def.Fields())
    ensures def.Kids() == WithInstance(old(def.Kids()), old(node.Model()), rules)
  {
    hide ConfigItem.Valid, ConfigItem.Model, ConfigItem.Kids, Sorted;
    ghost var ks := def.Kids();
    ModelParts(node);
    KidCount(def);
    ModelParts(def);
    def.children := def.children + [node];
    def.repr := def.repr + node.repr;
    ChildAdded(def, node);
    if !node.isEmpty {
      SortInstances(def, rules);
      assert (ks + [node.Model()])[1..] == ks[1..] + [node.Model()];
    }
  }

  /** A new node like the template, without children yet. */
  method EmptyInstance(tmpl: ConfigItem, name: string, set': bool) returns (node: ConfigItem)
    ensures node.Valid() && fresh(node) && node.repr == {node} && node.parent == tmpl.parent && node.Kids() == []
    ensures node.Fields() == Node(name, Block, "", "", "", if set' then Modified else Ready, false, tmpl.isEmpty, set',
                                  tmpl.sortName, [])
  {
    hide ConfigItem.Valid, ConfigItem.Model, ConfigItem.Kids;
    node := new ConfigItem(name, Block);
    ModelParts(node);
    label made:
    node.parent, node.sortName, node.isEmpty := tmpl.parent, tmpl.sortName, tmpl.isEmpty;
    if set' {
      node.state, node.isNew := Modified, true;
    }
    FieldsChanged@made(node);
  }

  /** A new node with the children of the template. */
  method MakeInstance(def: ConfigItem, name: string, set': bool) returns (node: ConfigItem)
    requires def.Valid() && HasTemplate(def.Kids()) && Conforms(def.Kids())
    ensures node.Valid() && fresh(node.repr) && node.parent == def &&
            node.Model() == NewInstance(old(def.Kids())[0], name, set')
    ensures Conforms(node.Kids())
  {
    hide ConfigItem.Valid, ConfigItem.Model, ConfigItem.Kids, Conforms, CopyKids;
    ghost var tmplModel := def.Kids()[0];
    ConformsAt(def.Kids(), 0);
    CopyConforms(tmplModel.kids, None);
    KidCount(def);
    ChildIn(def, 0);
    var tmpl := def.children[0];
    ModelParts(tmpl);
    node := EmptyInstance(tmpl, name, set');
    Untouched(tmpl);
    CopyNodes(tmpl, node, None);
    ModelParts(node);
    assert [] + CopyKids(tmplModel.kids, None) == CopyKids(tmplModel.kids, None);
  }

  lemma FoundAt(ks: seq<Node>, name: string, j: nat)
    requires j <= |ks| && (forall i :: 0 <= i < j ==> !ks[i].isTemplate && ks[i].name != name)
    ensures j == |ks| || (!ks[j].isTemplate && ks[j].name == name) ==> Find(ks, name, 0) == j
  {
  }

  lemma InstanceAt(ks: seq<Node>, name: string, k: nat)
    requires 1 <= k <= |ks| && (forall i :: 1 <= i < k ==> ks[i].name != name) && (k < |ks| ==> ks[k].name == name)
    ensures FindInstance(ks, name, 1) == k
  {
  }

  lemma TemplatesFirst(ks: seq<Node>, j: nat)
    requires Conforms(ks) && j < |ks|
    ensures ks[j].isTemplate <==> j == 0 && HasTemplate(ks)
    ensures Conforms(ks[j].kids)
  {
    assert ks[j] in ks;
  }

  lemma ConformsAt(ks: seq<Node>, j: nat)
    requires Conforms(ks) && j < |ks|
    ensures Conforms(ks[j].kids)
  {
    assert ks[j] in ks;
  }

  // ---------------------------------------------------------------- validate

  /** validate leaves the tree alone: it checks instances against throwaway copies of the template. */
  method ValidateContents(def: ConfigItem, contents: seq<File>, rules: Rules) returns (ok: bool)
    requires def.Valid() && Conforms(def.Kids())
    ensures ok == Validate(def.Kids(), contents, rules)
    decreases contents, 0
  {
    hide ConfigItem.Model, ConfigItem.Kids, Conforms, ValidateOne;
    for i := 0 to |contents|
      invariant Validate(def.Kids(), contents[i..], rules) == Validate(def.Kids(), contents, rules)
    {
      assert contents[i..][1..] == contents[i + 1..];
      ok := ValidateNode(def, contents[i], rules);
      if !ok {
        return;
      }
    }
    ok := true;
  }

  method ValidateNode(def: ConfigItem, f: File, rules: Rules) returns (ok: bool)
    requires def.Valid() && Conforms(def.Kids())
    ensures ok == ValidateOne(def.Kids(), f, rules)
    decreases f, 1
  {
    hide ConfigItem.Model, ConfigItem.Kids, Conforms, Validate, CopyKids;
    ghost var ks := def.Kids();
    KidCount(def);
    var j := SearchChild(def, f.name);
    FoundAt(ks, f.name, j);
    if j == |def.children| {
      NotFound(ks, f, rules);
      return false;
    }
    ChildIn(def, j);
    ModelParts(def.children[j]);
    TemplatesFirst(ks, j);
    if def.children[j].isTemplate {
      if f.nodeType != Block {
        return false;
      }
      ok := ValidateInstance(def, f, rules);
    } else {
      if f.nodeType == Item && rules.hasPattern(def.children[j].typ) && !rules.matches(def.children[j].typ, f.value) {
        return false;
      }
      ok := ValidateContents(def.children[j], f.kids, rules);
    }
  }

  method ValidateInstance(def: ConfigItem, f: File, rules: Rules) returns (ok: bool)
    requires def.Valid() && HasTemplate(def.Kids()) && Conforms(def.Kids())
    ensures ok == Validate(CopyKids(def.Kids()[0].kids, None), f.kids, rules)
    decreases f, 0
  {
    hide ConfigItem.Model, ConfigItem.Kids, Conforms, Validate, CopyKids;
    ghost var tmplModel := def.Kids()[0];
    ConformsAt(def.Kids(), 0);
    CopyConforms(tmplModel.kids, None);
    KidCount(def);
    ChildIn(def, 0);
    var tmpl := def.children[0];
    ModelParts(tmpl);
    var node := new ConfigItem(f.name, Block);
    ModelParts(node);
    label made:
    node.parent := tmpl.parent;
    FieldsChanged@made(node);
    CopyNodes(tmpl, node, None);
    assert [] + CopyKids(tmplModel.kids, None) == CopyKids(tmplModel.kids, None);
    ok := ValidateContents(node, f.kids, rules);
  }

  lemma NotFound(ks: seq<Node>, f: File, rules: Rules)
    requires forall i :: 0 <= i < |ks| ==> !ks[i].isTemplate && ks[i].name != f.name
    ensures !ValidateOne(ks, f, rules)
  {
  }

  // ---------------------------------------------------------------- the file form of show_config

  method ShowSize(t: ConfigItem, committed: bool) returns (n: nat)
    requires t.Valid()
    ensures n == CF.PrintSize(t.Kids(), t.isEmpty, committed)
    decreases t.repr
  {
    hide ConfigItem.Model, ConfigItem.Kids, CF.SizeEach;
    ghost var ks := t.Kids();
    KidCount(t);
    SizeEnds(ks, committed);
    n := if t.isEmpty then 1 else 0;
    for i := 0 to |t.children|
      invariant n + CF.SizeEach(ks[i..], committed) == CF.PrintSize(ks, t.isEmpty, committed)
    {
      ChildIn(t, i);
      ModelParts(t.children[i]);
      SizeStep(ks, i, committed);
      var c := t.children[i];
      if !Hidden(c, committed) {
        var size;
        if c.nodeType == Block {
          size := ShowSize(c, committed);
        } else {
          size := |if committed then c.value else c.newValue|;
        }
        n := n + size;
      }
    }
  }

  function Hidden(c: ConfigItem, committed: bool): bool
    reads c
  {
    c.isTemplate || if c.nodeType == Block then (if committed then c.isNew else c.state == Deleted)
                    else (c.newValue == "" && c.state != Deleted) || (!committed && c.state == Deleted)
  }

  lemma SizeEnds(ks: seq<Node>, committed: bool)
    ensures ks[0..] == ks && CF.SizeEach(ks[|ks|..], committed) == 0
  {
  }

  lemma SizeStep(ks: seq<Node>, i: nat, committed: bool)
    requires i < |ks|
    ensures CF.SizeEach(ks[i..], committed)
            == (if CF.Skipped(ks[i], committed) then 0
                else if ks[i].nodeType == Block then CF.PrintSize(ks[i].kids, ks[i].isEmpty, committed)
                else |CF.PrintValue(ks[i], committed)|)
               + CF.SizeEach(ks[i + 1..], committed)
  {
    assert ks[i..][1..] == ks[i + 1..];
  }

  /** Blocks with nothing in them are left out; a block marked empty is always printed. */
  method ShowConfig(t: ConfigItem, committed: bool) returns (out: seq<CF.Token>)
    requires t.Valid()
    ensures out == CF.Print(t.Kids(), committed)
    decreases t.repr, 1
  {
    hide ConfigItem.Model, ConfigItem.Kids, CF.Print, CF.PrintNode;
    ghost var ks := t.Kids();
    KidCount(t);
    PrintEnds(ks, committed);
    out := [];
    for i := 0 to |t.children|
      invariant out + CF.Print(ks[i..], committed) == CF.Print(ks, committed)
    {
      ChildIn(t, i);
      PrintStep(ks, i, committed);
      var one := ShowNode(t.children[i], committed);
      Associative(out, one, CF.Print(ks[i + 1..], committed));
      out := out + one;
    }
    assert out + [] == out;
  }

  method ShowNode(c: ConfigItem, committed: bool) returns (out: seq<CF.Token>)
    requires c.Valid()
    ensures out == CF.PrintNode(c.Model(), committed)
    decreases c.repr, 2
  {
    hide ConfigItem.Model, ConfigItem.Kids, CF.Print, CF.PrintSize;
    ModelParts(c);
    if Hidden(c, committed) {
      return [];
    }
    if c.nodeType == Block {
      var size := ShowSize(c, committed);
      if size == 0 {
        return [];
      }
      out := [CF.NameToken(c.name)];
      if !c.isEmpty {
        out := out + [CF.LBrace];
      }
      var inside := ShowConfig(c, committed);
      out := out + inside;
      if c.isEmpty {
        out := out + [CF.LBrace, CF.RBrace];
      } else {
        out := out + [CF.RBrace];
      }
    } else {
      var value := if committed then c.value else c.newValue;
      if value == "" {
        return [];
      }
      out := [CF.NameToken(c.name), CF.CString(value)];
    }
  }

  lemma PrintEnds(ks: seq<Node>, committed: bool)
    ensures ks[0..] == ks && CF.Print(ks[|ks|..], committed) == [] &&
            [] + CF.Print(ks, committed) == CF.Print(ks, committed)
  {
  }

  lemma PrintStep(ks: seq<Node>, i: nat, committed: bool)
    requires i < |ks|
    ensures CF.Print(ks[i..], committed) == CF.PrintNode(ks[i], committed) + CF.Print(ks[i + 1..], committed)
  {
    assert ks[i..][1..] == ks[i + 1..];
  }
}
