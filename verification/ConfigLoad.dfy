/** What load and commit make of a configuration (src/config/config.cpp, replace_prepare, merge and commit together). */
module ConfigLoad {
  import opened Wrappers
  import opened ConfigTree
  import opened ConfigTransaction
  import opened ConfigMerge
  import opened ConfigRollback

  // ---------------------------------------------------------------- names

  function NameOf(k: Node): seq<string> {
    [k.name]
  }

  /** Sibling names are unique. */
  ghost predicate NamesDiffer(ks: seq<Node>) {
    forall n: string :: Bag(ks, NameOf)[n] <= 1
  }

  lemma {:induction false} NameCounted(ks: seq<Node>, i: nat)
    requires i < |ks|
    ensures Bag(ks, NameOf)[ks[i].name] >= 1
  {
    if i > 0 {
      NameCounted(ks[1..], i - 1);
    }
  }

  lemma {:induction false} NamesDifferAt(ks: seq<Node>, i: nat, j: nat)
    requires NamesDiffer(ks) && i < j < |ks|
    ensures ks[i].name != ks[j].name
  {
    if i == 0 {
      NameCounted(ks[1..], j - 1);
      assert ks[1..][j - 1] == ks[j] && multiset(NameOf(ks[0]))[ks[0].name] == 1;
      assert Bag(ks, NameOf)[ks[0].name] <= 1;
    } else {
      assert NamesDiffer(ks[1..]) by {
        forall n: string ensures Bag(ks[1..], NameOf)[n] <= 1 {
          assert Bag(ks, NameOf)[n] <= 1;
        }
      }
      NamesDifferAt(ks[1..], i - 1, j - 1);
    }
  }

  lemma NamesDifferRest(ks: seq<Node>)
    requires ks != [] && NamesDiffer(ks)
    ensures NamesDiffer(ks[1..])
  {
    forall n: string ensures Bag(ks[1..], NameOf)[n] <= 1 {
      assert Bag(ks, NameOf)[n] <= 1;
    }
  }

  lemma OneName(k: Node)
    ensures NamesDiffer([k])
  {
    BagSingle(k, NameOf);
  }

  lemma {:induction false} NameAbsent(ks: seq<Node>, name: string)
    requires forall k | k in ks :: k.name != name
    ensures Bag(ks, NameOf)[name] == 0
  {
    if ks != [] {
      assert ks[0] in ks;
      NameAbsent(ks[1..], name);
    }
  }

  lemma {:induction false} SameNames(ks: seq<Node>, ks': seq<Node>)
    requires |ks| == |ks'| && forall i :: 0 <= i < |ks| ==> ks[i].name == ks'[i].name
    ensures Bag(ks, NameOf) == Bag(ks', NameOf)
  {
    if ks != [] {
      SameNames(ks[1..], ks'[1..]);
    }
  }

  /** The file's node of this name. */
  function Lookup(fs: seq<File>, name: string): (r: Option<File>)
    ensures r.Some? ==> r.value in fs && r.value.name == name
    ensures r.None? ==> forall f | f in fs :: f.name != name
  {
    if fs == [] then None else if fs[0].name == name then Some(fs[0]) else Lookup(fs[1..], name)
  }

  lemma LookupNone(fs: seq<File>, name: string)
    requires forall f | f in fs :: f.name != name
    ensures Lookup(fs, name) == None
  {
  }

  function HasName(ks: seq<Node>, name: string): bool {
    exists k :: k in ks && k.name == name
  }

  // ---------------------------------------------------------------- what a load means

  /** Inside a kept instance the file is laid over what is there: mentioned items change, mentioned instances are
      laid over or created, everything else stays. */
  function OverlayKids(ks: seq<Node>, fs: seq<File>): seq<Node>
    decreases fs, 2
  {
    if HasTemplate(ks) then [ks[0]] + OverlayEach(ks[1..], fs) + NewNodes(ks[0], ks[1..], fs) else OverlayEach(ks, fs)
  }

  function OverlayEach(ks: seq<Node>, fs: seq<File>): (r: seq<Node>)
    ensures |r| == |ks|
    decreases fs, 0, |ks|
  {
    if ks == [] then []
    else
      var f := Lookup(fs, ks[0].name);
      [if f.None? then ks[0] else Overlay(ks[0], f.value)] + OverlayEach(ks[1..], fs)
  }

  function Overlay(k: Node, f: File): Node
    decreases f, 3
  {
    if k.nodeType == Block then k.(kids := OverlayKids(k.kids, f.kids))
    else if f.nodeType == Item then k.(value := f.value, newValue := f.value)
    else k
  }

  /** Instances the file names and the tree does not have: the template, committed, with the file laid over it. */
  function NewNodes(tmpl: Node, ks: seq<Node>, fs: seq<File>): seq<Node>
    decreases fs, 1
  {
    if fs == [] then []
    else (if HasName(ks, fs[0].name) then [] else [NewNode(tmpl, fs[0])]) + NewNodes(tmpl, ks, fs[1..])
  }

  function NewNode(tmpl: Node, f: File): Node
    decreases f, 3
  {
    NewInstance(tmpl, f.name, false).(kids := OverlayKids(CommitKids(CopyKids(tmpl.kids, None), false), f.kids))
  }

  /** Outside instances each item becomes its value in the file or empty; of the instances of a template only those
      in the file remain. */
  function LoadKids(ks: seq<Node>, fs: seq<File>): seq<Node>
    decreases ks, 1
  {
    if HasTemplate(ks) then [ks[0]] + LoadInstances(ks[1..], fs) + NewNodes(ks[0], ks[1..], fs) else LoadEach(ks, fs)
  }

  function LoadEach(ks: seq<Node>, fs: seq<File>): (r: seq<Node>)
    ensures |r| == |ks|
    decreases ks, 0
  {
    if ks == [] then [] else [LoadNode(ks[0], Lookup(fs, ks[0].name))] + LoadEach(ks[1..], fs)
  }

  function LoadNode(k: Node, f: Option<File>): Node
    decreases k, 2
  {
    if k.nodeType == Block then k.(kids := LoadKids(k.kids, if f.Some? then f.value.kids else []))
    else
      var value := if f.Some? && f.value.nodeType == Item then f.value.value else "";
      k.(value := value, newValue := value)
  }

  function LoadInstances(ks: seq<Node>, fs: seq<File>): seq<Node> {
    if ks == [] then []
    else
      var f := Lookup(fs, ks[0].name);
      (if f.None? then [] else [Overlay(ks[0], f.value)]) + LoadInstances(ks[1..], fs)
  }

  // ---------------------------------------------------------------- merge, one node at a time

  /** How a node takes up the file: as an existing instance, with its values pending, or for good. */
  datatype How = IntoInstance | Pending | Final

  function Merged(k: Node, f: Option<File>, how: How, rules: Rules): Node {
    if f.None? then k
    else
      var d := if how == IntoInstance then k.(state := Modified, isNew := false)
               else if f.value.nodeType == Item then Assigned(k, f.value.value, how == Pending) else k;
      d.(kids := MergeKids(k.kids, f.value.kids, how != Final, rules).0)
  }

  function MergedEach(ks: seq<Node>, fs: seq<File>, how: How, rules: Rules): (r: seq<Node>)
    ensures |r| == |ks|
  {
    if ks == [] then [] else [Merged(ks[0], Lookup(fs, ks[0].name), how, rules)] + MergedEach(ks[1..], fs, how, rules)
  }

  lemma {:induction false} MergedAt(ks: seq<Node>, fs: seq<File>, how: How, rules: Rules, i: nat)
    requires i < |ks|
    ensures MergedEach(ks, fs, how, rules)[i] == Merged(ks[i], Lookup(fs, ks[i].name), how, rules)
  {
    if i > 0 {
      MergedAt(ks[1..], fs, how, rules, i - 1);
    }
  }

  /** Every merge below a node the file mentions succeeded. */
  ghost predicate Succeeded(ks: seq<Node>, fs: seq<File>, set': bool, rules: Rules) {
    forall k | k in ks :: Lookup(fs, k.name).Some? ==> MergeKids(k.kids, Lookup(fs, k.name).value.kids, set', rules).1
  }

  ghost predicate FilesDiffer(fs: seq<File>) {
    forall i, j :: 0 <= i < j < |fs| ==> fs[i].name != fs[j].name
  }

  lemma FilesDifferRest(fs: seq<File>)
    requires fs != [] && FilesDiffer(fs)
    ensures FilesDiffer(fs[1..]) && Lookup(fs[1..], fs[0].name) == None
    ensures Lookup(fs, fs[0].name) == Some(fs[0])
    ensures forall n: string :: n != fs[0].name ==> Lookup(fs, n) == Lookup(fs[1..], n)
  {
    forall f | f in fs[1..] ensures f.name != fs[0].name {
      var i :| 0 <= i < |fs[1..]| && fs[1..][i] == f;
      assert fs[i + 1] == f;
    }
    LookupNone(fs[1..], fs[0].name);
  }

  /** In a block of named children a successful merge changes each mentioned child on its own. */
  lemma {:induction false} MergeFixed(ks: seq<Node>, fs: seq<File>, how: How, rules: Rules)
    requires (forall k | k in ks :: !k.isTemplate) && NamesDiffer(ks) && FilesDiffer(fs) && how != IntoInstance
    requires MergeKids(ks, fs, how != Final, rules).1
    ensures MergeKids(ks, fs, how != Final, rules).0 == MergedEach(ks, fs, how, rules) &&
            Succeeded(ks, fs, how != Final, rules)
    decreases fs
  {
    hide NamesDiffer, FilesDiffer, MergeOne, Merged, Succeeded;
    if fs == [] {
      NothingMerged(ks, how, rules);
      forall i | 0 <= i < |ks| ensures MergedEach(ks, fs, how, rules)[i] == ks[i] {
        MergedAt(ks, fs, how, rules, i);
      }
    } else {
      var j, ks' := Find(ks, fs[0].name, 0), MergeOne(ks, fs[0], how != Final, rules).0;
      FilesDifferRest(fs);
      MergeNamed(ks, fs[0], how, rules);
      SameNames(ks, ks');
      StillDiffer(ks, ks');
      MergeFixed(ks', fs[1..], how, rules);
      MergeStep(ks, ks', fs, j, how, rules);
    }
  }

  lemma NothingMerged(ks: seq<Node>, how: How, rules: Rules)
    ensures Succeeded(ks, [], how != Final, rules)
    ensures forall k | k in ks :: Merged(k, Lookup([], k.name), how, rules) == k
  {
  }

  lemma MergeNamed(ks: seq<Node>, f: File, how: How, rules: Rules)
    requires (forall k | k in ks :: !k.isTemplate) && how != IntoInstance && MergeOne(ks, f, how != Final, rules).1
    ensures var j, ks' := Find(ks, f.name, 0), MergeOne(ks, f, how != Final, rules).0;
            && j < |ks| && ks' == ks[j := Merged(ks[j], Some(f), how, rules)]
            && MergeKids(ks[j].kids, f.kids, how != Final, rules).1
            && (forall k | k in ks' :: !k.isTemplate) && forall i :: 0 <= i < |ks| ==> ks'[i].name == ks[i].name
  {
    hide MergeKids;
    assert !HasTemplate(ks);
  }

  lemma StillDiffer(ks: seq<Node>, ks': seq<Node>)
    requires NamesDiffer(ks) && Bag(ks, NameOf) == Bag(ks', NameOf)
    ensures NamesDiffer(ks')
  {
  }

  /** The rest of the file does not come back to the child its first node changed. */
  lemma MergeStep(ks: seq<Node>, ks': seq<Node>, fs: seq<File>, j: nat, how: How, rules: Rules)
    requires fs != [] && FilesDiffer(fs) && NamesDiffer(ks) && j < |ks| && ks[j].name == fs[0].name
    requires ks' == ks[j := Merged(ks[j], Some(fs[0]), how, rules)]
    requires MergeKids(ks[j].kids, fs[0].kids, how != Final, rules).1 && Succeeded(ks', fs[1..], how != Final, rules)
    ensures MergedEach(ks', fs[1..], how, rules) == MergedEach(ks, fs, how, rules) &&
            Succeeded(ks, fs, how != Final, rules)
  {
    hide NamesDiffer, FilesDiffer, MergeKids, Lookup, Merged;
    FilesDifferRest(fs);
    forall i | 0 <= i < |ks| && i != j ensures ks[i].name != fs[0].name && ks'[i] == ks[i] && ks[i] in ks' {
      NamesDifferAt(ks, if i < j then i else j, if i < j then j else i);
      assert ks'[i] == ks[i];
    }
    StepOver(ks, ks', fs, j, how, rules);
  }

  lemma StepOver(ks: seq<Node>, ks': seq<Node>, fs: seq<File>, j: nat, how: How, rules: Rules)
    requires fs != [] && FilesDiffer(fs) && j < |ks| && ks[j].name == fs[0].name
    requires ks' == ks[j := Merged(ks[j], Some(fs[0]), how, rules)]
    requires forall i :: 0 <= i < |ks| && i != j ==> ks[i].name != fs[0].name
    ensures MergedEach(ks', fs[1..], how, rules) == MergedEach(ks, fs, how, rules)
  {
    hide FilesDiffer, MergeKids, Lookup;
    FilesDifferRest(fs);
    var now, want := MergedEach(ks', fs[1..], how, rules), MergedEach(ks, fs, how, rules);
    forall i | 0 <= i < |ks| ensures now[i] == want[i] {
      MergedAt(ks', fs[1..], how, rules, i);
      MergedAt(ks, fs, how, rules, i);
    }
    assert now == want;
  }

  // ---------------------------------------------------------------- merge into a list of instances

  /** The instances the file names beyond those there are, as merge leaves them. */
  function NewOnes(tmpl: Node, ks: seq<Node>, fs: seq<File>, rules: Rules): seq<Node> {
    if fs == [] then []
    else (if HasName(ks, fs[0].name) then [] else [NewOne(tmpl, fs[0], rules)]) + NewOnes(tmpl, ks, fs[1..], rules)
  }

  function NewOne(tmpl: Node, f: File, rules: Rules): Node {
    var d := NewInstance(tmpl, f.name, true);
    d.(kids := MergeKids(d.kids, f.kids, true, rules).0)
  }

  /** Every merge into a new instance succeeded. */
  ghost predicate NewSucceeded(tmpl: Node, ks: seq<Node>, fs: seq<File>, rules: Rules) {
    forall f | f in fs :: !HasName(ks, f.name) ==> MergeKids(CopyKids(tmpl.kids, None), f.kids, true, rules).1
  }

  lemma {:induction false} SameNewOnes(tmpl: Node, ks: seq<Node>, ks': seq<Node>, fs: seq<File>, rules: Rules)
    requires forall f | f in fs :: HasName(ks, f.name) == HasName(ks', f.name)
    ensures NewOnes(tmpl, ks, fs, rules) == NewOnes(tmpl, ks', fs, rules)
    ensures NewSucceeded(tmpl, ks, fs, rules) == NewSucceeded(tmpl, ks', fs, rules)
  {
    if fs != [] {
      assert fs[0] in fs;
      SameNewOnes(tmpl, ks, ks', fs[1..], rules);
    }
  }

  /** A bag of merged nodes, node by node. */
  lemma {:induction false} MergedBag<T>(ks: seq<Node>, fs: seq<File>, rules: Rules, g: Node -> seq<T>,
                                        gm: Node -> seq<T>)
    requires forall k :: gm(k) == g(Merged(k, Lookup(fs, k.name), IntoInstance, rules))
    ensures Bag(MergedEach(ks, fs, IntoInstance, rules), g) == Bag(ks, gm)
  {
    if ks != [] {
      MergedBag(ks[1..], fs, rules, g, gm);
      assert MergedEach(ks, fs, IntoInstance, rules)[1..] == MergedEach(ks[1..], fs, IntoInstance, rules);
    }
  }

  /** In a list a successful merge changes each mentioned instance on its own and adds the others the file names;
      the order of the instances is anybody's. */
  lemma {:induction false} MergeListed<T>(ks: seq<Node>, fs: seq<File>, rules: Rules, g: Node -> seq<T>)
    requires HasTemplate(ks) && NamesDiffer(ks[1..]) && FilesDiffer(fs) && MergeKids(ks, fs, true, rules).1
    ensures var ks' := MergeKids(ks, fs, true, rules).0;
            && HasTemplate(ks') && ks'[0] == ks[0]
            && Bag(ks'[1..], g) == Bag(MergedEach(ks[1..], fs, IntoInstance, rules), g)
               + Bag(NewOnes(ks[0], ks[1..], fs, rules), g)
    ensures Succeeded(ks[1..], fs, true, rules) && NewSucceeded(ks[0], ks[1..], fs, rules)
    ensures forall f | f in fs :: f.nodeType == Block
    decreases fs
  {
    hide NamesDiffer, FilesDiffer, Sorted, Succeeded, NewSucceeded;
    if fs == [] {
      ListedNothing(ks, rules, g);
    } else {
      var f, ks' := fs[0], MergeOne(ks, fs[0], true, rules).0;
      FilesDifferRest(fs);
      var j := FindInstance(ks, f.name, 1);
      if j < |ks| {
        MergeExisting(ks, f, j, rules);
        SameNames(ks[1..], ks'[1..]);
        StillDiffer(ks[1..], ks'[1..]);
        MergeListed(ks', fs[1..], rules, g);
        MergeStep(ks[1..], ks'[1..], fs, j - 1, IntoInstance, rules);
        SameNewNames(ks[0], ks[1..], ks'[1..], fs, j - 1, rules);
      } else {
        var k := NewOne(ks[0], f, rules);
        MergeCreates(ks, f, rules);
        WithInstanceBag(ks, k, rules, NameOf);
        AddedDiffers(ks[1..], k, ks'[1..]);
        MergeListed(ks', fs[1..], rules, g);
        ListedAdds(ks, ks', fs, k, rules, g);
      }
    }
  }

  lemma ListedNothing<T>(ks: seq<Node>, rules: Rules, g: Node -> seq<T>)
    requires HasTemplate(ks)
    ensures MergedEach(ks[1..], [], IntoInstance, rules) == ks[1..]
    ensures Succeeded(ks[1..], [], true, rules) && NewSucceeded(ks[0], ks[1..], [], rules)
  {
    forall i | 0 <= i < |ks[1..]| ensures MergedEach(ks[1..], [], IntoInstance, rules)[i] == ks[1..][i] {
      MergedAt(ks[1..], [], IntoInstance, rules, i);
    }
  }

  lemma WithInstanceBag<T>(ks: seq<Node>, k: Node, rules: Rules, g: Node -> seq<T>)
    requires HasTemplate(ks)
    ensures var ks' := WithInstance(ks, k, rules); HasTemplate(ks') && ks'[0] == ks[0]
    ensures Bag(WithInstance(ks, k, rules)[1..], g) == Bag(ks[1..], g) + multiset(g(k))
  {
    hide Sorted, Bag;
    var ks', all := WithInstance(ks, k, rules), ks[1..] + [k];
    BagAppend(ks[1..], [k], g);
    BagSingle(k, g);
    BagSorted(rules, all, g);
    assert ks'[1..] == if k.isEmpty then all else Sorted(rules, all);
  }

  lemma AddedDiffers(ks: seq<Node>, k: Node, ks': seq<Node>)
    requires NamesDiffer(ks) && (forall n | n in ks :: n.name != k.name)
    requires Bag(ks', NameOf) == Bag(ks, NameOf) + multiset(NameOf(k))
    ensures NamesDiffer(ks')
  {
    NameAbsent(ks, k.name);
    forall n: string ensures Bag(ks', NameOf)[n] <= 1 {
      assert Bag(ks, NameOf)[n] <= 1 && multiset([k.name])[n] <= 1;
    }
  }

  lemma MergeExisting(ks: seq<Node>, f: File, j: nat, rules: Rules)
    requires HasTemplate(ks) && 1 <= j == FindInstance(ks, f.name, 1) < |ks| && MergeOne(ks, f, true, rules).1
    ensures var ks' := MergeOne(ks, f, true, rules).0;
            && |ks'| == |ks| && ks'[0] == ks[0]
            && ks'[1..] == ks[1..][j - 1 := Merged(ks[j], Some(f), IntoInstance, rules)]
    ensures MergeKids(ks[j].kids, f.kids, true, rules).1 && f.nodeType == Block
  {
    hide MergeKids;
    assert MergeOne(ks, f, true, rules) == MergeInstance(ks, f, true, rules);
    assert ks[j := Merged(ks[j], Some(f), IntoInstance, rules)][1..]
           == ks[1..][j - 1 := Merged(ks[j], Some(f), IntoInstance, rules)];
  }

  lemma MergeCreates(ks: seq<Node>, f: File, rules: Rules)
    requires HasTemplate(ks) && FindInstance(ks, f.name, 1) == |ks| && MergeOne(ks, f, true, rules).1
    ensures MergeOne(ks, f, true, rules).0 == WithInstance(ks, NewOne(ks[0], f, rules), rules)
    ensures MergeKids(CopyKids(ks[0].kids, None), f.kids, true, rules).1 && f.nodeType == Block
    ensures forall n | n in ks[1..] :: n.name != f.name
  {
    hide MergeKids, WithInstance;
    assert MergeOne(ks, f, true, rules) == MergeInstance(ks, f, true, rules);
    forall n | n in ks[1..] ensures n.name != f.name {
      var i :| 0 <= i < |ks[1..]| && ks[1..][i] == n;
      assert ks[i + 1].name != f.name;
    }
  }

  lemma HasNameAt(ks: seq<Node>, i: nat)
    requires i < |ks|
    ensures HasName(ks, ks[i].name)
  {
    assert ks[i] in ks;
  }

  lemma SameNewNames(tmpl: Node, ks: seq<Node>, ks': seq<Node>, fs: seq<File>, j: nat, rules: Rules)
    requires |ks| == |ks'| && j < |ks| && fs != [] && ks[j].name == fs[0].name
    requires forall i :: 0 <= i < |ks| ==> ks'[i].name == ks[i].name
    requires NewSucceeded(tmpl, ks', fs[1..], rules)
    ensures NewOnes(tmpl, ks', fs[1..], rules) == NewOnes(tmpl, ks, fs, rules) && NewSucceeded(tmpl, ks, fs, rules)
  {
    hide MergeKids;
    forall n: string ensures HasName(ks, n) == HasName(ks', n) {
      if HasName(ks, n) {
        var i :| 0 <= i < |ks| && ks[i].name == n;
        HasNameAt(ks', i);
      }
      if HasName(ks', n) {
        var i :| 0 <= i < |ks'| && ks'[i].name == n;
        HasNameAt(ks, i);
      }
    }
    SameNewOnes(tmpl, ks, ks', fs[1..], rules);
    HasNameAt(ks, j);
    assert forall f | f in fs :: f == fs[0] || f in fs[1..];
  }

  lemma ListedAdds<T>(ks: seq<Node>, ks': seq<Node>, fs: seq<File>, k: Node, rules: Rules, g: Node -> seq<T>)
    requires HasTemplate(ks) && fs != [] && FilesDiffer(fs) && !HasName(ks[1..], fs[0].name)
    requires k == NewOne(ks[0], fs[0], rules) && ks' == WithInstance(ks, k, rules)
    requires MergeKids(CopyKids(ks[0].kids, None), fs[0].kids, true, rules).1
    requires HasTemplate(ks') && Succeeded(ks'[1..], fs[1..], true, rules) &&
             NewSucceeded(ks[0], ks'[1..], fs[1..], rules)
    ensures Bag(MergedEach(ks'[1..], fs[1..], IntoInstance, rules), g)
            + Bag(NewOnes(ks[0], ks'[1..], fs[1..], rules), g)
            == Bag(MergedEach(ks[1..], fs, IntoInstance, rules), g) + Bag(NewOnes(ks[0], ks[1..], fs, rules), g)
    ensures Succeeded(ks[1..], fs, true, rules) && NewSucceeded(ks[0], ks[1..], fs, rules)
  {
    hide MergeKids, Sorted, FilesDiffer, Lookup, Merged, WithInstance, Bag, MergedEach;
    var a, a', rest := ks[1..], ks'[1..], fs[1..];
    FilesDifferRest(fs);
    AddedNames(ks, k, rules);
    AddedEach(ks, ks', fs, k, rules, g);
    SameNewOnes(ks[0], a, a', rest, rules);
    assert NewOnes(ks[0], a, fs, rules) == [k] + NewOnes(ks[0], a, rest, rules);
    BagAppend([k], NewOnes(ks[0], a, rest, rules), g);
    BagSingle(k, g);
    assert forall f | f in fs :: f == fs[0] || f in rest;
    BagsAssociative(Bag(MergedEach(a, fs, IntoInstance, rules), g), multiset(g(k)),
                    Bag(NewOnes(ks[0], a, rest, rules), g));
  }

  lemma AddedNames(ks: seq<Node>, k: Node, rules: Rules)
    requires HasTemplate(ks)
    ensures var ks' := WithInstance(ks, k, rules);
            && ks' != [] && forall n: string :: HasName(ks'[1..], n) <==> HasName(ks[1..], n) || n == k.name
    ensures forall n | n in ks[1..] :: n in WithInstance(ks, k, rules)[1..]
  {
    hide Sorted;
    var ks', all := WithInstance(ks, k, rules), ks[1..] + [k];
    SortedPermutes(rules, all);
    assert ks'[1..] == if k.isEmpty then all else Sorted(rules, all);
    assert multiset(ks'[1..]) == multiset(all);
    assert forall n :: n in ks'[1..] <==> n in multiset(ks'[1..]);
    assert forall n :: n in all <==> n in multiset(all);
    assert k in all;
  }

  lemma AddedEach<T>(ks: seq<Node>, ks': seq<Node>, fs: seq<File>, k: Node, rules: Rules, g: Node -> seq<T>)
    requires HasTemplate(ks) && fs != [] && FilesDiffer(fs) && !HasName(ks[1..], fs[0].name)
    requires k.name == fs[0].name && ks' == WithInstance(ks, k, rules)
    requires HasTemplate(ks') && Succeeded(ks'[1..], fs[1..], true, rules)
    ensures Bag(MergedEach(ks'[1..], fs[1..], IntoInstance, rules), g)
            == Bag(MergedEach(ks[1..], fs, IntoInstance, rules), g) + multiset(g(k))
    ensures Succeeded(ks[1..], fs, true, rules)
  {
    hide MergeKids, Sorted, FilesDiffer, Lookup, WithInstance, Bag;
    var a, a', rest := ks[1..], ks'[1..], fs[1..];
    FilesDifferRest(fs);
    AddedNames(ks, k, rules);
    var gm := (n: Node) => g(Merged(n, Lookup(rest, n.name), IntoInstance, rules));
    MergedBag(a', rest, rules, g, gm);
    WithInstanceBag(ks, k, rules, gm);
    MergedBag(a, rest, rules, g, gm);
    var now, want := MergedEach(a, rest, IntoInstance, rules), MergedEach(a, fs, IntoInstance, rules);
    forall i | 0 <= i < |a| ensures now[i] == want[i] && a[i].name != fs[0].name {
      HasNameAt(a, i);
      MergedAt(a, rest, IntoInstance, rules, i);
      MergedAt(a, fs, IntoInstance, rules, i);
    }
    assert now == want;
  }

  // ---------------------------------------------------------------- what commit shows of a merge

  /** Nothing is pending, templates included, but that nodes may be marked MODIFIED: a command that creates an instance
      marks all it copies, and neither a commit nor a discard goes into the templates among it. */
  ghost predicate Settled(ks: seq<Node>)
    decreases ks
  {
    forall k | k in ks ::
      k.state != Deleted && !k.isNew && (k.nodeType == Item ==> k.newValue == k.value) && Settled(k.kids)
  }

  /** Sibling names are unique at every depth; a template's own name does not count. */
  ghost predicate AllNamesDiffer(ks: seq<Node>)
    decreases ks
  {
    NamesDiffer(if HasTemplate(ks) then ks[1..] else ks) && forall k | k in ks :: AllNamesDiffer(k.kids)
  }

  ghost predicate Calm(ks: seq<Node>) {
    InScope(ks) && Settled(ks) && AllNamesDiffer(ks)
  }

  /** A committed configuration. */
  ghost predicate Sound(ks: seq<Node>) {
    Calm(ks) && Clean(ks)
  }

  lemma CalmKids(ks: seq<Node>, k: Node)
    requires Calm(ks) && k in ks
    ensures Calm(k.kids) && NodeInScope(k) && k.state != Deleted && !k.isNew
    ensures k.nodeType == Item ==> k.newValue == k.value
  {
    assert NodeInScope(k);
  }

  lemma SoundKids(ks: seq<Node>, k: Node)
    requires Sound(ks) && k in ks && !k.isTemplate
    ensures Sound(k.kids) && NodeInScope(k) && k.state == Ready && !k.isNew
  {
    CalmKids(ks, k);
    assert CleanNode(k);
  }

  /** What a commit leaves of a settled node. */
  function Rested(k: Node): Node {
    if k.isTemplate then k else k.(state := Ready, kids := CommitKids(k.kids, false))
  }

  lemma RestedIs(k: Node)
    requires k.state != Deleted && !k.isNew && (k.nodeType == Item ==> k.newValue == k.value)
    ensures CommitNode(k, false) == [Rested(k)] && CommittedCanon(k) == Single(Rested(k))
  {
    hide CommitKids;
    CanonSingle(Rested(k));
  }

  lemma RestedFirst(ks: seq<Node>)
    requires ks != [] && Settled(ks)
    ensures CommitKids(ks, false) == [Rested(ks[0])] + CommitKids(ks[1..], false) && Settled(ks[1..])
  {
    hide CommitNode;
    assert ks[0] in ks;
    RestedIs(ks[0]);
  }

  lemma {:induction false} RestedAt(ks: seq<Node>, i: nat)
    requires i < |ks| && Settled(ks)
    ensures |CommitKids(ks, false)| == |ks| && CommitKids(ks, false)[i] == Rested(ks[i])
  {
    hide CommitKids, Settled, Rested;
    RestedFirst(ks);
    if |ks| > 1 {
      RestedAt(ks[1..], if i > 0 then i - 1 else 0);
    } else {
      assert ks[1..] == [] && CommitKids(ks[1..], false) == [] by { CommitNothing(); }
    }
  }

  lemma CommitNothing()
    ensures CommitKids([], false) == []
  {
  }

  function CommittedCanon(k: Node): seq<Canonical> {
    Canons(CommitNode(k, false))
  }

  function Single(k: Node): seq<Canonical> {
    [Canon(k)]
  }

  lemma {:induction false} CommitBag(ks: seq<Node>)
    ensures multiset(Canons(CommitKids(ks, false))) == Bag(ks, CommittedCanon)
  {
    hide CommitNode, Canon;
    if ks != [] {
      CommitBag(ks[1..]);
      CanonsAppend(CommitNode(ks[0], false), CommitKids(ks[1..], false));
    }
  }

  lemma {:induction false} CanonsBag(ks: seq<Node>)
    ensures multiset(Canons(ks)) == Bag(ks, Single)
  {
    if ks != [] {
      CanonsBag(ks[1..]);
    }
  }

  /** What a commit of these children is worth, up to the order of instances. */
  function After(ks: seq<Node>): (seq<Canonical>, multiset<Canonical>) {
    CanonKids(CommitKids(ks, false))
  }

  lemma AfterListed(ks: seq<Node>)
    requires HasTemplate(ks)
    ensures After(ks) == ([Canon(ks[0])], Bag(ks[1..], CommittedCanon))
  {
    CommitBag(ks[1..]);
    assert CommitKids(ks, false) == [ks[0]] + CommitKids(ks[1..], false);
    assert CommitKids(ks, false)[1..] == CommitKids(ks[1..], false);
  }

  lemma {:induction false} NoTemplateLeft(ks: seq<Node>)
    requires forall k | k in ks :: !k.isTemplate
    ensures !HasTemplate(CommitKids(ks, false))
  {
    if ks != [] {
      NoTemplateLeft(ks[1..]);
    }
  }

  lemma AfterFixed(ks: seq<Node>)
    requires forall k | k in ks :: !k.isTemplate
    ensures After(ks) == (Canons(CommitKids(ks, false)), multiset{})
  {
    NoTemplateLeft(ks);
  }

  lemma SettledCopies(ks: seq<Node>)
    requires Settled(ks)
    ensures CopyKids(ks, None) == ks
    decreases ks
  {
    if ks != [] {
      assert ks[0] in ks;
      SettledCopies(ks[0].kids);
      SettledCopies(ks[1..]);
    }
  }

  /** A mentioned node, merged and committed, is the file laid over what a commit leaves of it. */
  lemma MergedOverlays(k: Node, k0: Node, f: File, how: How, rules: Rules)
    requires k0 == k || (how == IntoInstance && k0 == k.(state := Deleted))
    requires NodeInScope(k) && k.state != Deleted && !k.isNew && !k.isTemplate
    requires k.nodeType == Item ==> k.newValue == k.value
    requires how != Final && (how == IntoInstance ==> k.nodeType == Block)
    requires After(MergeKids(k.kids, f.kids, true, rules).0)
             == CanonKids(OverlayKids(CommitKids(k.kids, false), f.kids))
    ensures CommittedCanon(Merged(k0, Some(f), how, rules)) == Single(Overlay(Rested(k), f))
  {
    hide MergeKids, CanonKids, OverlayKids, CommitKids;
    var kids := MergeKids(k.kids, f.kids, true, rules).0;
    var d := CommitNode(Merged(k0, Some(f), how, rules), false);
    assert d == [d[0]] && d[0].kids == CommitKids(kids, false);
    CanonSingle(d[0]);
    if k.nodeType == Item {
      NothingInItems(f.kids, rules);
      CommitNothing();
    }
    CanonIs(d[0], Overlay(Rested(k), f));
  }

  lemma CanonIs(a: Node, b: Node)
    requires Head(a) == Head(b) && CanonKids(a.kids) == CanonKids(b.kids)
    ensures Canon(a) == Canon(b)
  {
  }

  lemma NewOverlays(tmpl: Node, f: File, rules: Rules)
    requires After(MergeKids(CopyKids(tmpl.kids, None), f.kids, true, rules).0)
             == CanonKids(OverlayKids(CommitKids(CopyKids(tmpl.kids, None), false), f.kids))
    ensures CommittedCanon(NewOne(tmpl, f, rules)) == Single(NewNode(tmpl, f))
  {
    hide MergeKids, CanonKids, OverlayKids;
    var d := CommitNode(NewOne(tmpl, f, rules), false);
    assert d == [d[0]];
    CanonSingle(d[0]);
    CanonIs(d[0], NewNode(tmpl, f));
  }

  /** Inside an instance: merge and commit lay the file over what a commit leaves of what is there. */
  lemma {:induction false} OverlayMeaning(ks: seq<Node>, fs: seq<File>, rules: Rules)
    requires Calm(ks) && Unique(fs) && MergeKids(ks, fs, true, rules).1
    ensures After(MergeKids(ks, fs, true, rules).0) == CanonKids(OverlayKids(CommitKids(ks, false), fs))
    decreases fs, 2
  {
    hide MergeKids, After, Calm, Settled, Unique, NamesDiffer, FilesDiffer, Succeeded, NewSucceeded, CanonKids, Canons,
         CommitKids, OverlayKids;
    CalmNames(ks);
    UniqueFiles(fs);
    if HasTemplate(ks) {
      InstancesOf(ks);
      MergeListed(ks, fs, rules, CommittedCanon);
      OverlayEachMeaning(ks, ks[1..], fs, IntoInstance, rules);
      NewMeaning(ks, ks[1..], fs, fs, rules);
      ListedMeaning(ks, fs, rules);
    } else {
      FixedHasNoTemplate(ks);
      MergeFixed(ks, fs, Pending, rules);
      OverlayEachMeaning(ks, ks, fs, Pending, rules);
      FixedMeaning(ks, fs, rules);
    }
  }

  lemma ListedMeaning(ks: seq<Node>, fs: seq<File>, rules: Rules)
    requires Calm(ks) && HasTemplate(ks)
    requires var ks' := MergeKids(ks, fs, true, rules).0;
             && HasTemplate(ks') && ks'[0] == ks[0]
             && Bag(ks'[1..], CommittedCanon) == Bag(MergedEach(ks[1..], fs, IntoInstance, rules), CommittedCanon)
                                                 + Bag(NewOnes(ks[0], ks[1..], fs, rules), CommittedCanon)
    requires Bag(MergedEach(ks[1..], fs, IntoInstance, rules), CommittedCanon)
             == Bag(OverlayEach(CommitKids(ks[1..], false), fs), Single)
    requires Bag(NewOnes(ks[0], ks[1..], fs, rules), CommittedCanon) == Bag(NewNodes(ks[0], ks[1..], fs), Single)
    ensures After(MergeKids(ks, fs, true, rules).0) == CanonKids(OverlayKids(CommitKids(ks, false), fs))
  {
    hide MergeKids, After, Calm, CanonKids, Canons, CommitKids, Bag;
    var cs := CommitKids(ks, false);
    AfterListed(MergeKids(ks, fs, true, rules).0);
    RestedListed(ks, fs);
    ListedTogether(cs, OverlayEach(cs[1..], fs), NewNodes(cs[0], cs[1..], fs));
  }

  lemma FixedMeaning(ks: seq<Node>, fs: seq<File>, rules: Rules)
    requires forall k | k in ks :: !k.isTemplate
    requires MergeKids(ks, fs, true, rules).0 == MergedEach(ks, fs, Pending, rules)
    requires Canons(CommitKids(MergedEach(ks, fs, Pending, rules), false))
             == Canons(OverlayEach(CommitKids(ks, false), fs))
    ensures After(MergeKids(ks, fs, true, rules).0) == CanonKids(OverlayKids(CommitKids(ks, false), fs))
  {
    hide MergeKids, After, CanonKids, Canons, CommitKids;
    MergedNoTemplate(ks, fs, rules);
    AfterFixed(MergedEach(ks, fs, Pending, rules));
    NoTemplateLeft(ks);
    OverlaidNoTemplate(CommitKids(ks, false), fs);
    FixedCanon(OverlayEach(CommitKids(ks, false), fs));
  }

  lemma OverlaidNoTemplate(ks: seq<Node>, fs: seq<File>)
    requires !HasTemplate(ks)
    ensures !HasTemplate(OverlayEach(ks, fs))
  {
  }

  /** The list a commit leaves has the same template and instances of the same names. */
  lemma RestedListed(ks: seq<Node>, fs: seq<File>)
    requires Calm(ks) && HasTemplate(ks)
    ensures var cs := CommitKids(ks, false);
            && HasTemplate(cs) && cs[0] == ks[0] && cs[1..] == CommitKids(ks[1..], false)
            && NewNodes(ks[0], ks[1..], fs) == NewNodes(ks[0], cs[1..], fs)
  {
    hide CommitKids, NewNodes;
    RestedFirst(ks);
    var a, b := ks[1..], CommitKids(ks[1..], false);
    if a == [] {
      CommitNothing();
    } else {
      RestedAt(a, 0);
    }
    forall i | 0 <= i < |a| ensures b[i].name == a[i].name {
      RestedAt(a, i);
    }
    SameHasName(a, b);
    SameNewNodes(ks[0], a, b, fs);
  }

  lemma {:induction false} SameNewNodes(tmpl: Node, ks: seq<Node>, ks': seq<Node>, fs: seq<File>)
    requires forall n: string :: HasName(ks, n) == HasName(ks', n)
    ensures NewNodes(tmpl, ks, fs) == NewNodes(tmpl, ks', fs)
  {
    hide HasName, NewNode;
    if fs != [] {
      SameNewNodes(tmpl, ks, ks', fs[1..]);
    }
  }

  lemma CalmNames(ks: seq<Node>)
    requires Calm(ks)
    ensures NamesDiffer(if HasTemplate(ks) then ks[1..] else ks)
    ensures Settled(ks) && (ks != [] ==> Settled(ks[1..]))
  {
  }

  lemma UniqueFiles(fs: seq<File>)
    requires Unique(fs)
    ensures FilesDiffer(fs)
  {
  }

  lemma InstancesOf(ks: seq<Node>)
    requires Calm(ks) && HasTemplate(ks)
    ensures forall k | k in ks[1..] :: k in ks && !k.isTemplate && k.nodeType == Block
  {
    forall k | k in ks[1..] ensures k in ks && !k.isTemplate && k.nodeType == Block {
      var i :| 0 <= i < |ks[1..]| && ks[1..][i] == k;
      assert ks[i + 1] == k;
    }
  }

  lemma FixedHasNoTemplate(ks: seq<Node>)
    requires Calm(ks) && !HasTemplate(ks)
    ensures forall k | k in ks :: !k.isTemplate
  {
  }

  lemma MergedNoTemplate(ks: seq<Node>, fs: seq<File>, rules: Rules)
    requires forall k | k in ks :: !k.isTemplate
    ensures forall k | k in MergedEach(ks, fs, Pending, rules) :: !k.isTemplate
  {
    hide MergeKids;
    forall k | k in MergedEach(ks, fs, Pending, rules) ensures !k.isTemplate {
      var i :| 0 <= i < |ks| && MergedEach(ks, fs, Pending, rules)[i] == k;
      MergedAt(ks, fs, Pending, rules, i);
    }
  }

  lemma FixedCanon(ks: seq<Node>)
    requires !HasTemplate(ks)
    ensures CanonKids(ks) == (Canons(ks), multiset{})
  {
  }

  lemma ListedTogether(ks: seq<Node>, a: seq<Node>, b: seq<Node>)
    requires HasTemplate(ks)
    ensures CanonKids([ks[0]] + a + b) == ([Canon(ks[0])], Bag(a, Single) + Bag(b, Single))
  {
    assert ([ks[0]] + a + b)[1..] == a + b;
    CanonsBag(a + b);
    BagAppend(a, b, Single);
  }

  lemma UniqueKids(fs: seq<File>, f: File)
    requires Unique(fs) && f in fs
    ensures Unique(f.kids) && FilesDiffer(fs)
  {
  }

  lemma {:induction false} OverlayEachMeaning(all: seq<Node>, ks: seq<Node>, fs: seq<File>, how: How, rules: Rules)
    requires Calm(all) && Settled(ks) && Unique(fs) && Succeeded(ks, fs, true, rules) && how != Final
    requires forall k | k in ks :: k in all && !k.isTemplate && (how == IntoInstance ==> k.nodeType == Block)
    ensures Bag(MergedEach(ks, fs, how, rules), CommittedCanon) == Bag(OverlayEach(CommitKids(ks, false), fs), Single)
    ensures Canons(CommitKids(MergedEach(ks, fs, how, rules), false)) == Canons(OverlayEach(CommitKids(ks, false), fs))
    decreases fs, 1, |ks|
  {
    hide MergeKids, Calm, Settled, Unique, CommitNode, Merged, Canon, Overlay, Rested;
    if ks != [] {
      var f, k := Lookup(fs, ks[0].name), Rested(ks[0]);
      var m, o := Merged(ks[0], f, how, rules), if f.None? then k else Overlay(k, f.value);
      RestedFirst(ks);
      assert k.name == ks[0].name by { RestedName(ks[0]); }
      var cs := CommitKids(ks[1..], false);
      assert CommitKids(ks, false)[0] == k && CommitKids(ks, false)[1..] == cs;
      NodeMeaning(all, ks[0], fs, how, rules);
      OverlayEachMeaning(all, ks[1..], fs, how, rules);
      ConsBag(m, MergedEach(ks[1..], fs, how, rules), CommittedCanon);
      ConsBag(o, OverlayEach(cs, fs), Single);
      CommitCons(m, MergedEach(ks[1..], fs, how, rules));
      CanonsAppend([o], OverlayEach(cs, fs));
      CanonSingle(o);
    }
  }

  lemma RestedName(k: Node)
    ensures Rested(k).name == k.name
  {
  }

  lemma CommitCons(k: Node, ks: seq<Node>)
    ensures Canons(CommitKids([k] + ks, false)) == CommittedCanon(k) + Canons(CommitKids(ks, false))
  {
    assert ([k] + ks)[1..] == ks;
    CanonsAppend(CommitNode(k, false), CommitKids(ks, false));
  }

  lemma {:induction false} NodeMeaning(all: seq<Node>, k: Node, fs: seq<File>, how: How, rules: Rules)
    requires Calm(all) && k in all && Unique(fs) && !k.isTemplate && (how == IntoInstance ==> k.nodeType == Block) &&
             how != Final
    requires Lookup(fs, k.name).Some? ==> MergeKids(k.kids, Lookup(fs, k.name).value.kids, true, rules).1
    ensures var f := Lookup(fs, k.name);
            CommittedCanon(Merged(k, f, how, rules))
            == Single(if f.None? then Rested(k) else Overlay(Rested(k), f.value))
    decreases fs, 0
  {
    hide MergeKids, Unique, InScope, NamesDiffer, After, Rested;
    var f := Lookup(fs, k.name);
    CalmKids(all, k);
    if f.None? {
      RestedIs(k);
    } else {
      UniqueKids(fs, f.value);
      OverlayMeaning(k.kids, f.value.kids, rules);
      MergedOverlays(k, k, f.value, how, rules);
    }
  }

  lemma {:induction false} NewMeaning(all: seq<Node>, ks: seq<Node>, fs: seq<File>, some: seq<File>, rules: Rules)
    requires Calm(all) && HasTemplate(all) && Unique(fs) && (forall f | f in some :: f in fs)
    requires NewSucceeded(all[0], ks, some, rules)
    ensures Bag(NewOnes(all[0], ks, some, rules), CommittedCanon) == Bag(NewNodes(all[0], ks, some), Single)
    decreases fs, 1, |some|
  {
    hide MergeKids, Calm, Unique, CommittedCanon, NewOne, NewNode, Single, HasName;
    if some != [] {
      var f := some[0];
      NewMeaning(all, ks, fs, some[1..], rules);
      if !HasName(ks, f.name) {
        assert f in some;
        NewNodeMeaning(all, f, fs, rules);
        ConsBag(NewOne(all[0], f, rules), NewOnes(all[0], ks, some[1..], rules), CommittedCanon);
        ConsBag(NewNode(all[0], f), NewNodes(all[0], ks, some[1..]), Single);
      } else {
        assert [] + NewOnes(all[0], ks, some[1..], rules) == NewOnes(all[0], ks, some[1..], rules);
        assert [] + NewNodes(all[0], ks, some[1..]) == NewNodes(all[0], ks, some[1..]);
      }
    }
  }

  lemma {:induction false} NewNodeMeaning(all: seq<Node>, f: File, fs: seq<File>, rules: Rules)
    requires Calm(all) && HasTemplate(all) && Unique(fs) && f in fs
    requires MergeKids(CopyKids(all[0].kids, None), f.kids, true, rules).1
    ensures CommittedCanon(NewOne(all[0], f, rules)) == Single(NewNode(all[0], f))
    decreases fs, 0
  {
    hide MergeKids, Unique, InScope, NamesDiffer, After, NewOne, NewNode, CommittedCanon, Single;
    CalmKids(all, all[0]);
    SettledCopies(all[0].kids);
    UniqueKids(fs, f);
    OverlayMeaning(all[0].kids, f.kids, rules);
    NewOverlays(all[0], f, rules);
  }

  lemma ConsBag<T>(k: Node, ks: seq<Node>, g: Node -> seq<T>)
    ensures Bag([k] + ks, g) == multiset(g(k)) + Bag(ks, g)
  {
    assert ([k] + ks)[1..] == ks;
  }

  // ---------------------------------------------------------------- replace_prepare, merge and commit

  function PreparedNode(k: Node): Node {
    if k.nodeType == Item then k.(state := Deleted) else k.(kids := PrepareKids(k.kids))
  }

  lemma {:induction false} PreparedAt(ks: seq<Node>, i: nat)
    requires i < |ks|
    ensures PrepareEach(ks)[i] == PreparedNode(ks[i])
  {
    if i > 0 {
      PreparedAt(ks[1..], i - 1);
    }
  }

  lemma PreparedNames(ks: seq<Node>)
    ensures Bag(PrepareEach(ks), NameOf) == Bag(ks, NameOf)
    ensures (forall k | k in ks :: !k.isTemplate) ==> forall k | k in PrepareEach(ks) :: !k.isTemplate
  {
    var ps := PrepareEach(ks);
    forall i | 0 <= i < |ks| ensures ps[i].name == ks[i].name && ps[i].isTemplate == ks[i].isTemplate {
      PreparedAt(ks, i);
    }
    SameNames(ks, ps);
  }

  /** Load and commit on a clean tree: outside instances each item becomes its value in the file or empty; instances
      the file does not name are gone, those it names are kept with the file laid over them, and the rest of the file
      makes new ones from the template. */
  lemma {:induction false} LoadMeaning(ks: seq<Node>, fs: seq<File>, rules: Rules)
    requires Sound(ks) && Unique(fs) && MergeKids(PrepareKids(ks), fs, true, rules).1
    ensures After(MergeKids(PrepareKids(ks), fs, true, rules).0) == CanonKids(LoadKids(ks, fs))
    decreases ks, 2
  {
    hide MergeKids, After, Calm, Clean, Unique, NamesDiffer, FilesDiffer, Succeeded, NewSucceeded, CanonKids, Canons,
         CommitKids;
    CalmNames(ks);
    UniqueFiles(fs);
    if HasTemplate(ks) {
      LoadListed(ks, fs, rules);
    } else {
      FixedHasNoTemplate(ks);
      PreparedNames(ks);
      StillDiffer(ks, PrepareEach(ks));
      MergeFixed(PrepareEach(ks), fs, Pending, rules);
      LoadEachMeaning(ks, ks, fs, rules);
      MergedNoTemplate(PrepareEach(ks), fs, rules);
      AfterFixed(MergedEach(PrepareEach(ks), fs, Pending, rules));
      LoadNoTemplate(ks, fs);
      FixedCanon(LoadEach(ks, fs));
    }
  }

  lemma {:induction false} LoadNoTemplate(ks: seq<Node>, fs: seq<File>)
    requires forall k | k in ks :: !k.isTemplate
    ensures !HasTemplate(LoadEach(ks, fs))
  {
  }

  lemma {:induction false} LoadEachMeaning(all: seq<Node>, ks: seq<Node>, fs: seq<File>, rules: Rules)
    requires Sound(all) && Unique(fs) && Succeeded(PrepareEach(ks), fs, true, rules)
    requires forall k | k in ks :: k in all && !k.isTemplate
    ensures Canons(CommitKids(MergedEach(PrepareEach(ks), fs, Pending, rules), false)) == Canons(LoadEach(ks, fs))
    decreases all, 1, |ks|
  {
    hide MergeKids, Sound, Unique, CommitNode, Merged, Canon, LoadNode;
    if ks != [] {
      var f, k := Lookup(fs, ks[0].name), PreparedNode(ks[0]);
      var ps := PrepareEach(ks);
      assert ps == [k] + PrepareEach(ks[1..]) && ps[1..] == PrepareEach(ks[1..]) && k in ps && k.name == ks[0].name;
      assert forall p | p in PrepareEach(ks[1..]) :: p in ps;
      LoadNodeMeaning(all, ks[0], fs, rules);
      LoadEachMeaning(all, ks[1..], fs, rules);
      CommitCons(Merged(k, f, Pending, rules), MergedEach(PrepareEach(ks[1..]), fs, Pending, rules));
      CanonsAppend([LoadNode(ks[0], f)], LoadEach(ks[1..], fs));
      CanonSingle(LoadNode(ks[0], f));
    }
  }

  lemma {:induction false} LoadNodeMeaning(all: seq<Node>, k: Node, fs: seq<File>, rules: Rules)
    requires Sound(all) && k in all && Unique(fs) && !k.isTemplate
    requires Lookup(fs, k.name).Some? ==> MergeKids(PreparedNode(k).kids, Lookup(fs, k.name).value.kids, true, rules).1
    ensures CommittedCanon(Merged(PreparedNode(k), Lookup(fs, k.name), Pending, rules))
            == Single(LoadNode(k, Lookup(fs, k.name)))
    decreases all, 0
  {
    hide Unique, InScope, NamesDiffer, AllNamesDiffer, Settled;
    var f := Lookup(fs, k.name);
    SoundKids(all, k);
    var inside := if f.Some? then f.value.kids else [];
    if f.Some? {
      UniqueKids(fs, f.value);
    } else {
      NothingUnique();
    }
    if k.nodeType == Block {
      LoadMeaning(k.kids, inside, rules);
      BlockLoaded(k, f, rules);
    } else {
      NothingInItems(inside, rules);
      ItemLoaded(k, f, rules);
    }
  }

  lemma NothingUnique()
    ensures Unique([])
  {
  }

  lemma BlockLoaded(k: Node, f: Option<File>, rules: Rules)
    requires k.nodeType == Block && k.state == Ready && !k.isNew && !k.isTemplate
    requires var inside := if f.Some? then f.value.kids else [];
             After(MergeKids(PrepareKids(k.kids), inside, true, rules).0) == CanonKids(LoadKids(k.kids, inside))
    ensures CommittedCanon(Merged(PreparedNode(k), f, Pending, rules)) == Single(LoadNode(k, f))
  {
    hide CanonKids, LoadKids, PrepareKids;
    var d := CommitNode(Merged(PreparedNode(k), f, Pending, rules), false);
    assert MergeKids(PrepareKids(k.kids), [], true, rules).0 == PrepareKids(k.kids);
    assert d == [d[0]];
    CanonSingle(d[0]);
    CanonIs(d[0], LoadNode(k, f));
  }

  lemma ItemLoaded(k: Node, f: Option<File>, rules: Rules)
    requires k.nodeType == Item && k.kids == [] && k.state == Ready && !k.isNew && !k.isTemplate
    requires f.Some? ==> MergeKids([], f.value.kids, true, rules).0 == []
    ensures CommittedCanon(Merged(PreparedNode(k), f, Pending, rules)) == Single(LoadNode(k, f))
  {
    hide MergeKids;
    var m := Merged(PreparedNode(k), f, Pending, rules);
    assert m.kids == [] && CommitKids(m.kids, false) == [];
    assert CommitNode(m, false) == [LoadNode(k, f)];
    CanonSingle(LoadNode(k, f));
  }

  lemma LoadListed(ks: seq<Node>, fs: seq<File>, rules: Rules)
    requires Sound(ks) && HasTemplate(ks) && Unique(fs) && FilesDiffer(fs) && NamesDiffer(ks[1..])
    requires MergeKids(PrepareKids(ks), fs, true, rules).1
    ensures After(MergeKids(PrepareKids(ks), fs, true, rules).0) == CanonKids(LoadKids(ks, fs))
  {
    hide MergeKids, After, Calm, Clean, Unique, NamesDiffer, FilesDiffer, Succeeded, NewSucceeded, CanonKids, Canons,
         CommitKids;
    var ps := PrepareKids(ks);
    assert ps[0] == ks[0] && ps[1..] == DeleteAll(ks[1..]);
    InstancesOf(ks);
    SameNames(ks[1..], ps[1..]);
    StillDiffer(ks[1..], ps[1..]);
    MergeListed(ps, fs, rules, CommittedCanon);
    AfterListed(MergeKids(ps, fs, true, rules).0);
    DeletedMeaning(ks, ks[1..], fs, rules);
    SameHasName(ks[1..], ps[1..]);
    SameNewOnes(ks[0], ks[1..], ps[1..], fs, rules);
    NewMeaning(ks, ks[1..], fs, fs, rules);
    ListedTogether(ks, LoadInstances(ks[1..], fs), NewNodes(ks[0], ks[1..], fs));
  }

  lemma SameHasName(ks: seq<Node>, ks': seq<Node>)
    requires |ks| == |ks'| && forall i :: 0 <= i < |ks| ==> ks'[i].name == ks[i].name
    ensures forall n: string :: HasName(ks, n) == HasName(ks', n)
  {
    forall n: string ensures HasName(ks, n) == HasName(ks', n) {
      if HasName(ks, n) {
        var i :| 0 <= i < |ks| && ks[i].name == n;
        HasNameAt(ks', i);
      }
      if HasName(ks', n) {
        var i :| 0 <= i < |ks'| && ks'[i].name == n;
        HasNameAt(ks, i);
      }
    }
  }

  lemma ConsNone<T>(g: Node -> seq<T>)
    ensures Bag([], g) == multiset{}
  {
  }

  lemma SucceededDeleted(ks: seq<Node>, fs: seq<File>, rules: Rules)
    requires ks != [] && Succeeded(DeleteAll(ks), fs, true, rules)
    ensures Succeeded(DeleteAll(ks[1..]), fs, true, rules)
    ensures var f := Lookup(fs, ks[0].name); f.Some? ==> MergeKids(ks[0].kids, f.value.kids, true, rules).1
  {
    hide MergeKids;
    var k, ds := ks[0].(state := Deleted), DeleteAll(ks);
    assert ds == [k] + DeleteAll(ks[1..]) && k in ds;
    assert forall d | d in DeleteAll(ks[1..]) :: d in ds;
  }

  lemma {:induction false} DeletedMeaning(all: seq<Node>, ks: seq<Node>, fs: seq<File>, rules: Rules)
    requires Sound(all) && Unique(fs) && Succeeded(DeleteAll(ks), fs, true, rules)
    requires forall k | k in ks :: k in all && !k.isTemplate && k.nodeType == Block
    ensures Bag(MergedEach(DeleteAll(ks), fs, IntoInstance, rules), CommittedCanon)
            == Bag(LoadInstances(ks, fs), Single)
    decreases |ks|
  {
    hide MergeKids, Sound, Unique, CommittedCanon, Single, Merged, Overlay, Succeeded, Bag;
    if ks == [] {
      ConsNone(CommittedCanon);
      ConsNone(Single);
    } else {
      var f, k, ds := Lookup(fs, ks[0].name), ks[0].(state := Deleted), DeleteAll(ks);
      assert ds[1..] == DeleteAll(ks[1..]);
      SucceededDeleted(ks, fs, rules);
      assert ks[0] in ks;
      DeletedMeaning(all, ks[1..], fs, rules);
      DeletedNode(all, ks[0], fs, rules);
      ConsBag(Merged(k, f, IntoInstance, rules), MergedEach(DeleteAll(ks[1..]), fs, IntoInstance, rules),
              CommittedCanon);
      if f.Some? {
        ConsBag(Overlay(ks[0], f.value), LoadInstances(ks[1..], fs), Single);
      } else {
        assert [] + LoadInstances(ks[1..], fs) == LoadInstances(ks[1..], fs);
      }
    }
  }

  lemma DeletedNode(all: seq<Node>, k: Node, fs: seq<File>, rules: Rules)
    requires Sound(all) && k in all && Unique(fs) && !k.isTemplate && k.nodeType == Block
    requires Lookup(fs, k.name).Some? ==> MergeKids(k.kids, Lookup(fs, k.name).value.kids, true, rules).1
    ensures var f := Lookup(fs, k.name);
            CommittedCanon(Merged(k.(state := Deleted), f, IntoInstance, rules))
            == if f.None? then [] else Single(Overlay(k, f.value))
  {
    hide MergeKids, Unique, InScope, NamesDiffer, After;
    var f := Lookup(fs, k.name);
    SoundKids(all, k);
    if f.Some? {
      UniqueKids(fs, f.value);
      OverlayMeaning(k.kids, f.value.kids, rules);
      CleanCommitsToItself(k.kids, false);
      MergedOverlays(k, k.(state := Deleted), f.value, IntoInstance, rules);
    }
  }

  // ---------------------------------------------------------------- the meaning, item by item and name by name

  /** The one node of that name in a file, or none. */
  ghost predicate NamedOnce(fs: seq<File>, name: string, f: Option<File>) {
    match f
    case Some(g) => g in fs && g.name == name && forall h | h in fs && h.name == name :: h == g
    case None => forall h | h in fs :: h.name != name
  }

  /** An item outside lists is loaded with the value the file has for it, or with none; laid over an instance, the file
      changes the items it names and no others. */
  lemma LoadedItem(ks: seq<Node>, fs: seq<File>, i: nat, f: Option<File>)
    requires !HasTemplate(ks) && i < |ks| && ks[i].nodeType == Item && NamedOnce(fs, ks[i].name, f)
    requires f.Some? ==> f.value.nodeType == Item
    ensures |LoadKids(ks, fs)| == |OverlayKids(ks, fs)| == |ks|
    ensures LoadKids(ks, fs)[i] ==
            if f.Some? then ks[i].(value := f.value.value, newValue := f.value.value)
            else ks[i].(value := "", newValue := "")
    ensures OverlayKids(ks, fs)[i] ==
            if f.Some? then ks[i].(value := f.value.value, newValue := f.value.value) else ks[i]
  {
    EachAt(ks, fs, i);
    assert Lookup(fs, ks[i].name) == f;
  }

  lemma {:induction false} EachAt(ks: seq<Node>, fs: seq<File>, i: nat)
    requires i < |ks|
    ensures LoadEach(ks, fs)[i] == LoadNode(ks[i], Lookup(fs, ks[i].name))
    ensures OverlayEach(ks, fs)[i] ==
            var f := Lookup(fs, ks[i].name); if f.None? then ks[i] else Overlay(ks[i], f.value)
  {
    if i > 0 {
      EachAt(ks[1..], fs, i - 1);
    }
  }

  /** The instances of a loaded list are those the file names; laying a file over a list keeps the others too. */
  lemma LoadedNames(ks: seq<Node>, fs: seq<File>, name: string)
    requires HasTemplate(ks)
    ensures LoadKids(ks, fs) != [] && LoadKids(ks, fs)[0] == ks[0]
    ensures OverlayKids(ks, fs) != [] && OverlayKids(ks, fs)[0] == ks[0]
    ensures HasName(LoadKids(ks, fs)[1..], name) <==> exists f | f in fs :: f.name == name
    ensures HasName(OverlayKids(ks, fs)[1..], name) <==>
            HasName(ks[1..], name) || exists f | f in fs :: f.name == name
  {
    hide LoadKids, OverlayKids, HasName, LoadInstances, OverlayEach, NewNodes;
    var here := ks[1..];
    OldNames(here, fs, name);
    NewNames(ks[0], here, fs, name);
    HasEither(LoadInstances(here, fs), NewNodes(ks[0], here, fs), name);
    HasEither(OverlayEach(here, fs), NewNodes(ks[0], here, fs), name);
    ListedParts(ks, fs);
    Apart(ks[0], LoadInstances(here, fs), NewNodes(ks[0], here, fs));
    Apart(ks[0], OverlayEach(here, fs), NewNodes(ks[0], here, fs));
  }

  lemma ListedParts(ks: seq<Node>, fs: seq<File>)
    requires HasTemplate(ks)
    ensures LoadKids(ks, fs) == [ks[0]] + LoadInstances(ks[1..], fs) + NewNodes(ks[0], ks[1..], fs)
    ensures OverlayKids(ks, fs) == [ks[0]] + OverlayEach(ks[1..], fs) + NewNodes(ks[0], ks[1..], fs)
  {
  }

  lemma Apart(k: Node, a: seq<Node>, b: seq<Node>)
    ensures ([k] + a + b)[0] == k && ([k] + a + b)[1..] == a + b
  {
  }

  lemma HasEither(a: seq<Node>, b: seq<Node>, name: string)
    ensures HasName(a + b, name) <==> HasName(a, name) || HasName(b, name)
  {
    assert forall k :: k in a + b <==> k in a || k in b;
  }

  lemma OverlayName(k: Node, f: File)
    ensures Overlay(k, f).name == k.name
  {
    hide OverlayKids;
  }

  lemma {:induction false} OldNames(ks: seq<Node>, fs: seq<File>, name: string)
    ensures HasName(OverlayEach(ks, fs), name) <==> HasName(ks, name)
    ensures HasName(LoadInstances(ks, fs), name) <==> HasName(ks, name) && exists f | f in fs :: f.name == name
  {
    hide Overlay, Lookup;
    if ks != [] {
      var rest, f := ks[1..], Lookup(fs, ks[0].name);
      OldNames(rest, fs, name);
      HasEither([ks[0]], rest, name);
      assert ks == [ks[0]] + rest;
      if f.Some? {
        OverlayName(ks[0], f.value);
      }
      var one := if f.None? then ks[0] else Overlay(ks[0], f.value);
      HasEither([one], OverlayEach(rest, fs), name);
      HasEither(if f.None? then [] else [one], LoadInstances(rest, fs), name);
    }
  }

  lemma {:induction false} NewNames(tmpl: Node, ks: seq<Node>, fs: seq<File>, name: string)
    ensures HasName(NewNodes(tmpl, ks, fs), name) <==>
            !HasName(ks, name) && exists f | f in fs :: f.name == name
  {
    hide OverlayKids;
    if fs != [] {
      var f := fs[0];
      NewNames(tmpl, ks, fs[1..], name);
      HasEither(if HasName(ks, f.name) then [] else [NewNode(tmpl, f)], NewNodes(tmpl, ks, fs[1..]), name);
      assert forall g :: g in fs <==> g == f || g in fs[1..];
    }
  }
}
