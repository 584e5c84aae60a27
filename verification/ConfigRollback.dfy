/** What a discard brings back after any run of edits and loads, however far a failed load got
    (src/config/config.cpp:2151-2208, 2456-2495, 2576-2601, 2823-2857, 3021-3082). */
module ConfigRollback {
  import opened Wrappers
  import opened ConfigTree
  import opened ConfigTransaction
  import opened ConfigMerge

  function Restored(k: Node): seq<Canonical> {
    Canons(DiscardNode(k))
  }

  lemma {:induction false} DiscardBag(ks: seq<Node>)
    ensures multiset(Canons(DiscardKids(ks))) == Bag(ks, Restored)
  {
    hide DiscardNode, Canon;
    if ks != [] {
      DiscardBag(ks[1..]);
      CanonsAppend(DiscardNode(ks[0]), DiscardKids(ks[1..]));
    }
  }

  /** What a discard makes of the children of a block, up to the order of instances. */
  function Kept(ks: seq<Node>): (seq<Canonical>, multiset<Canonical>) {
    CanonKids(DiscardKids(ks))
  }

  lemma KeptListed(ks: seq<Node>)
    requires HasTemplate(ks)
    ensures Kept(ks) == ([Canon(ks[0])], Bag(ks[1..], Restored))
  {
    DiscardBag(ks[1..]);
    assert DiscardKids(ks) == [ks[0]] + DiscardKids(ks[1..]);
    assert DiscardKids(ks)[1..] == DiscardKids(ks[1..]);
  }

  lemma KeptFixed(ks: seq<Node>)
    requires InScope(ks) && !HasTemplate(ks)
    ensures Kept(ks) == (Canons(DiscardKids(ks)), multiset{})
  {
    NoTemplates(ks);
  }

  lemma {:induction false} NoTemplates(ks: seq<Node>)
    requires forall k | k in ks :: !k.isTemplate
    ensures !HasTemplate(DiscardKids(ks))
  {
    if ks != [] {
      NoTemplates(ks[1..]);
    }
  }

  lemma InScopeUpdate(ks: seq<Node>, j: nat, k: Node)
    requires j < |ks| && InScope(ks) && NodeInScope(k) && k.isTemplate == ks[j].isTemplate == false
    requires HasTemplate(ks) ==> k.nodeType == Block
    ensures InScope(ks[j := k])
  {
    hide NodeInScope;
    assert forall n | n in ks[j := k] :: n == k || n in ks;
  }

  /** A node may be replaced by one that a discard takes to the same. */
  lemma KeptUpdate(ks: seq<Node>, j: nat, k: Node)
    requires j < |ks| && InScope(ks) && NodeInScope(k) && k.isTemplate == ks[j].isTemplate == false
    requires HasTemplate(ks) ==> k.nodeType == Block
    requires Restored(k) == Restored(ks[j])
    ensures InScope(ks[j := k]) && Kept(ks[j := k]) == Kept(ks) && HasTemplate(ks[j := k]) == HasTemplate(ks)
  {
    hide InScope, NodeInScope, Kept, Restored;
    InScopeUpdate(ks, j, k);
    if HasTemplate(ks) {
      KeptUpdateListed(ks, j, k);
    } else {
      KeptFixed(ks);
      KeptFixed(ks[j := k]);
      KeptUpdateFixed(ks, j, k);
    }
  }

  lemma KeptUpdateListed(ks: seq<Node>, j: nat, k: Node)
    requires 0 < j < |ks| && HasTemplate(ks) && Restored(k) == Restored(ks[j])
    ensures Kept(ks[j := k]) == Kept(ks)
  {
    hide Kept, Restored, Canon;
    var ks' := ks[j := k];
    KeptListed(ks);
    KeptListed(ks');
    var a, b := ks[1..j], ks[j + 1..];
    assert ks[1..] == a + ([ks[j]] + b) && ks'[1..] == a + ([k] + b);
    BagAppend(a, [ks[j]] + b, Restored);
    BagAppend(a, [k] + b, Restored);
    assert ([ks[j]] + b)[1..] == b && ([k] + b)[1..] == b;
  }

  lemma KeptUpdateFixed(ks: seq<Node>, j: nat, k: Node)
    requires j < |ks| && Restored(k) == Restored(ks[j])
    ensures Canons(DiscardKids(ks[j := k])) == Canons(DiscardKids(ks))
  {
    hide DiscardNode, DiscardKids, Canon, Canons;
    DiscardUpdate(ks, j, k);
    var a, b := DiscardKids(ks[..j]), DiscardKids(ks[j + 1..]);
    CanonsAppend(a + DiscardNode(ks[j]), b);
    CanonsAppend(a + DiscardNode(k), b);
    CanonsAppend(a, DiscardNode(ks[j]));
    CanonsAppend(a, DiscardNode(k));
  }

  lemma CanonSingle(k: Node)
    ensures Canons([k]) == [Canon(k)]
  {
    assert [k][1..] == [];
  }

  /** Nodes with the same discarded head and the same kept children are restored alike. */
  lemma RestoredAlike(k: Node, k': Node)
    requires k.isNew == k'.isNew && !k.isTemplate && !k'.isTemplate && Kept(k.kids) == Kept(k'.kids)
    requires !k.isNew ==> Head(DiscardNode(k)[0]) == Head(DiscardNode(k')[0])
    ensures Restored(k') == Restored(k)
  {
    if !k.isNew {
      var d, d' := DiscardNode(k)[0], DiscardNode(k')[0];
      assert d.kids == DiscardKids(k.kids) && d'.kids == DiscardKids(k'.kids);
      assert DiscardNode(k) == [d] && DiscardNode(k') == [d'];
      CanonSingle(d);
      CanonSingle(d');
    }
  }

  // ---------------------------------------------------------------- loads

  /** Sibling names in the file are unique, at every depth. */
  ghost predicate Unique(fs: seq<File>)
    decreases fs
  {
    (forall i, j :: 0 <= i < j < |fs| ==> fs[i].name != fs[j].name) && forall f | f in fs :: Unique(f.kids)
  }

  /** The file names no instance that is still uncommitted, unless inside a block that is. */
  ghost predicate NamesNoNew(ks: seq<Node>, fs: seq<File>)
    decreases fs
  {
    forall f, k | f in fs && k in ks :: !k.isTemplate && k.name == f.name ==>
      if k.isNew then !HasTemplate(ks) else NamesNoNew(k.kids, f.kids)
  }

  lemma CopyInScope(ks: seq<Node>, state: Option<NodeState>)
    requires InScope(ks) && (state == None || state == Some(Modified))
    ensures InScope(CopyKids(ks, state))
    decreases ks
  {
    var c := CopyKids(ks, state);
    forall i | 0 <= i < |ks|
      ensures NodeInScope(c[i]) && c[i].isTemplate == ks[i].isTemplate && c[i].nodeType == ks[i].nodeType
    {
      CopyAt(ks, state, i);
      assert ks[i] in ks && NodeInScope(ks[i]);
      CopyInScope(ks[i].kids, state);
    }
  }

  lemma InstanceAdded(ks: seq<Node>, k: Node, rules: Rules)
    requires InScope(ks) && HasTemplate(ks) && NodeInScope(k) && k.nodeType == Block && !k.isTemplate
    ensures InScope(WithInstance(ks, k, rules)) && HasTemplate(WithInstance(ks, k, rules))
    ensures forall n | n in WithInstance(ks, k, rules) :: n in ks || n == k
    ensures k.isNew ==> Kept(WithInstance(ks, k, rules)) == Kept(ks)
  {
    hide InScope, NodeInScope, Kept, Sorted;
    AddedFrom(ks, k, rules);
    AddedInScope(ks, WithInstance(ks, k, rules), k);
    if k.isNew {
      NewNotKept(ks, k, rules);
    }
  }

  /** The order may change, the template stays first. */
  lemma AddedFrom(ks: seq<Node>, k: Node, rules: Rules)
    requires HasTemplate(ks)
    ensures var ks' := WithInstance(ks, k, rules);
            ks' != [] && ks'[0] == ks[0] && forall i | 0 < i < |ks'| :: ks'[i] in ks[1..] + [k]
  {
    var ks', all := WithInstance(ks, k, rules), ks[1..] + [k];
    SortedPermutes(rules, all);
    forall i | 0 < i < |ks'| ensures ks'[i] in all {
      if !k.isEmpty {
        assert ks'[i] in multiset(Sorted(rules, all));
      }
    }
  }

  lemma AddedInScope(ks: seq<Node>, ks': seq<Node>, k: Node)
    requires InScope(ks) && HasTemplate(ks) && NodeInScope(k) && k.nodeType == Block && !k.isTemplate
    requires ks' != [] && ks'[0] == ks[0] && forall i | 0 < i < |ks'| :: ks'[i] in ks[1..] + [k]
    ensures InScope(ks') && forall n | n in ks' :: n in ks || n == k
  {
    hide NodeInScope;
    forall i | 0 < i < |ks'|
      ensures !ks'[i].isTemplate && ks'[i].nodeType == Block && NodeInScope(ks'[i]) && (ks'[i] in ks || ks'[i] == k)
    {
      if ks'[i] != k {
        var j :| 0 <= j < |ks[1..]| && ks[1..][j] == ks'[i];
        assert ks[j + 1] in ks;
      }
    }
  }

  lemma NewNotKept(ks: seq<Node>, k: Node, rules: Rules)
    requires HasTemplate(ks) && k.isNew && !k.isTemplate
    ensures Kept(WithInstance(ks, k, rules)) == Kept(ks)
  {
    hide Kept, Sorted, Canon, Bag;
    var ks', all := WithInstance(ks, k, rules), ks[1..] + [k];
    KeptListed(ks);
    KeptListed(ks');
    BagAppend(ks[1..], [k], Restored);
    NewBag(k);
    if k.isEmpty {
      assert ks'[1..] == all;
    } else {
      BagSorted(rules, all, Restored);
      assert ks'[1..] == Sorted(rules, all);
    }
    assert Bag(ks'[1..], Restored) == Bag(ks[1..], Restored);
  }

  lemma NewBag(k: Node)
    requires k.isNew && !k.isTemplate
    ensures Bag([k], Restored) == multiset{}
  {
    assert [k][1..] == [];
  }

  /** A load leaves what a discard restores as it is, wherever it stops. */
  lemma {:induction false} MergeKeepsDiscard(ks: seq<Node>, fs: seq<File>, rules: Rules)
    requires InScope(ks) && Unique(fs) && NamesNoNew(ks, fs)
    ensures var ks' := MergeKids(ks, fs, true, rules).0; InScope(ks') && Kept(ks') == Kept(ks)
    decreases fs, 1
  {
    hide InScope, MergeOne, Kept;
    if fs != [] {
      var ks' := MergeOne(ks, fs[0], true, rules).0;
      assert fs[0] in fs && NamesNoNew(ks, [fs[0]]);
      MergeOneKeepsDiscard(ks, fs[0], rules);
      forall f, k | f in fs[1..] && k in ks' && !k.isTemplate && k.name == f.name
        ensures if k.isNew then !HasTemplate(ks') else NamesNoNew(k.kids, f.kids)
      {
        var i :| 0 <= i < |fs[1..]| && fs[1..][i] == f;
        assert fs[i + 1] in fs && fs[0].name != fs[i + 1].name;
      }
      MergeKeepsDiscard(ks', fs[1..], rules);
    }
  }

  lemma {:induction false} MergeOneKeepsDiscard(ks: seq<Node>, f: File, rules: Rules)
    requires InScope(ks) && Unique(f.kids) && NamesNoNew(ks, [f])
    ensures var ks' := MergeOne(ks, f, true, rules).0;
            && InScope(ks') && Kept(ks') == Kept(ks) && HasTemplate(ks') == HasTemplate(ks)
            && forall k | k in ks' :: k in ks || k.name == f.name
    decreases f, 0
  {
    hide Kept;
    assert f in [f];
    if HasTemplate(ks) {
      if f.nodeType == Block && Fits(rules, ks[0].typ, f.name) {
        var j := FindInstance(ks, f.name, 1);
        if j < |ks| {
          ExistingKeepsDiscard(ks, j, ks[j].(state := Modified, isNew := false), f, rules);
        } else {
          FreshKeepsDiscard(ks, f, rules);
        }
      }
    } else {
      var j := Find(ks, f.name, 0);
      if j < |ks| {
        ExistingKeepsDiscard(ks, j, if f.nodeType == Item then Assigned(ks[j], f.value, true) else ks[j], f, rules);
      }
    }
  }

  lemma {:induction false} ExistingKeepsDiscard(ks: seq<Node>, j: nat, d: Node, f: File, rules: Rules)
    requires j < |ks| && InScope(ks) && Unique(f.kids) && NamesNoNew(ks, [f]) && !ks[j].isTemplate &&
             ks[j].name == f.name
    requires d == ks[j] || (HasTemplate(ks) && d == ks[j].(state := Modified, isNew := false)) ||
             d == Assigned(ks[j], f.value, true)
    ensures var ks' := ks[j := d.(kids := MergeKids(d.kids, f.kids, true, rules).0)];
            InScope(ks') && Kept(ks') == Kept(ks) && HasTemplate(ks') == HasTemplate(ks)
    decreases f, 0, 0
  {
    hide Kept;
    assert f in [f] && ks[j] in ks && NodeInScope(ks[j]);
    var k := d.(kids := MergeKids(d.kids, f.kids, true, rules).0);
    NothingInItems(f.kids, rules);
    if ks[j].isNew {
      MergeInScope(d.kids, f.kids, rules);
    } else {
      assert NamesNoNew(ks[j].kids, f.kids);
      MergeKeepsDiscard(d.kids, f.kids, rules);
      RestoredAlike(ks[j], k);
    }
    KeptUpdate(ks, j, k);
  }

  lemma NothingInItems(fs: seq<File>, rules: Rules)
    ensures MergeKids([], fs, true, rules).0 == []
  {
    if fs != [] {
      assert MergeOne([], fs[0], true, rules) == ([], false);
    }
  }

  lemma {:induction false} FreshKeepsDiscard(ks: seq<Node>, f: File, rules: Rules)
    requires InScope(ks) && HasTemplate(ks) && Unique(f.kids)
    ensures var d := NewInstance(ks[0], f.name, true);
            var k := d.(kids := MergeKids(d.kids, f.kids, true, rules).0);
            var ks' := WithInstance(ks, k, rules);
            && InScope(ks') && Kept(ks') == Kept(ks) && HasTemplate(ks') && (forall n | n in ks' :: n in ks || n == k)
    decreases f, 0, 0
  {
    hide Kept;
    var d := NewInstance(ks[0], f.name, true);
    assert ks[0] in ks && NodeInScope(ks[0]);
    CopyInScope(ks[0].kids, None);
    MergeInScope(d.kids, f.kids, rules);
    InstanceAdded(ks, d.(kids := MergeKids(d.kids, f.kids, true, rules).0), rules);
  }

  lemma {:induction false} MergeInScope(ks: seq<Node>, fs: seq<File>, rules: Rules)
    requires InScope(ks)
    ensures InScope(MergeKids(ks, fs, true, rules).0)
    decreases fs, 1
  {
    hide InScope, MergeOne;
    if fs != [] {
      MergeOneInScope(ks, fs[0], rules);
      MergeInScope(MergeOne(ks, fs[0], true, rules).0, fs[1..], rules);
    }
  }

  lemma {:induction false} MergeOneInScope(ks: seq<Node>, f: File, rules: Rules)
    requires InScope(ks)
    ensures InScope(MergeOne(ks, f, true, rules).0)
    decreases f, 0
  {
    if HasTemplate(ks) {
      var j := FindInstance(ks, f.name, 1);
      if j < |ks| {
        assert ks[j] in ks && NodeInScope(ks[j]);
        MergeInScope(ks[j].kids, f.kids, rules);
      } else {
        var d := NewInstance(ks[0], f.name, true);
        assert ks[0] in ks && NodeInScope(ks[0]);
        CopyInScope(ks[0].kids, None);
        MergeInScope(d.kids, f.kids, rules);
        InstanceAdded(ks, d.(kids := MergeKids(d.kids, f.kids, true, rules).0), rules);
      }
    } else {
      var j := Find(ks, f.name, 0);
      if j < |ks| {
        assert ks[j] in ks && NodeInScope(ks[j]);
        MergeInScope(ks[j].kids, f.kids, rules);
        NothingInItems(f.kids, rules);
      }
    }
  }

  // ---------------------------------------------------------------- a load that stops half-way

  /** What merge gets to of a file: all of it, or else the nodes before the one that fails, and of that one what merge
      gets to inside the node it goes into, if any. */
  function GotTo(ks: seq<Node>, fs: seq<File>, rules: Rules): (r: seq<File>)
    ensures |r| <= |fs| && forall i :: 0 <= i < |r| ==> r[i].name == fs[i].name
    decreases fs, 1
  {
    if fs == [] then []
    else
      var (ks', ok) := MergeOne(ks, fs[0], true, rules);
      if ok then [fs[0]] + GotTo(ks', fs[1..], rules) else GotInto(ks, fs[0], rules)
  }

  function GotInto(ks: seq<Node>, f: File, rules: Rules): (r: seq<File>)
    ensures |r| <= 1 && forall g :: g in r ==> g.name == f.name
    decreases f, 0
  {
    var j := if HasTemplate(ks) then FindInstance(ks, f.name, 1) else Find(ks, f.name, 0);
    if j < |ks| && Takes(ks, j, f, rules) then [f.(kids := GotTo(ks[j].kids, f.kids, rules))] else []
  }

  /** The j-th child is the one f goes into, and takes it. */
  predicate Takes(ks: seq<Node>, j: nat, f: File, rules: Rules)
    requires j < |ks|
  {
    if HasTemplate(ks) then f.nodeType == Block && Fits(rules, ks[0].typ, f.name)
    else f.nodeType == Item ==> Fits(rules, ks[j].typ, f.value)
  }

  /** Merging just that part succeeds, and comes to the same. */
  lemma {:induction false} GotToMerges(ks: seq<Node>, fs: seq<File>, rules: Rules)
    ensures MergeKids(ks, GotTo(ks, fs, rules), true, rules) == (MergeKids(ks, fs, true, rules).0, true)
    decreases fs, 1
  {
    hide MergeOne, GotInto;
    if fs != [] {
      var (ks', ok) := MergeOne(ks, fs[0], true, rules);
      if ok {
        GotToMerges(ks', fs[1..], rules);
        assert ([fs[0]] + GotTo(ks', fs[1..], rules))[1..] == GotTo(ks', fs[1..], rules);
      } else {
        GotIntoMerges(ks, fs[0], rules);
      }
    }
  }

  lemma {:induction false} GotIntoMerges(ks: seq<Node>, f: File, rules: Rules)
    requires !MergeOne(ks, f, true, rules).1
    ensures MergeKids(ks, GotInto(ks, f, rules), true, rules) == (MergeOne(ks, f, true, rules).0, true)
    decreases f, 0
  {
    hide MergeKids;
    var j := if HasTemplate(ks) then FindInstance(ks, f.name, 1) else Find(ks, f.name, 0);
    if j < |ks| && Takes(ks, j, f, rules) {
      var g := f.(kids := GotTo(ks[j].kids, f.kids, rules));
      GotToMerges(ks[j].kids, f.kids, rules);
      OneFile(ks, g, rules);
    } else {
      NoFile(ks, rules);
    }
  }

  lemma OneFile(ks: seq<Node>, g: File, rules: Rules)
    ensures MergeKids(ks, [g], true, rules) == MergeOne(ks, g, true, rules)
  {
    hide MergeOne;
    assert [g][1..] == [];
  }

  lemma NoFile(ks: seq<Node>, rules: Rules)
    ensures MergeKids(ks, [], true, rules) == (ks, true)
  {
  }

  lemma {:induction false} GotToUnique(ks: seq<Node>, fs: seq<File>, rules: Rules)
    requires Unique(fs)
    ensures Unique(GotTo(ks, fs, rules))
    decreases fs
  {
    hide MergeOne;
    var got := GotTo(ks, fs, rules);
    forall f | f in got ensures Unique(f.kids) {
      if MergeOne(ks, fs[0], true, rules).1 {
        RestUnique(fs);
        GotToUnique(MergeOne(ks, fs[0], true, rules).0, fs[1..], rules);
      } else {
        var j := if HasTemplate(ks) then FindInstance(ks, fs[0].name, 1) else Find(ks, fs[0].name, 0);
        assert fs[0] in fs;
        GotToUnique(ks[j].kids, fs[0].kids, rules);
      }
    }
  }

  lemma RestUnique(fs: seq<File>)
    requires Unique(fs) && fs != []
    ensures Unique(fs[1..]) && Unique(fs[0].kids)
  {
    assert fs[0] in fs && forall f | f in fs[1..] :: f in fs;
  }

  // ---------------------------------------------------------------- edits and runs

  /** The state changes a command can make: set an item, delete an item or a block, set a deleted block again, and
      create an instance from a template. */
  datatype Edit = SetValue(value: string) | MarkDeleted | MarkModified | AddInstance(name: string)

  function Touched(k: Node, e: Edit): Node {
    match e
    case SetValue(value) => if k.nodeType == Item then k.(newValue := value, state := Modified) else k
    case MarkDeleted => k.(state := Deleted)
    case MarkModified => k.(state := Modified)
    case AddInstance(_) => k
  }

  /** The instance a command creates: everything in it starts MODIFIED. */
  function EnteredInstance(tmpl: Node, name: string): Node {
    Node(name, Block, "", "", "", Modified, false, tmpl.isEmpty, true, tmpl.sortName,
         CopyKids(tmpl.kids, Some(Modified)))
  }

  /** The tree after an edit of the node that `path` leads to, template nodes aside. */
  function Edited(ks: seq<Node>, path: seq<nat>, e: Edit): seq<Node>
    decreases |path|
  {
    if path == [] then
      if e.AddInstance? && HasTemplate(ks) then ks + [EnteredInstance(ks[0], e.name)] else ks
    else
      var i := path[0];
      if i >= |ks| || ks[i].isTemplate then ks
      else if |path| == 1 && !e.AddInstance? then ks[i := Touched(ks[i], e)]
      else ks[i := ks[i].(kids := Edited(ks[i].kids, path[1..], e))]
  }

  lemma {:induction false} PendingAppend(a: seq<Node>, b: seq<Node>)
    ensures Pending(a + b) == Pending(a) + Pending(b)
  {
    hide PendingNode;
    if a == [] {
      assert a + b == b;
    } else {
      PendingAppend(a[1..], b);
      assert (a + b)[0] == a[0] && (a + b)[1..] == a[1..] + b;
      Associative(PendingNode(a[0]), Pending(a[1..]), Pending(b));
    }
  }

  lemma PendingUpdate(ks: seq<Node>, i: nat, k: Node)
    requires i < |ks|
    ensures Pending(ks[i := k]) == Pending(ks[..i]) + PendingNode(k) + Pending(ks[i + 1..])
  {
    hide PendingNode;
    assert ks[i := k] == ks[..i] + ([k] + ks[i + 1..]);
    PendingAppend(ks[..i], [k] + ks[i + 1..]);
    PendingAppend([k], ks[i + 1..]);
    PendingSingle(k);
    Associative(Pending(ks[..i]), PendingNode(k), Pending(ks[i + 1..]));
  }

  /** What a commit shows after an edit: of an item the value set, or none if deleted; of a block nothing if deleted,
      and all it holds if set again; and beneath a block that is not deleted, what the edit shows there.  Everything
      beside it shows as it would have without the edit. */
  lemma EditShown(ks: seq<Node>, path: seq<nat>, e: Edit)
    requires InScope(ks) && path != [] && path[0] < |ks| && !ks[path[0]].isTemplate
    requires |path| == 1 ==> !e.AddInstance? && (e.SetValue? ==> ks[path[0]].nodeType == Item)
    requires |path| > 1 ==> ks[path[0]].nodeType == Block
    ensures var (i, k) := (path[0], ks[path[0]]);
            var shown := if |path| > 1 then
                           if k.state == Deleted then []
                           else [VBlock(k.name, Committed(CommitKids(Edited(k.kids, path[1..], e), false)))]
                         else if k.nodeType == Item then
                           [VItem(k.name, if e.SetValue? then e.value else if e.MarkDeleted? then "" else k.newValue)]
                         else if e.MarkDeleted? then [] else [VBlock(k.name, Pending(k.kids))];
            Committed(CommitKids(Edited(ks, path, e), false)) == Pending(ks[..i]) + shown + Pending(ks[i + 1..])
  {
    hide InScope, Pending, CommitKids, Committed, Edited;
    var (i, k) := (path[0], ks[path[0]]);
    ChildInScope(ks, i);
    EditCommits(ks, path, e);
    EditedChild(ks, path, e);
    if |path| > 1 {
      EditCommits(k.kids, path[1..], e);
      PendingUpdate(ks, i, k.(kids := Edited(k.kids, path[1..], e)));
    } else {
      PendingUpdate(ks, i, Touched(k, e));
    }
  }

  lemma EditedChild(ks: seq<Node>, path: seq<nat>, e: Edit)
    requires path != [] && path[0] < |ks| && !ks[path[0]].isTemplate && (|path| == 1 ==> !e.AddInstance?)
    ensures var (i, k) := (path[0], ks[path[0]]);
            Edited(ks, path, e) == ks[i := if |path| == 1 then Touched(k, e)
                                           else k.(kids := Edited(k.kids, path[1..], e))]
  {
  }

  lemma EditCommits(ks: seq<Node>, path: seq<nat>, e: Edit)
    requires InScope(ks)
    ensures Committed(CommitKids(Edited(ks, path, e), false)) == Pending(Edited(ks, path, e))
  {
    hide InScope, Pending, CommitKids, Committed, Edited, Kept;
    EditKeepsDiscard(ks, path, e);
    CommitShowsPending(Edited(ks, path, e));
  }

  lemma ChildInScope(ks: seq<Node>, i: nat)
    requires InScope(ks) && i < |ks|
    ensures NodeInScope(ks[i]) && InScope(ks[i].kids)
  {
    assert ks[i] in ks;
  }

  /** A created instance comes last, new and MODIFIED, a copy of its template in which everything is MODIFIED; a commit
      shows it with what the template's items were given. */
  lemma InstanceShown(ks: seq<Node>, name: string)
    requires InScope(ks) && HasTemplate(ks)
    ensures var ks' := Edited(ks, [], AddInstance(name));
            && ks' == ks + [Node(name, Block, "", "", "", Modified, false, ks[0].isEmpty, true, ks[0].sortName,
                                 CopyKids(ks[0].kids, Some(Modified)))]
            && Committed(CommitKids(ks', false)) ==
               Pending(ks) + [VBlock(name, Pending(CopyKids(ks[0].kids, Some(Modified))))]
  {
    hide InScope, Pending, CommitKids, Committed;
    var k := EnteredInstance(ks[0], name);
    EditCommits(ks, [], AddInstance(name));
    PendingAppend(ks, [k]);
    PendingSingle(k);
  }

  lemma PendingSingle(k: Node)
    ensures Pending([k]) == PendingNode(k)
  {
    assert [k][1..] == [] && Pending([k]) == PendingNode(k) + Pending([]);
  }

  lemma {:induction false} EditKeepsDiscard(ks: seq<Node>, path: seq<nat>, e: Edit)
    requires InScope(ks)
    ensures InScope(Edited(ks, path, e)) && Kept(Edited(ks, path, e)) == Kept(ks)
    decreases |path|
  {
    hide Kept;
    if path == [] {
      if e.AddInstance? && HasTemplate(ks) {
        EnterKeepsDiscard(ks, e.name);
      }
    } else {
      var i := path[0];
      if i < |ks| && !ks[i].isTemplate {
        assert ks[i] in ks && NodeInScope(ks[i]);
        if |path| == 1 && !e.AddInstance? {
          RestoredAlike(ks[i], Touched(ks[i], e));
          KeptUpdate(ks, i, Touched(ks[i], e));
        } else {
          EditKeepsDiscard(ks[i].kids, path[1..], e);
          var k := ks[i].(kids := Edited(ks[i].kids, path[1..], e));
          RestoredAlike(ks[i], k);
          KeptUpdate(ks, i, k);
        }
      }
    }
  }

  lemma EnterKeepsDiscard(ks: seq<Node>, name: string)
    requires InScope(ks) && HasTemplate(ks)
    ensures var ks' := ks + [EnteredInstance(ks[0], name)]; InScope(ks') && Kept(ks') == Kept(ks)
  {
    hide Kept, NodeInScope, InScope, Bag, Canon;
    var k := EnteredInstance(ks[0], name);
    EnteredInScope(ks, name);
    var ks' := ks + [k];
    assert ks'[1..] == ks[1..] + [k];
    forall i | 0 < i < |ks'| ensures ks'[i] in ks[1..] + [k] {
      assert ks'[i] == ks'[1..][i - 1];
    }
    AddedInScope(ks, ks', k);
    KeptListed(ks);
    KeptListed(ks');
    BagAppend(ks[1..], [k], Restored);
    NewBag(k);
    assert Bag(ks'[1..], Restored) == Bag(ks[1..], Restored);
    assert ks'[0] == ks[0];
  }

  lemma EnteredInScope(ks: seq<Node>, name: string)
    requires InScope(ks) && HasTemplate(ks)
    ensures NodeInScope(EnteredInstance(ks[0], name))
  {
    assert ks[0] in ks && NodeInScope(ks[0]);
    CopyInScope(ks[0].kids, Some(Modified));
  }

  /** A command, a load (replace_prepare and a merge that may stop half-way), or a pretended commit. */
  datatype Step = Command(path: seq<nat>, edit: Edit) | Load(contents: seq<File>) | Pretend

  function Stepped(ks: seq<Node>, s: Step, rules: Rules): seq<Node> {
    match s
    case Command(path, e) => Edited(ks, path, e)
    case Load(contents) => MergeKids(PrepareKids(ks), contents, true, rules).0
    case Pretend => CommitKids(ks, true)
  }

  function Run(ks: seq<Node>, steps: seq<Step>, rules: Rules): seq<Node>
    decreases |steps|
  {
    if steps == [] then ks else Run(Stepped(ks, steps[0], rules), steps[1..], rules)
  }

  /** Every file loaded on the way names its nodes once, and the part of it that merge gets to names no instance that is
      still uncommitted; a pretended commit reaches no new node. */
  ghost predicate Legal(ks: seq<Node>, steps: seq<Step>, rules: Rules)
    decreases |steps|
  {
    steps != [] ==>
      && (steps[0].Load? ==>
            Unique(steps[0].contents)
            && NamesNoNew(PrepareKids(ks), GotTo(PrepareKids(ks), steps[0].contents, rules)))
      && (steps[0].Pretend? ==> NoneNew(ks))
      && Legal(Stepped(ks, steps[0], rules), steps[1..], rules)
  }

  lemma {:induction false} PrepareInScope(ks: seq<Node>)
    requires InScope(ks)
    ensures InScope(PrepareKids(ks)) && HasTemplate(PrepareKids(ks)) == HasTemplate(ks)
    decreases ks, 1
  {
    if HasTemplate(ks) {
      var ks' := PrepareKids(ks);
      forall i | 0 < i < |ks'| ensures ks'[i] == ks[i].(state := Deleted) && NodeInScope(ks'[i]) {
        assert ks[i] in ks && NodeInScope(ks[i]);
      }
      assert ks[0] in ks;
    } else {
      PrepareEachInScope(ks);
    }
  }

  lemma {:induction false} PrepareEachInScope(ks: seq<Node>)
    requires InScope(ks) && !HasTemplate(ks)
    ensures InScope(PrepareEach(ks)) && forall k | k in PrepareEach(ks) :: !k.isTemplate
    decreases ks, 0
  {
    if ks != [] {
      InScopeRest(ks);
      assert !HasTemplate(ks[1..]) by { if |ks| > 1 { assert ks[1..][0] == ks[1]; } }
      PrepareInScope(ks[0].kids);
      PrepareEachInScope(ks[1..]);
    }
  }

  lemma {:induction false} RunKeepsDiscard(ks: seq<Node>, steps: seq<Step>, rules: Rules)
    requires InScope(ks) && Legal(ks, steps, rules)
    ensures InScope(Run(ks, steps, rules)) && Kept(Run(ks, steps, rules)) == Kept(ks)
    decreases |steps|
  {
    hide InScope, Unique, NamesNoNew, PrepareKids, Edited, MergeKids, DiscardKids, CanonKids, NoneNew, GotTo;
    if steps != [] {
      match steps[0] {
        case Command(path, e) =>
          EditKeepsDiscard(ks, path, e);
        case Load(contents) =>
          PrepareInScope(ks);
          PrepareKeepsDiscard(ks);
          GotToMerges(PrepareKids(ks), contents, rules);
          GotToUnique(PrepareKids(ks), contents, rules);
          MergeKeepsDiscard(PrepareKids(ks), GotTo(PrepareKids(ks), contents, rules), rules);
        case Pretend =>
          NothingToForget(ks);
      }
      RunKeepsDiscard(Stepped(ks, steps[0], rules), steps[1..], rules);
    }
  }

  // ---------------------------------------------------------------- runs keep the shape merge relies on

  lemma EnterConforms(ks: seq<Node>, name: string)
    requires Conforms(ks) && HasTemplate(ks)
    ensures var ks' := ks + [EnteredInstance(ks[0], name)]; Conforms(ks') && SkeletonOf(ks') == SkeletonOf(ks)
  {
    var k := EnteredInstance(ks[0], name);
    var ks' := ks + [k];
    assert ks[0] in ks && ks'[0] == ks[0];
    CopyConforms(ks[0].kids, Some(Modified));
    CopyKeepsSkeleton(ks[0].kids, Some(Modified));
    forall i | 0 < i < |ks'|
      ensures !ks'[i].isTemplate && SkeletonOf(ks'[i].kids) == SkeletonOf(ks[0].kids) && Conforms(ks'[i].kids)
    {
      assert i < |ks| ==> ks'[i] == ks[i] && ks[i] in ks;
    }
  }

  /** A command keeps the shape of the definition. */
  lemma {:induction false} EditedConforms(ks: seq<Node>, path: seq<nat>, e: Edit)
    requires Conforms(ks)
    ensures Conforms(Edited(ks, path, e)) && SkeletonOf(Edited(ks, path, e)) == SkeletonOf(ks)
    decreases |path|
  {
    hide Conforms, SkeletonOf;
    if path == [] {
      if e.AddInstance? && HasTemplate(ks) {
        EnterConforms(ks, e.name);
      }
    } else {
      var i := path[0];
      if i < |ks| && !ks[i].isTemplate {
        KidsConform(ks, i);
        if |path| == 1 && !e.AddInstance? {
          UpdateKeepsShape(ks, i, Touched(ks[i], e));
        } else {
          EditedConforms(ks[i].kids, path[1..], e);
          UpdateKeepsShape(ks, i, ks[i].(kids := Edited(ks[i].kids, path[1..], e)));
        }
      }
    }
  }

  lemma KidsConform(ks: seq<Node>, i: nat)
    requires Conforms(ks) && i < |ks|
    ensures Conforms(ks[i].kids)
  {
    assert ks[i] in ks;
  }

  /** replace_prepare keeps it too. */
  lemma {:induction false} PreparedConforms(ks: seq<Node>)
    requires Conforms(ks)
    ensures Conforms(PrepareKids(ks)) && SkeletonOf(PrepareKids(ks)) == SkeletonOf(ks)
    decreases ks, 1
  {
    if HasTemplate(ks) {
      var ks' := PrepareKids(ks);
      assert ks'[0] == ks[0];
      forall i | 0 < i < |ks'|
        ensures !ks'[i].isTemplate && SkeletonOf(ks'[i].kids) == SkeletonOf(ks[0].kids) && Conforms(ks'[i].kids)
      {
        assert ks'[i] == ks[i].(state := Deleted) && ks[i] in ks;
      }
      assert ks[0] in ks;
    } else {
      PreparedEachConforms(ks);
    }
  }

  lemma {:induction false} PreparedEachConforms(ks: seq<Node>)
    requires Conforms(ks) && !HasTemplate(ks)
    ensures var ps := PrepareEach(ks); Conforms(ps) && !HasTemplate(ps) && FieldsOf(ps) == FieldsOf(ks)
    decreases ks, 0
  {
    if ks != [] {
      var k, rest := ks[0], ks[1..];
      assert k in ks && !k.isTemplate && (rest != [] ==> rest[0] == ks[1]);
      assert forall i :: 0 <= i < |rest| ==> rest[i] == ks[i + 1];
      PreparedEachConforms(rest);
      PreparedConforms(k.kids);
      ConsConforms(if k.nodeType == Item then k.(state := Deleted) else k.(kids := PrepareKids(k.kids)),
                   PrepareEach(rest));
    }
  }

  lemma ConsConforms(k: Node, ks: seq<Node>)
    requires !k.isTemplate && Conforms(k.kids) && Conforms(ks) && !HasTemplate(ks)
    ensures Conforms([k] + ks) && FieldsOf([k] + ks) == [Field(k.name, k.typ, SkeletonOf(k.kids))] + FieldsOf(ks)
  {
    hide SkeletonOf;
    var all := [k] + ks;
    assert all[1..] == ks;
    forall i | 0 <= i < |all| ensures !all[i].isTemplate && Conforms(all[i].kids) {
      assert i > 0 ==> all[i] == ks[i - 1] && ks[i - 1] in ks;
    }
  }

  lemma {:induction false} PretendAt(ks: seq<Node>, i: nat)
    requires i < |ks|
    ensures |CommitKids(ks, true)| == |ks| && [CommitKids(ks, true)[i]] == CommitNode(ks[i], true)
  {
    hide CommitNode;
    assert |CommitNode(ks[0], true)| == 1 by { PretendKeepsOne(ks[0]); }
    if |ks| > 1 {
      PretendAt(ks[1..], if i > 0 then i - 1 else 0);
    }
  }

  lemma PretendKeepsOne(k: Node)
    ensures |CommitNode(k, true)| == 1
  {
  }

  lemma PretendNode(k: Node)
    ensures var c := CommitNode(k, true)[0];
            && c.name == k.name && c.typ == k.typ && c.isTemplate == k.isTemplate
            && (c.kids == k.kids || c.kids == CommitKids(k.kids, true))
  {
  }

  /** So does a pretended commit, whatever it reaches. */
  lemma {:induction false} PretendConforms(ks: seq<Node>)
    requires Conforms(ks)
    ensures Conforms(CommitKids(ks, true)) && SkeletonOf(CommitKids(ks, true)) == SkeletonOf(ks)
    decreases ks
  {
    hide SkeletonOf, CommitNode, CommitKids;
    var cs := CommitKids(ks, true);
    if ks != [] {
      PretendAt(ks, 0);
    } else {
      assert cs == [] by { NothingCommitted(); }
    }
    forall i | 0 <= i < |ks|
      ensures SkeletonOf(cs[i].kids) == SkeletonOf(ks[i].kids) && Conforms(cs[i].kids) &&
              cs[i].isTemplate == ks[i].isTemplate
      ensures cs[i].name == ks[i].name && cs[i].typ == ks[i].typ
    {
      assert ks[i] in ks;
      PretendAt(ks, i);
      PretendNode(ks[i]);
      PretendConforms(ks[i].kids);
    }
    SameSkeleton(ks, cs);
  }

  lemma NothingCommitted()
    ensures CommitKids([], true) == []
  {
  }

  lemma SameSkeleton(ks: seq<Node>, cs: seq<Node>)
    requires |ks| == |cs| && forall i :: 0 <= i < |ks| ==> cs[i].name == ks[i].name && cs[i].typ == ks[i].typ
    requires forall i :: 0 <= i < |ks| ==>
               cs[i].isTemplate == ks[i].isTemplate && SkeletonOf(cs[i].kids) == SkeletonOf(ks[i].kids)
    ensures SkeletonOf(cs) == SkeletonOf(ks)
  {
    hide FieldsOf;
    forall i | 0 <= i < |ks| ensures FieldsOf(cs)[i] == FieldsOf(ks)[i] {
      FieldAt(ks, i);
      FieldAt(cs, i);
    }
    assert FieldsOf(cs) == FieldsOf(ks);
  }

  /** After any run of commands, loads and pretended commits from a definition with the shape merge relies on, it still
      has that shape: the next load can be merged. */
  lemma {:induction false} RunConforms(ks: seq<Node>, steps: seq<Step>, rules: Rules)
    requires Conforms(ks)
    ensures Conforms(Run(ks, steps, rules)) && SkeletonOf(Run(ks, steps, rules)) == SkeletonOf(ks)
    decreases |steps|
  {
    hide Conforms, SkeletonOf, PrepareKids, Edited, MergeKids, CommitKids;
    if steps != [] {
      match steps[0] {
        case Command(path, e) =>
          EditedConforms(ks, path, e);
        case Load(contents) =>
          PreparedConforms(ks);
          MergeSucceedsIff(PrepareKids(ks), contents, true, rules);
        case Pretend =>
          PretendConforms(ks);
      }
      RunConforms(Stepped(ks, steps[0], rules), steps[1..], rules);
    }
  }

  // ---------------------------------------------------------------- and a discard undoes them

  /** From a clean tree, after any run of commands, loads and pretended commits, discard gives back the tree as it was,
      up to the order of instances, with every node READY. */
  lemma DiscardRestores(ks: seq<Node>, steps: seq<Step>, rules: Rules)
    requires InScope(ks) && Clean(ks) && Legal(ks, steps, rules)
    ensures CanonKids(DiscardKids(Run(ks, steps, rules))) == CanonKids(ks)
    ensures Clean(DiscardKids(Run(ks, steps, rules)))
  {
    RunKeepsDiscard(ks, steps, rules);
    CleanDiscardsToItself(ks);
    DiscardIsClean(Run(ks, steps, rules));
  }
}
