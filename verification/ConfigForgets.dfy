/** When the new mark is lost (src/config/config.cpp:2237-2303, 3021-3082): a pretended commit and a load into an
    uncommitted instance clear it, and what the next discard then keeps is more than was committed.  Exactly when that
    happens. */
module ConfigForgets {
  import opened Wrappers
  import opened ConfigTree
  import opened ConfigTransaction
  import opened ConfigMerge
  import opened ConfigRollback
  import opened ConfigLoad

  // ---------------------------------------------------------------- how much a discard leaves

  /** The number of nodes, a template counted as one. */
  function Size(ks: seq<Node>): nat
    decreases ks, 1
  {
    if ks == [] then 0 else SizeOf(ks[0]) + Size(ks[1..])
  }

  function SizeOf(k: Node): nat
    decreases k, 0
  {
    if k.isTemplate then 1 else 1 + Size(k.kids)
  }

  /** The number of nodes a discard leaves. */
  function Weight(ks: seq<Node>): nat
    decreases ks, 1
  {
    if ks == [] then 0 else WeightOf(ks[0]) + Weight(ks[1..])
  }

  function WeightOf(k: Node): nat
    decreases k, 0
  {
    if k.isTemplate then 1 else if k.isNew then 0 else 1 + Weight(k.kids)
  }

  lemma {:induction false} SizeAppend(a: seq<Node>, b: seq<Node>)
    ensures Size(a + b) == Size(a) + Size(b)
  {
    hide SizeOf;
    if a == [] {
      assert a + b == b;
    } else {
      SizeAppend(a[1..], b);
      assert (a + b)[0] == a[0] && (a + b)[1..] == a[1..] + b;
    }
  }

  lemma {:induction false} DiscardLeaves(ks: seq<Node>)
    ensures Size(DiscardKids(ks)) == Weight(ks)
    decreases ks
  {
    hide DiscardNode;
    if ks != [] {
      DiscardLeaves(ks[0].kids);
      DiscardLeaves(ks[1..]);
      NodeLeaves(ks[0]);
      SizeAppend(DiscardNode(ks[0]), DiscardKids(ks[1..]));
    }
  }

  lemma NodeLeaves(k: Node)
    requires Size(DiscardKids(k.kids)) == Weight(k.kids)
    ensures Size(DiscardNode(k)) == WeightOf(k)
  {
    hide DiscardKids, Weight;
    var ds := DiscardNode(k);
    assert ds != [] ==> ds == [ds[0]] && ds[1..] == [];
  }

  lemma SameHead(a: Node, b: Node)
    requires Canon(a) == Canon(b)
    ensures a.isTemplate == b.isTemplate && CanonKids(a.kids) == CanonKids(b.kids)
  {
    assert Head(a) == Head(b);
  }

  /** Trees that are the same up to the order of instances have the same number of nodes. */
  lemma {:induction false} SameCanonSize(a: seq<Node>, b: seq<Node>)
    requires CanonKids(a) == CanonKids(b)
    ensures Size(a) == Size(b)
    decreases a, 1
  {
    hide Canon;
    assert HasTemplate(a) == HasTemplate(b) by { SameKind(a, b); }
    if HasTemplate(a) {
      SameBagSize(a[1..], b[1..]);
    } else {
      SameBagSize(a, b);
    }
  }

  lemma SameKind(a: seq<Node>, b: seq<Node>)
    requires CanonKids(a) == CanonKids(b)
    ensures HasTemplate(a) == HasTemplate(b)
  {
    hide Canon, Canons;
    if a != [] && b != [] {
      CanonsAt(a, 0);
      CanonsAt(b, 0);
      SameHead(a[0], b[0]);
    }
  }

  lemma {:induction false} SameBagSize(a: seq<Node>, b: seq<Node>)
    requires multiset(Canons(a)) == multiset(Canons(b))
    ensures Size(a) == Size(b)
    decreases a, 0
  {
    hide Canon, SizeOf, Canons, CanonKids, Head;
    if a == [] {
      assert |multiset(Canons(b))| == |b|;
    } else {
      var j := FindCanon(a, b);
      var rest := Without(b, j);
      SameBagSize(a[1..], rest);
      SameHead(a[0], b[j]);
      if !a[0].isTemplate {
        SameCanonSize(a[0].kids, b[j].kids);
      }
      SameSizeOf(a[0], b[j]);
    }
  }

  lemma SameSizeOf(a: Node, b: Node)
    requires a.isTemplate == b.isTemplate && (!a.isTemplate ==> Size(a.kids) == Size(b.kids))
    ensures SizeOf(a) == SizeOf(b)
  {
  }

  lemma FindCanon(a: seq<Node>, b: seq<Node>) returns (j: nat)
    requires a != [] && multiset(Canons(a)) == multiset(Canons(b))
    ensures j < |b| && Canon(b[j]) == Canon(a[0]) &&
            multiset(Canons(a[1..])) == multiset(Canons(b)) - multiset{Canon(a[0])}
  {
    hide Canon;
    assert Canon(a[0]) in multiset(Canons(b));
    j :| 0 <= j < |b| && Canons(b)[j] == Canon(a[0]);
    CanonsAt(b, j);
  }

  /** A list without one of its nodes. */
  lemma Without(b: seq<Node>, j: nat) returns (rest: seq<Node>)
    requires j < |b|
    ensures multiset(Canons(rest)) == multiset(Canons(b)) - multiset{Canon(b[j])}
    ensures Size(b) == SizeOf(b[j]) + Size(rest)
  {
    hide Canon, SizeOf;
    var front, back := b[..j], b[j + 1..];
    rest := front + back;
    assert b == front + ([b[j]] + back) && ([b[j]] + back)[1..] == back;
    SizeAppend(front, [b[j]] + back);
    SizeAppend(front, back);
    CanonsAppend(front, [b[j]] + back);
    CanonsAppend(front, back);
  }

  /** So where the weights differ, the discards do. */
  lemma KeptWeighs(a: seq<Node>, b: seq<Node>)
    requires Kept(a) == Kept(b)
    ensures Weight(a) == Weight(b)
  {
    SameCanonSize(DiscardKids(a), DiscardKids(b));
    DiscardLeaves(a);
    DiscardLeaves(b);
  }

  // ---------------------------------------------------------------- a pretended commit in between

  predicate NotNew(k: Node) {
    k.isTemplate || (!k.isNew && (k.state == Deleted || NoneNew(k.kids)))
  }

  lemma {:induction false} PretendWeighs(ks: seq<Node>)
    ensures Weight(CommitKids(ks, true)) >= Weight(ks)
    ensures !NoneNew(ks) ==> Weight(CommitKids(ks, true)) > Weight(ks)
    decreases ks
  {
    hide CommitNode, WeightOf, NoneNew, NotNew;
    if ks == [] {
      assert NoneNew(ks) by { NothingNew(); }
    } else {
      var k, rest := ks[0], ks[1..];
      PretendWeighs(k.kids);
      PretendWeighs(rest);
      PretendNodeWeighs(k);
      assert CommitKids(ks, true)[0] == CommitNode(k, true)[0] && CommitKids(ks, true)[1..] == CommitKids(rest, true);
      NoneNewSplit(ks);
    }
  }

  lemma NothingNew()
    ensures NoneNew([])
  {
  }

  lemma NoneNewSplit(ks: seq<Node>)
    requires ks != []
    ensures NotNew(ks[0]) && NoneNew(ks[1..]) ==> NoneNew(ks)
  {
    assert forall k | k in ks :: k == ks[0] || k in ks[1..];
  }

  lemma PretendNodeWeighs(k: Node)
    requires Weight(CommitKids(k.kids, true)) >= Weight(k.kids)
    requires !NoneNew(k.kids) ==> Weight(CommitKids(k.kids, true)) > Weight(k.kids)
    ensures |CommitNode(k, true)| == 1 && WeightOf(CommitNode(k, true)[0]) >= WeightOf(k)
    ensures !NotNew(k) ==> WeightOf(CommitNode(k, true)[0]) > WeightOf(k)
  {
    hide CommitKids, Weight, NoneNew;
  }

  /** A discard after a pretended commit gives what it would have given without it, up to the order of instances, if and
      only if no new node is reached. */
  lemma PretendKeepsDiscardIff(ks: seq<Node>)
    ensures Kept(CommitKids(ks, true)) == Kept(ks) <==> NoneNew(ks)
  {
    hide Kept, NoneNew, CommitKids;
    if NoneNew(ks) {
      NothingToForget(ks);
    } else {
      PretendWeighs(ks);
      if Kept(CommitKids(ks, true)) == Kept(ks) {
        KeptWeighs(CommitKids(ks, true), ks);
      }
    }
  }

  // ---------------------------------------------------------------- a load into an uncommitted instance

  /** A node the file goes into while it is new, or inside of which it does so further down. */
  ghost predicate Forgets(k: Node, f: File, how: How) {
    if k.isNew then how == IntoInstance else !NamesNoNew(k.kids, f.kids)
  }

  lemma {:induction false} WeightEach(ks: seq<Node>, ks': seq<Node>)
    requires |ks| == |ks'| && forall i :: 0 <= i < |ks| ==> WeightOf(ks[i]) <= WeightOf(ks'[i])
    ensures Weight(ks) <= Weight(ks')
    ensures forall i :: 0 <= i < |ks| && WeightOf(ks[i]) < WeightOf(ks'[i]) ==> Weight(ks) < Weight(ks')
  {
    hide WeightOf;
    if ks != [] {
      WeightEach(ks[1..], ks'[1..]);
      forall i | 0 <= i < |ks| && WeightOf(ks[i]) < WeightOf(ks'[i]) ensures Weight(ks) < Weight(ks') {
        if i > 0 {
          assert ks[1..][i - 1] == ks[i] && ks'[1..][i - 1] == ks'[i];
        }
      }
    }
  }

  /** As many marks as a discard leaves nodes of k. */
  function Marks(k: Node): (r: seq<bool>)
    ensures |r| == WeightOf(k)
  {
    seq(WeightOf(k), _ => true)
  }

  lemma {:induction false} BagMarks(ks: seq<Node>)
    ensures |Bag(ks, Marks)| == Weight(ks)
  {
    hide Marks, WeightOf;
    if ks != [] {
      BagMarks(ks[1..]);
    }
  }

  lemma LookupIs(fs: seq<File>, f: File)
    requires FilesDiffer(fs) && f in fs
    ensures Lookup(fs, f.name) == Some(f)
  {
    hide FilesDiffer;
    var g := Lookup(fs, f.name).value;
    SameFile(fs, f, g);
  }

  lemma SameFile(fs: seq<File>, f: File, g: File)
    requires FilesDiffer(fs) && f in fs && g in fs && f.name == g.name
    ensures f == g
  {
    var i :| 0 <= i < |fs| && fs[i] == f;
    var j :| 0 <= j < |fs| && fs[j] == g;
  }

  /** A node takes up the file: a discard keeps at least as much of it, and more if the new mark is lost. */
  lemma {:induction false} MergedWeighs(k: Node, f: File, how: How, rules: Rules)
    requires !k.isTemplate && NodeInScope(k) && AllNamesDiffer(k.kids) && Unique(f.kids) && how != Final
    requires MergeKids(k.kids, f.kids, true, rules).1
    ensures WeightOf(Merged(k, Some(f), how, rules)) >= WeightOf(k)
    ensures Forgets(k, f, how) ==> WeightOf(Merged(k, Some(f), how, rules)) > WeightOf(k)
    decreases f, 0
  {
    hide MergeKids, NodeInScope, AllNamesDiffer, Unique, NamesNoNew, Weight;
    KidsInScope(k);
    MergeWeighs(k.kids, f.kids, rules);
  }

  lemma KidsInScope(k: Node)
    requires NodeInScope(k)
    ensures InScope(k.kids)
  {
  }

  /** What the lemmas below need of the children that are no template, and of the file. */
  ghost predicate Taken(ks: seq<Node>, fs: seq<File>, rules: Rules) {
    && (forall k | k in ks :: !k.isTemplate && NodeInScope(k) && AllNamesDiffer(k.kids))
    && (forall f | f in fs :: Unique(f.kids)) && Succeeded(ks, fs, true, rules)
  }

  lemma {:induction false} EachWeighs(ks: seq<Node>, fs: seq<File>, how: How, rules: Rules)
    requires Taken(ks, fs, rules) && FilesDiffer(fs) && how != Final
    ensures Weight(MergedEach(ks, fs, how, rules)) >= Weight(ks)
    ensures (exists f, k :: f in fs && k in ks && k.name == f.name && Forgets(k, f, how)) ==>
              Weight(MergedEach(ks, fs, how, rules)) > Weight(ks)
    decreases fs, 0
  {
    hide MergeKids, NodeInScope, AllNamesDiffer, Unique, Forgets, Weight, WeightOf, Merged, FilesDiffer;
    var ms := MergedEach(ks, fs, how, rules);
    forall i | 0 <= i < |ks|
      ensures WeightOf(ks[i]) <= WeightOf(ms[i])
      ensures var f := Lookup(fs, ks[i].name); f.Some? && Forgets(ks[i], f.value, how) ==>
                WeightOf(ks[i]) < WeightOf(ms[i])
    {
      MergedAt(ks, fs, how, rules, i);
      var f := Lookup(fs, ks[i].name);
      assert ks[i] in ks;
      if f.Some? {
        MergedWeighs(ks[i], f.value, how, rules);
      } else {
        Unmentioned(ks[i], how, rules);
      }
    }
    WeightEach(ks, ms);
    if f, k :| f in fs && k in ks && k.name == f.name && Forgets(k, f, how) {
      LookupIs(fs, f);
      var i :| 0 <= i < |ks| && ks[i] == k;
      assert WeightOf(ks[i]) < WeightOf(ms[i]);
    }
  }

  lemma Unmentioned(k: Node, how: How, rules: Rules)
    ensures Merged(k, None, how, rules) == k
  {
  }

  /** A load that succeeds leaves a discard at least as much to keep, and more if it names a node that is new. */
  lemma {:induction false} MergeWeighs(ks: seq<Node>, fs: seq<File>, rules: Rules)
    requires InScope(ks) && AllNamesDiffer(ks) && Unique(fs) && MergeKids(ks, fs, true, rules).1
    ensures Weight(MergeKids(ks, fs, true, rules).0) >= Weight(ks)
    ensures !NamesNoNew(ks, fs) ==> Weight(MergeKids(ks, fs, true, rules).0) > Weight(ks)
    decreases fs, 1
  {
    hide MergeKids, InScope, AllNamesDiffer, Unique, NamesNoNew, Weight, NamesDiffer, FilesDiffer, Succeeded,
         NewSucceeded;
    UniqueFiles(fs);
    FilesUnique(fs);
    NamesOf(ks);
    if HasTemplate(ks) {
      var rest := ks[1..];
      MergeListed(ks, fs, rules, Marks);
      EachWeighs(rest, fs, IntoInstance, rules);
      WeighsListed(ks, MergeKids(ks, fs, true, rules).0, MergedEach(rest, fs, IntoInstance, rules),
                   NewOnes(ks[0], rest, fs, rules));
      if !NamesNoNew(ks, fs) {
        SomeForgets(ks, rest, fs, IntoInstance);
      }
    } else {
      MergeFixed(ks, fs, Pending, rules);
      EachWeighs(ks, fs, Pending, rules);
      if !NamesNoNew(ks, fs) {
        SomeForgets(ks, ks, fs, Pending);
      }
    }
  }

  lemma FilesUnique(fs: seq<File>)
    requires Unique(fs)
    ensures forall f | f in fs :: Unique(f.kids)
  {
  }

  lemma NamesOf(ks: seq<Node>)
    requires InScope(ks) && AllNamesDiffer(ks)
    ensures NamesDiffer(if HasTemplate(ks) then ks[1..] else ks)
    ensures forall k | k in if HasTemplate(ks) then ks[1..] else ks ::
              k in ks && !k.isTemplate && NodeInScope(k) && AllNamesDiffer(k.kids)
  {
    hide NamesDiffer, NodeInScope;
    if HasTemplate(ks) {
      forall k | k in ks[1..] ensures k in ks && !k.isTemplate {
        var i :| 0 <= i < |ks[1..]| && ks[1..][i] == k;
        assert ks[i + 1] == k;
      }
    }
  }

  /** The node that makes the difference. */
  lemma SomeForgets(ks: seq<Node>, rest: seq<Node>, fs: seq<File>, how: How)
    requires !NamesNoNew(ks, fs) && how == (if HasTemplate(ks) then IntoInstance else Pending)
    requires rest == if HasTemplate(ks) then ks[1..] else ks
    ensures exists f, k :: f in fs && k in rest && k.name == f.name && Forgets(k, f, how)
  {
    var f, k :| f in fs && k in ks && !k.isTemplate && k.name == f.name
                && !(if k.isNew then !HasTemplate(ks) else NamesNoNew(k.kids, f.kids));
    assert Forgets(k, f, how);
    if HasTemplate(ks) {
      var i :| 0 <= i < |ks| && ks[i] == k;
      assert rest[i - 1] == k;
    }
  }

  lemma WeighsListed(ks: seq<Node>, ks': seq<Node>, merged: seq<Node>, added: seq<Node>)
    requires HasTemplate(ks) && HasTemplate(ks') && Bag(ks'[1..], Marks) == Bag(merged, Marks) + Bag(added, Marks)
    ensures Weight(ks') - Weight(ks) >= Weight(merged) - Weight(ks[1..])
  {
    hide Bag;
    BagMarks(ks'[1..]);
    BagMarks(merged);
    BagMarks(added);
  }

  /** After a load that succeeds a discard gives what it would have given without it, up to the order of instances, if
      and only if the file names no instance that is still uncommitted. */
  lemma MergeKeepsDiscardIff(ks: seq<Node>, fs: seq<File>, rules: Rules)
    requires InScope(ks) && AllNamesDiffer(ks) && Unique(fs) && MergeKids(ks, fs, true, rules).1
    ensures Kept(MergeKids(ks, fs, true, rules).0) == Kept(ks) <==> NamesNoNew(ks, fs)
  {
    hide Kept, NamesNoNew, MergeKids, InScope, AllNamesDiffer, Unique, Weight;
    var ks' := MergeKids(ks, fs, true, rules).0;
    if NamesNoNew(ks, fs) {
      MergeKeepsDiscard(ks, fs, rules);
    } else {
      MergeWeighs(ks, fs, rules);
      if Kept(ks') == Kept(ks) {
        KeptWeighs(ks', ks);
      }
    }
  }

  /** After any load, however far it gets, a discard gives what it would have given without it, up to the order of
      instances, if and only if the part merge gets to names no instance that is still uncommitted. */
  lemma LoadKeepsDiscardIff(ks: seq<Node>, fs: seq<File>, rules: Rules)
    requires InScope(ks) && AllNamesDiffer(ks) && Unique(fs)
    ensures Kept(MergeKids(ks, fs, true, rules).0) == Kept(ks) <==> NamesNoNew(ks, GotTo(ks, fs, rules))
  {
    hide Kept, NamesNoNew, MergeKids, InScope, AllNamesDiffer, Unique, GotTo;
    GotToMerges(ks, fs, rules);
    GotToUnique(ks, fs, rules);
    MergeKeepsDiscardIff(ks, GotTo(ks, fs, rules), rules);
  }

  // ---------------------------------------------------------------- both do happen

  function Instance(name: string, isNew: bool): Node {
    Node(name, Block, "", "", "", Modified, false, false, isNew, None, [])
  }

  /** A list of one template and one instance, not committed yet. */
  function OneUncommitted(): seq<Node> {
    [Node("t", Block, "", "", "", Ready, true, false, false, None, []), Instance("x", true)]
  }

  /** The instance a discard would take away stays after a pretended commit. */
  lemma PretendForgets()
    ensures Kept(CommitKids(OneUncommitted(), true)) != Kept(OneUncommitted())
  {
    hide Kept;
    var ks := OneUncommitted();
    assert ks[1] in ks && !NoneNew(ks);
    PretendKeepsDiscardIff(ks);
  }

  /** And after a load that names it. */
  lemma LoadForgets(rules: Rules)
    requires Fits(rules, "", "x")
    ensures var ks, fs := OneUncommitted(), [File("x", Block, "", [])];
            MergeKids(ks, fs, true, rules).1 && Kept(MergeKids(ks, fs, true, rules).0) != Kept(ks)
  {
    hide Kept, Fits;
    var ks, f := OneUncommitted(), File("x", Block, "", []);
    assert f in [f] && [f][1..] == [] && ks[1] in ks && !NamesNoNew(ks, [f]);
    assert ks[1..] == [ks[1]];
    OneName(ks[1]);
    NothingNamed();
    assert AllNamesDiffer(ks);
    NoFile([], rules);
    OneFile(ks, f, rules);
    MergeKeepsDiscardIff(ks, [f], rules);
  }

  lemma NothingNamed()
    ensures AllNamesDiffer([])
  {
  }
}
