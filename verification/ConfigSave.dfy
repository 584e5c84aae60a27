/** Save, then load: printing a clean configuration, parsing the file, reset and merge give the configuration back
    (src/config/config.cpp:1003-1205, 2860-2886, 2959-3088, and the contents grammar). */
module ConfigSave {
  import opened Wrappers
  import opened ConfigTree
  import opened ConfigTransaction
  import opened ConfigMerge
  import opened ConfigLoad
  import CF = ConfigFile

  // ---------------------------------------------------------------- contents, up to the order of instances

  datatype Content = CItem(name: string, value: string)
                   | CBlock(name: string, ordered: seq<Content>, instances: multiset<Content>)

  /** Values and instances.  With `saved` the instances that have nothing to print are left out. */
  function ContentOf(ks: seq<Node>, saved: bool): (seq<Content>, multiset<Content>)
    decreases ks, 1
  {
    if HasTemplate(ks) then ([], multiset(Instances(ks[1..], saved))) else (Contents(ks, saved), multiset{})
  }

  function Contents(ks: seq<Node>, saved: bool): seq<Content>
    decreases ks, 0
  {
    if ks == [] then [] else [ContentAt(ks[0], saved)] + Contents(ks[1..], saved)
  }

  function Instances(ks: seq<Node>, saved: bool): seq<Content>
    decreases ks, 0
  {
    if ks == [] then [] else InstanceAt(ks[0], saved) + Instances(ks[1..], saved)
  }

  function InstanceAt(k: Node, saved: bool): seq<Content>
    decreases k, 3
  {
    if saved && CF.FileOfNode(k) == [] then [] else [ContentAt(k, saved)]
  }

  function ContentAt(k: Node, saved: bool): Content
    decreases k, 2
  {
    if k.nodeType == Item then CItem(k.name, k.value)
    else
      var c := ContentOf(k.kids, saved);
      CBlock(k.name, c.0, c.1)
  }

  function Loaded(k: Node): seq<Content> {
    InstanceAt(k, false)
  }

  lemma {:induction false} InstancesBag(ks: seq<Node>)
    ensures multiset(Instances(ks, false)) == Bag(ks, Loaded)
  {
    hide ContentAt;
    if ks != [] {
      InstancesBag(ks[1..]);
    }
  }

  lemma {:induction false} ContentsAt(ks: seq<Node>, saved: bool, i: nat)
    requires i < |ks|
    ensures |Contents(ks, saved)| == |ks| && Contents(ks, saved)[i] == ContentAt(ks[i], saved)
  {
    ContentsLength(ks, saved);
    if i > 0 {
      ContentsAt(ks[1..], saved, i - 1);
    }
  }

  lemma {:induction false} ContentsLength(ks: seq<Node>, saved: bool)
    ensures |Contents(ks, saved)| == |ks|
  {
    if ks != [] {
      ContentsLength(ks[1..], saved);
    }
  }

  // ---------------------------------------------------------------- what a saved configuration meets

  /** The same tree with no state. */
  function Blank(ks: seq<Node>): (r: seq<Node>)
    ensures |r| == |ks|
  {
    CopyKids(ks, Some(Ready))
  }

  /** What instances share with their template: all but values, states and instances. */
  function Shape(ks: seq<Node>): seq<Node> {
    Blank(ResetKids(ks))
  }

  /** Instances are copies of their template, up to values, states and instances. */
  ghost predicate Copies(ks: seq<Node>)
    decreases ks
  {
    && (HasTemplate(ks) ==> forall i :: 0 < i < |ks| ==> Shape(ks[i].kids) == Shape(ks[0].kids))
    && forall k | k in ks :: Copies(k.kids)
  }

  /** Values fit their types, and instance names their template's. */
  ghost predicate Accepted(ks: seq<Node>, rules: Rules)
    decreases ks
  {
    && (HasTemplate(ks) ==> forall i :: 0 < i < |ks| ==> Fits(rules, ks[0].typ, ks[i].name))
    && forall k | k in ks ::
         (k.nodeType == Item && k.value != "" ==> Fits(rules, k.typ, k.value)) &&
           (k.isTemplate || Accepted(k.kids, rules))
  }

  ghost predicate Savable(ks: seq<Node>, rules: Rules) {
    Sound(ks) && CF.Printable(ks) && Copies(ks) && Accepted(ks, rules)
  }

  lemma SavableKids(ks: seq<Node>, k: Node, rules: Rules)
    requires Savable(ks, rules) && k in ks && !k.isTemplate
    ensures Savable(k.kids, rules) && NodeInScope(k) && k.state == Ready && !k.isNew
    ensures k.nodeType == Item && k.value != "" ==> Fits(rules, k.typ, k.value)
  {
    SoundKids(ks, k);
  }

  // ---------------------------------------------------------------- reset

  lemma {:induction false} ResetAt(ks: seq<Node>, i: nat)
    requires i < |ks|
    ensures ResetEach(ks)[i] == ks[i].(value := "", newValue := "", state := Ready, kids := ResetKids(ks[i].kids))
  {
    if i > 0 {
      ResetAt(ks[1..], i - 1);
    }
  }

  lemma {:induction false} ResetSkeleton(ks: seq<Node>)
    ensures SkeletonOf(ResetKids(ks)) == SkeletonOf(ks)
    decreases ks, 1
  {
    if HasTemplate(ks) {
      assert ks[0] in ks;
      ResetSkeleton(ks[0].kids);
    } else {
      ResetFields(ks);
      assert !HasTemplate(ResetEach(ks)) by { if ks != [] { ResetAt(ks, 0); } }
    }
  }

  lemma {:induction false} ResetFields(ks: seq<Node>)
    ensures FieldsOf(ResetEach(ks)) == FieldsOf(ks)
    decreases ks, 0
  {
    if ks != [] {
      ResetSkeleton(ks[0].kids);
      ResetFields(ks[1..]);
      assert ResetEach(ks)[1..] == ResetEach(ks[1..]);
    }
  }

  /** A reset definition conforms: there are no instances left to disagree with their templates. */
  lemma {:induction false} ResetConforms(ks: seq<Node>)
    requires InScope(ks)
    ensures Conforms(ResetKids(ks))
    decreases ks
  {
    forall k | k in ks ensures Conforms(ResetKids(k.kids)) {
      assert NodeInScope(k);
      ResetConforms(k.kids);
    }
    var rs := ResetKids(ks);
    forall i | 0 <= i < |rs| ensures Conforms(rs[i].kids) && (i > 0 ==> !rs[i].isTemplate) {
      assert ks[i] in ks;
      if !HasTemplate(ks) {
        ResetAt(ks, i);
      }
    }
  }

  /** On a reset definition merge and validate agree, up to the names of instances. */
  lemma MergeOnReset(ks: seq<Node>, fs: seq<File>, rules: Rules)
    requires InScope(ks)
    ensures MergeKids(ResetKids(ks), fs, false, rules).1
            <==> Validate(ResetKids(ks), fs, rules) && NamesFit(SkeletonOf(ks), fs, rules)
  {
    ResetConforms(ks);
    ResetSkeleton(ks);
    MergeAgreesWithValidate(ResetKids(ks), fs, false, rules);
  }

  lemma ShapeSkeleton(ks: seq<Node>)
    ensures SkeletonOf(Shape(ks)) == SkeletonOf(ks)
  {
    CopyKeepsSkeleton(ResetKids(ks), Some(Ready));
    ResetSkeleton(ks);
  }

  // ---------------------------------------------------------------- merging for good takes no notice of states

  function BlankNode(k: Node): Node {
    k.(state := Ready, isNew := false, kids := Blank(k.kids))
  }

  lemma BlankAt(ks: seq<Node>, i: nat)
    requires i < |ks|
    ensures Blank(ks)[i] == BlankNode(ks[i])
  {
    CopyAt(ks, Some(Ready), i);
  }

  /** Only the last copy's state counts. */
  lemma {:induction false} CopyCopied(ks: seq<Node>, state: Option<NodeState>)
    ensures Blank(CopyKids(ks, state)) == Blank(ks) && CopyKids(Blank(ks), None) == Blank(ks)
    decreases ks
  {
    if ks != [] {
      CopyCopied(ks[0].kids, state);
      CopyCopied(ks[1..], state);
      assert CopyKids(ks, state)[1..] == CopyKids(ks[1..], state) && Blank(ks)[1..] == Blank(ks[1..]);
    }
  }

  lemma {:induction false} BlankAppend(a: seq<Node>, b: seq<Node>)
    ensures Blank(a + b) == Blank(a) + Blank(b)
  {
    var now, want := Blank(a + b), Blank(a) + Blank(b);
    forall i | 0 <= i < |now| ensures now[i] == want[i] {
      BlankAt(a + b, i);
      if i < |a| {
        BlankAt(a, i);
      } else {
        BlankAt(b, i - |a|);
      }
    }
  }

  lemma BlankOne(k: Node)
    ensures Blank([k]) == [BlankNode(k)]
  {
    BlankAt([k], 0);
  }

  lemma BlankTail(ks: seq<Node>)
    requires ks != []
    ensures Blank(ks)[0] == BlankNode(ks[0]) && Blank(ks)[1..] == Blank(ks[1..])
  {
    BlankAt(ks, 0);
    assert ks == [ks[0]] + ks[1..];
    BlankAppend([ks[0]], ks[1..]);
  }

  lemma BlankUpdate(ks: seq<Node>, j: nat, k: Node)
    requires j < |ks|
    ensures Blank(ks[j := k]) == Blank(ks)[j := BlankNode(k)]
  {
    var now, want := Blank(ks[j := k]), Blank(ks)[j := BlankNode(k)];
    forall i | 0 <= i < |ks| ensures now[i] == want[i] {
      BlankAt(ks[j := k], i);
      BlankAt(ks, i);
    }
  }

  lemma BlankFind(ks: seq<Node>, name: string, from: nat)
    requires from <= |ks|
    ensures Find(Blank(ks), name, from) == Find(ks, name, from)
    decreases |ks| - from
  {
    if from < |ks| {
      BlankAt(ks, from);
      BlankFind(ks, name, from + 1);
    }
  }

  lemma BlankBefore(rules: Rules, a: Node, b: Node)
    ensures Before(rules, BlankNode(a), BlankNode(b)) == Before(rules, a, b)
  {
    BlankSortValue(a);
    BlankSortValue(b);
  }

  lemma BlankSortValue(k: Node)
    ensures SortValue(BlankNode(k)) == SortValue(k)
  {
    if k.sortName.Some? {
      BlankFind(k.kids, k.sortName.value, 0);
      var i := Find(k.kids, k.sortName.value, 0);
      if i < |k.kids| {
        BlankAt(k.kids, i);
      }
    }
  }

  lemma {:induction false} BlankInsert(rules: Rules, k: Node, ks: seq<Node>)
    ensures Insert(rules, BlankNode(k), Blank(ks)) == Blank(Insert(rules, k, ks))
  {
    hide Blank, BlankNode, Before;
    if ks == [] {
      BlankOne(k);
      assert [k] + ks == [k] && [BlankNode(k)] + Blank(ks) == [BlankNode(k)];
    } else {
      BlankTail(ks);
      BlankBefore(rules, k, ks[0]);
      BlankInsert(rules, k, ks[1..]);
      BlankAppend([k], ks);
      BlankOne(k);
      BlankAppend([ks[0]], Insert(rules, k, ks[1..]));
      BlankOne(ks[0]);
    }
  }

  lemma {:induction false} BlankSorted(rules: Rules, ks: seq<Node>)
    ensures Sorted(rules, Blank(ks)) == Blank(Sorted(rules, ks))
  {
    hide Insert;
    if ks != [] {
      var front, last := ks[..|ks| - 1], ks[|ks| - 1];
      BlankSorted(rules, front);
      BlankInsert(rules, last, Sorted(rules, front));
      assert ks == front + [last];
      BlankAppend(front, [last]);
      BlankOne(last);
      assert Blank(ks)[..|ks| - 1] == Blank(front);
    }
  }

  lemma BlankWithInstance(ks: seq<Node>, k: Node, rules: Rules)
    requires HasTemplate(ks)
    ensures HasTemplate(Blank(ks)) && WithInstance(Blank(ks), BlankNode(k), rules) == Blank(WithInstance(ks, k, rules))
  {
    hide Sorted, Blank;
    BlankTail(ks);
    BlankOne(k);
    BlankAppend(ks, [k]);
    BlankAppend(ks[1..], [k]);
    BlankSorted(rules, ks[1..] + [k]);
    BlankOne(ks[0]);
    BlankAppend([ks[0]], Sorted(rules, ks[1..] + [k]));
  }

  /** What a merge for good makes of a tree without its states is what it makes of the tree, without its states. */
  lemma {:induction false} BlankMerge(ks: seq<Node>, fs: seq<File>, rules: Rules)
    ensures var (ks', ok) := MergeKids(ks, fs, false, rules);
            MergeKids(Blank(ks), fs, false, rules) == (Blank(ks'), ok)
    decreases fs, 1
  {
    hide MergeOne, Blank;
    if fs != [] {
      BlankMergeOne(ks, fs[0], rules);
      BlankMerge(MergeOne(ks, fs[0], false, rules).0, fs[1..], rules);
    }
  }

  lemma {:induction false} BlankMergeOne(ks: seq<Node>, f: File, rules: Rules)
    ensures var (ks', ok) := MergeOne(ks, f, false, rules);
            MergeOne(Blank(ks), f, false, rules) == (Blank(ks'), ok)
    decreases f, 0
  {
    hide Blank, WithInstance;
    if ks != [] {
      BlankTail(ks);
    }
    if HasTemplate(ks) {
      var d := NewInstance(ks[0], f.name, false);
      CopyCopied(ks[0].kids, None);
      BlankMerge(d.kids, f.kids, rules);
      BlankWithInstance(ks, d.(kids := MergeKids(d.kids, f.kids, false, rules).0), rules);
    } else {
      var j := Find(ks, f.name, 0);
      BlankFind(ks, f.name, 0);
      if j < |ks| {
        BlankAt(ks, j);
        var d := if f.nodeType == Item then Assigned(ks[j], f.value, false) else ks[j];
        BlankMerge(d.kids, f.kids, rules);
        BlankUpdate(ks, j, d.(kids := MergeKids(d.kids, f.kids, false, rules).0));
      }
    }
  }

  /** Contents have no states. */
  lemma {:induction false} BlankContent(ks: seq<Node>)
    ensures ContentOf(Blank(ks), false) == ContentOf(ks, false)
    decreases ks, 1
  {
    hide Blank;
    if ks != [] {
      BlankTail(ks);
    }
    if HasTemplate(ks) {
      BlankInstances(ks[1..]);
    } else {
      BlankContents(ks);
    }
  }

  lemma {:induction false} BlankContents(ks: seq<Node>)
    ensures Contents(Blank(ks), false) == Contents(ks, false)
    decreases ks, 0
  {
    hide Blank;
    if ks != [] {
      BlankTail(ks);
      BlankContent(ks[0].kids);
      BlankContents(ks[1..]);
    }
  }

  lemma {:induction false} BlankInstances(ks: seq<Node>)
    ensures Instances(Blank(ks), false) == Instances(ks, false)
    decreases ks, 0
  {
    hide Blank;
    if ks != [] {
      BlankTail(ks);
      BlankContent(ks[0].kids);
      BlankInstances(ks[1..]);
      assert InstanceAt(BlankNode(ks[0]), false) == InstanceAt(ks[0], false);
    }
  }

  /** So a merge for good into trees of the same shape gives the same contents. */
  lemma SameShapeMerges(a: seq<Node>, b: seq<Node>, fs: seq<File>, rules: Rules)
    requires Blank(a) == Blank(b)
    ensures ContentOf(MergeKids(a, fs, false, rules).0, false) == ContentOf(MergeKids(b, fs, false, rules).0, false)
  {
    hide Blank, MergeKids, ContentOf;
    BlankMerge(a, fs, rules);
    BlankMerge(b, fs, rules);
    BlankContent(MergeKids(a, fs, false, rules).0);
    BlankContent(MergeKids(b, fs, false, rules).0);
  }

  // ---------------------------------------------------------------- the printed file is accepted

  lemma {:induction false} FileMember(ks: seq<Node>, f: File) returns (i: nat)
    requires f in CF.FileOf(ks)
    ensures i < |ks| && CF.FileOfNode(ks[i]) == [f]
  {
    if f in CF.FileOfNode(ks[0]) {
      i := 0;
    } else {
      i := FileMember(ks[1..], f);
      i := i + 1;
    }
  }

  lemma {:induction false} AcceptsAll(sk: Skeleton, fs: seq<File>, rules: Rules)
    requires forall f | f in fs :: AcceptsOne(sk, f, rules) && NameFits(sk, f, rules)
    ensures Accepts(sk, fs, rules) && NamesFit(sk, fs, rules)
  {
    hide AcceptsOne, NameFits;
    if fs != [] {
      assert fs[0] in fs;
      AcceptsAll(sk, fs[1..], rules);
    }
  }

  lemma {:induction false} FileAccepted(ks: seq<Node>, rules: Rules)
    requires Savable(ks, rules)
    ensures Accepts(SkeletonOf(ks), CF.FileOf(ks), rules) && NamesFit(SkeletonOf(ks), CF.FileOf(ks), rules)
    decreases ks, 1
  {
    hide AcceptsOne, NameFits, Savable, SkeletonOf;
    forall f | f in CF.FileOf(ks) ensures AcceptsOne(SkeletonOf(ks), f, rules) && NameFits(SkeletonOf(ks), f, rules) {
      var i := FileMember(ks, f);
      OneAccepted(ks, i, f, rules);
    }
    AcceptsAll(SkeletonOf(ks), CF.FileOf(ks), rules);
  }

  lemma {:induction false} OneAccepted(ks: seq<Node>, i: nat, f: File, rules: Rules)
    requires Savable(ks, rules) && i < |ks| && CF.FileOfNode(ks[i]) == [f]
    ensures AcceptsOne(SkeletonOf(ks), f, rules) && NameFits(SkeletonOf(ks), f, rules)
    decreases ks, 0
  {
    hide NamesDiffer, InScope, Settled, CF.Printable, Shape;
    var k := ks[i];
    SavableKids(ks, k, rules);
    FileAccepted(k.kids, rules);
    if HasTemplate(ks) {
      ShapeSkeleton(k.kids);
      ShapeSkeleton(ks[0].kids);
      InstanceIsBlock(ks, i);
    } else {
      FirstField(ks, i);
      FieldAt(ks, i);
    }
  }

  lemma InstanceIsBlock(ks: seq<Node>, i: nat)
    requires Sound(ks) && HasTemplate(ks) && i < |ks|
    ensures ks[i].nodeType == Block
  {
  }

  lemma FirstField(ks: seq<Node>, i: nat)
    requires Sound(ks) && !HasTemplate(ks) && i < |ks|
    ensures FindField(FieldsOf(ks), ks[i].name, 0) == i
  {
    var j := FindField(FieldsOf(ks), ks[i].name, 0);
    FieldAt(ks, i);
    if j < i {
      FieldAt(ks, j);
      NamesDifferAt(ks, j, i);
    }
  }

  lemma SaveAccepted(ks: seq<Node>, rules: Rules)
    requires Savable(ks, rules)
    ensures MergeKids(ResetKids(ks), CF.FileOf(ks), false, rules).1
  {
    ResetConforms(ks);
    ResetSkeleton(ks);
    FileAccepted(ks, rules);
    MergeSucceedsIff(ResetKids(ks), CF.FileOf(ks), false, rules);
  }

  // ---------------------------------------------------------------- merging into a list for good

  function NewFinal(tmpl: Node, f: File, rules: Rules): Node {
    var d := NewInstance(tmpl, f.name, false);
    d.(kids := MergeKids(d.kids, f.kids, false, rules).0)
  }

  function NewFinals(tmpl: Node, fs: seq<File>, rules: Rules): seq<Node> {
    if fs == [] then [] else [NewFinal(tmpl, fs[0], rules)] + NewFinals(tmpl, fs[1..], rules)
  }

  lemma {:induction false} MergeListedFinal<T>(ks: seq<Node>, fs: seq<File>, rules: Rules, g: Node -> seq<T>)
    requires HasTemplate(ks) && MergeKids(ks, fs, false, rules).1
    ensures var ks' := MergeKids(ks, fs, false, rules).0;
            && HasTemplate(ks') && ks'[0] == ks[0]
            && Bag(ks'[1..], g) == Bag(ks[1..], g) + Bag(NewFinals(ks[0], fs, rules), g)
    decreases fs
  {
    hide MergeOne, Bag, NewFinal;
    if fs == [] {
      EmptyBag(g);
    } else {
      var ks' := MergeOne(ks, fs[0], false, rules).0;
      var k := NewFinal(ks[0], fs[0], rules);
      MergeMakes(ks, fs[0], rules);
      WithInstanceBag(ks, k, rules, g);
      MergeListedFinal(ks', fs[1..], rules, g);
      ConsBag(k, NewFinals(ks[0], fs[1..], rules), g);
      BagsAssociative(Bag(ks[1..], g), multiset(g(k)), Bag(NewFinals(ks[0], fs[1..], rules), g));
    }
  }

  lemma EmptyBag<T>(g: Node -> seq<T>)
    ensures Bag([], g) == multiset{}
  {
  }

  lemma MergeMakes(ks: seq<Node>, f: File, rules: Rules)
    requires HasTemplate(ks) && MergeOne(ks, f, false, rules).1
    ensures MergeOne(ks, f, false, rules).0 == WithInstance(ks, NewFinal(ks[0], f, rules), rules)
  {
    hide MergeKids, WithInstance;
    assert MergeOne(ks, f, false, rules) == MergeInstance(ks, f, false, rules);
  }

  // ---------------------------------------------------------------- the configuration comes back

  lemma FileOfNodeName(k: Node)
    ensures |CF.FileOfNode(k)| <= 1 && forall f | f in CF.FileOfNode(k) :: f.name == k.name
  {
  }

  /** The printed nodes carry the names of what they print, each once. */
  lemma {:induction false} FilesNamed(ks: seq<Node>)
    requires NamesDiffer(ks)
    ensures FilesDiffer(CF.FileOf(ks))
    ensures forall i :: 0 <= i < |ks| ==> Lookup(CF.FileOf(ks), ks[i].name) == Printed(ks[i])
  {
    hide NamesDiffer, CF.FileOfNode, Printed;
    if ks != [] {
      NamesDifferRest(ks);
      FilesNamed(ks[1..]);
      forall f | f in CF.FileOf(ks[1..]) ensures f.name != ks[0].name {
        NotNamedFirst(ks, f);
      }
      FileOfNodeName(ks[0]);
      FirstNamed(ks[0], CF.FileOf(ks[1..]));
      forall i | 0 < i < |ks|
        ensures ks[i].name != ks[0].name && Lookup(CF.FileOf(ks[1..]), ks[i].name) == Printed(ks[i])
      {
        NamesDifferAt(ks, 0, i);
        assert ks[1..][i - 1] == ks[i];
      }
    }
  }

  /** What a node prints, if anything. */
  function Printed(k: Node): Option<File> {
    if CF.FileOfNode(k) == [] then None else Some(CF.FileOfNode(k)[0])
  }

  lemma NotNamedFirst(ks: seq<Node>, f: File)
    requires ks != [] && NamesDiffer(ks) && f in CF.FileOf(ks[1..])
    ensures f.name != ks[0].name
  {
    var i := FileMember(ks[1..], f);
    FileOfNodeName(ks[1..][i]);
    assert f in CF.FileOfNode(ks[1..][i]);
    NamesDifferAt(ks, 0, i + 1);
  }

  lemma FirstNamed(k: Node, fs: seq<File>)
    requires FilesDiffer(fs) && (forall f | f in fs :: f.name != k.name)
    ensures FilesDiffer(CF.FileOfNode(k) + fs) && Lookup(CF.FileOfNode(k) + fs, k.name) == Printed(k)
    ensures forall n: string :: n != k.name ==> Lookup(CF.FileOfNode(k) + fs, n) == Lookup(fs, n)
  {
    FileOfNodeName(k);
    if CF.FileOfNode(k) == [] {
      assert [] + fs == fs;
      LookupNone(fs, k.name);
    } else {
      var f := CF.FileOfNode(k)[0];
      assert CF.FileOfNode(k) == [f] && f in CF.FileOfNode(k);
      assert ([f] + fs)[1..] == fs;
    }
  }

  /** Printing, reset and merge: the same values and instances, but for instances that have nothing to print. */
  lemma {:induction false} SaveThenMerge(ks: seq<Node>, rules: Rules)
    requires Savable(ks, rules)
    ensures var (ks', ok) := MergeKids(ResetKids(ks), CF.FileOf(ks), false, rules);
            ok && ContentOf(ks', false) == ContentOf(ks, true)
    decreases ks, 3
  {
    hide Savable, MergeKids, ContentOf, CF.FileOf, ResetKids;
    SaveAccepted(ks, rules);
    if HasTemplate(ks) {
      ListedBack(ks, rules);
    } else {
      FixedBack(ks, rules);
    }
  }

  lemma {:induction false} FixedBack(ks: seq<Node>, rules: Rules)
    requires Savable(ks, rules) && !HasTemplate(ks) && MergeKids(ResetKids(ks), CF.FileOf(ks), false, rules).1
    ensures ContentOf(MergeKids(ResetKids(ks), CF.FileOf(ks), false, rules).0, false) == ContentOf(ks, true)
    decreases ks, 2
  {
    hide MergeKids, CF.FileOf, NamesDiffer, FilesDiffer, Savable, Sound, ContentAt, Merged;
    var fs, rs := CF.FileOf(ks), ResetEach(ks);
    SavableNames(ks, rules);
    forall i | 0 <= i < |rs| ensures rs[i].name == ks[i].name && !rs[i].isTemplate {
      ResetAt(ks, i);
      assert ks[i] in ks;
    }
    SameNames(ks, rs);
    StillDiffer(ks, rs);
    FilesNamed(ks);
    MergeFixed(rs, fs, Final, rules);
    var out := MergedEach(rs, fs, Final, rules);
    ContentsLength(out, false);
    ContentsLength(ks, true);
    forall i | 0 <= i < |ks| ensures !out[i].isTemplate && Contents(out, false)[i] == Contents(ks, true)[i] {
      MergedAt(rs, fs, Final, rules, i);
      ContentsAt(out, false, i);
      ContentsAt(ks, true, i);
      NodeBack(ks, i, rules);
    }
    assert Contents(out, false) == Contents(ks, true);
    assert !HasTemplate(out);
  }

  lemma SavableNames(ks: seq<Node>, rules: Rules)
    requires Savable(ks, rules)
    ensures NamesDiffer(if HasTemplate(ks) then ks[1..] else ks)
    ensures !HasTemplate(ks) ==> forall k | k in ks :: !k.isTemplate
  {
  }

  lemma {:induction false} NodeBack(ks: seq<Node>, i: nat, rules: Rules)
    requires Savable(ks, rules) && !HasTemplate(ks) && i < |ks|
    ensures var m := Merged(ResetEach(ks)[i], Printed(ks[i]), Final, rules);
            !m.isTemplate && ContentAt(m, false) == ContentAt(ks[i], true)
    decreases ks, 1
  {
    hide MergeKids, ContentOf, Savable, ResetKids, CF.FileOf;
    var k := ks[i];
    SavableNames(ks, rules);
    assert k in ks;
    SavableKids(ks, k, rules);
    ResetAt(ks, i);
    if k.nodeType == Block {
      SaveThenMerge(k.kids, rules);
      NothingFinal(ResetKids(k.kids), rules);
    }
  }

  lemma NothingFinal(ks: seq<Node>, rules: Rules)
    ensures MergeKids(ks, [], false, rules) == (ks, true)
  {
  }

  lemma {:induction false} ListedBack(ks: seq<Node>, rules: Rules)
    requires Savable(ks, rules) && HasTemplate(ks) && MergeKids(ResetKids(ks), CF.FileOf(ks), false, rules).1
    ensures ContentOf(MergeKids(ResetKids(ks), CF.FileOf(ks), false, rules).0, false) == ContentOf(ks, true)
    decreases ks, 2
  {
    hide MergeKids, Savable, Sound, Bag, ResetEach, NewFinals, Instances;
    var tmpl, fs := ks[0].(kids := ResetKids(ks[0].kids)), CF.FileOf(ks);
    var ts := [tmpl];
    assert ResetKids(ks) == ts && ts[1..] == [];
    MergeListedFinal(ts, fs, rules, Loaded);
    EmptyBag(Loaded);
    assert fs == [] + CF.FileOf(ks[1..]) == CF.FileOf(ks[1..]);
    InstancesSavable(ks, rules);
    FinalsBack(ks, ks[1..], tmpl, rules);
    var ks' := MergeKids(ts, fs, false, rules).0;
    InstancesBag(ks'[1..]);
    assert multiset(Instances(ks'[1..], false)) == multiset(Instances(ks[1..], true));
  }

  lemma InstancesSavable(ks: seq<Node>, rules: Rules)
    requires Savable(ks, rules) && HasTemplate(ks)
    ensures forall k | k in ks[1..] ::
              k in ks && !k.isTemplate && k.nodeType == Block && Shape(k.kids) == Shape(ks[0].kids)
  {
    InstancesOf(ks);
    forall k | k in ks[1..] ensures Shape(k.kids) == Shape(ks[0].kids) {
      var i :| 0 <= i < |ks[1..]| && ks[1..][i] == k;
      assert ks[i + 1] == k;
    }
  }

  lemma {:induction false} FinalsBack(ks: seq<Node>, some: seq<Node>, tmpl: Node, rules: Rules)
    requires Savable(ks, rules) && HasTemplate(ks) && tmpl == ks[0].(kids := ResetKids(ks[0].kids))
    requires forall k | k in some ::
               k in ks && !k.isTemplate && k.nodeType == Block && Shape(k.kids) == Shape(ks[0].kids)
    ensures Bag(NewFinals(tmpl, CF.FileOf(some), rules), Loaded) == multiset(Instances(some, true))
    decreases ks, 1, |some|
  {
    hide Savable, NewFinal, NewFinals, ContentAt, CF.FileOf, CF.FileOfNode, ResetKids, Shape, Loaded, Bag, Instances;
    if some == [] {
      EmptyBag(Loaded);
      NoneFinal(tmpl, rules);
    } else {
      var k, rest := some[0], some[1..];
      FinalsBack(ks, rest, tmpl, rules);
      assert k in some;
      FileOfNodeName(k);
      if CF.FileOfNode(k) == [] {
        NothingPrinted(some);
      } else {
        var f := CF.FileOfNode(k)[0];
        FinalBack(ks, k, f, tmpl, rules);
        OneMoreFinal(some, f, tmpl, rules);
      }
    }
  }

  lemma NoneFinal(tmpl: Node, rules: Rules)
    ensures NewFinals(tmpl, CF.FileOf([]), rules) == [] && Instances([], true) == []
  {
  }

  /** An instance that prints nothing counts for nothing. */
  lemma NothingPrinted(some: seq<Node>)
    requires some != [] && CF.FileOfNode(some[0]) == []
    ensures CF.FileOf(some) == CF.FileOf(some[1..]) && Instances(some, true) == Instances(some[1..], true)
  {
    hide CF.FileOfNode, ContentAt;
    assert [] + CF.FileOf(some[1..]) == CF.FileOf(some[1..]);
    assert [] + Instances(some[1..], true) == Instances(some[1..], true);
  }

  lemma {:induction false} OneMoreFinal(some: seq<Node>, f: File, tmpl: Node, rules: Rules)
    requires some != [] && !some[0].isTemplate && some[0].nodeType == Block && CF.FileOfNode(some[0]) == [f]
    requires Loaded(NewFinal(tmpl, f, rules)) == [ContentAt(some[0], true)]
    requires Bag(NewFinals(tmpl, CF.FileOf(some[1..]), rules), Loaded) == multiset(Instances(some[1..], true))
    ensures Bag(NewFinals(tmpl, CF.FileOf(some), rules), Loaded) == multiset(Instances(some, true))
  {
    hide NewFinal, ContentAt, CF.FileOfNode, Loaded, Bag;
    assert ([f] + CF.FileOf(some[1..]))[1..] == CF.FileOf(some[1..]);
    ConsBag(NewFinal(tmpl, f, rules), NewFinals(tmpl, CF.FileOf(some[1..]), rules), Loaded);
    assert Instances(some, true) == [ContentAt(some[0], true)] + Instances(some[1..], true);
  }

  lemma {:induction false} FinalBack(ks: seq<Node>, k: Node, f: File, tmpl: Node, rules: Rules)
    requires Savable(ks, rules) && HasTemplate(ks) && k in ks && !k.isTemplate && k.nodeType == Block
    requires tmpl == ks[0].(kids := ResetKids(ks[0].kids))
    requires Shape(k.kids) == Shape(ks[0].kids) && CF.FileOfNode(k) == [f]
    ensures Loaded(NewFinal(tmpl, f, rules)) == [ContentAt(k, true)]
    decreases ks, 0
  {
    hide MergeKids, ContentOf, Savable, CF.FileOf;
    SavableKids(ks, k, rules);
    SaveThenMerge(k.kids, rules);
    PrintedBlock(k, f);
    CopyCopied(tmpl.kids, None);
    SameShapeMerges(CopyKids(tmpl.kids, None), ResetKids(k.kids), CF.FileOf(k.kids), rules);
    assert ContentAt(NewFinal(tmpl, f, rules), false) == ContentAt(k, true);
  }

  lemma PrintedBlock(k: Node, f: File)
    requires CF.FileOfNode(k) == [f] && k.nodeType == Block && !k.isTemplate
    ensures f == File(k.name, Block, "", CF.FileOf(k.kids))
  {
  }

  /** Save, then load: the printed tokens parse to a file, and reset and merge of that file give the configuration
      back, but for instances that have nothing to print. */
  lemma SaveThenLoad(ks: seq<Node>, committed: bool, rules: Rules)
    requires Savable(ks, rules) && CF.Lexable(CF.FileOf(ks))
    ensures CF.ParseDefs(CF.Print(ks, committed)) == CF.Parsed(CF.FileOf(ks), [])
    ensures var (ks', ok) := MergeKids(ResetKids(ks), CF.ParseDefs(CF.Print(ks, committed)).files, false, rules);
            ok && ContentOf(ks', false) == ContentOf(ks, true)
  {
    CF.PrintIsFile(ks, committed);
    CF.ParseUndoesPrint(CF.FileOf(ks), []);
    assert CF.Print(ks, committed) + [] == CF.Print(ks, committed);
    SaveThenMerge(ks, rules);
  }
}
