/** Applying a configuration update on a client: notify, apply, notify, on the tree itself
    (src/config/config_r14p.cpp:120-269), proved against the meaning given in ConfigChanges and ConfigContents. */
module ConfigUpdate {
  import opened Wrappers
  import opened ConfigTree
  import opened ConfigPaths
  import opened ConfigChanges
  import opened ConfigContents

  ghost function NodesOf(ks: seq<Entry>): Nodes {
    imap p: Path | At(ks, p).Some? :: At(ks, p).value
  }

  lemma {:induction false} PrefixesThere(ks: seq<Entry>, p: Path, n: nat)
    requires At(ks, p).Some? && 0 < n <= |p|
    ensures At(ks, p[..n]).Some?
    decreases |p|
  {
    var i := Child(ks, p[0]);
    assert p[..n][0] == p[0] && p[..n][1..] == p[1..][..n - 1];
    if n > 1 {
      PrefixesThere(ks[i].kids, p[1..], n - 1);
    }
  }

  lemma TreePrefixClosed(ks: seq<Entry>)
    ensures PrefixClosed(NodesOf(ks))
  {
    forall p: Path, n | p in NodesOf(ks) && 0 < n <= |p| ensures p[..n] in NodesOf(ks) {
      PrefixesThere(ks, p, n);
    }
  }

  lemma SetNodes(ks: seq<Entry>, p: Path, f: Local -> Local)
    requires KeepsName(f) && Unique(ks)
    ensures Unique(SetIn(ks, p, f))
    ensures var v, w := NodesOf(ks), NodesOf(SetIn(ks, p, f)); w == if p in v then v[p := f(v[p])] else v
  {
    hide At, SetIn, Unique, KeepsName;
    SetUnique(ks, p, f);
    forall q
      ensures At(SetIn(ks, p, f), q) == if q == p && At(ks, p).Some? then Some(f(At(ks, p).value)) else At(ks, q)
    {
      SetAt(ks, p, f, q);
    }
  }

  lemma EraseNodes(ks: seq<Entry>, p: Path)
    requires Unique(ks) && p != []
    ensures Unique(EraseIn(ks, p))
    ensures NodesOf(EraseIn(ks, p)) == imap q: Path | q in NodesOf(ks) && !(p <= q) :: NodesOf(ks)[q]
  {
    EraseUnique(ks, p);
    forall q ensures At(EraseIn(ks, p), q) == if p <= q then None else At(ks, q) {
      EraseAt(ks, p, q);
    }
  }

  /** The search for the node to take the handler from, on the tree and on the paths. */
  lemma {:induction false} NearestIs(ks: seq<Entry>, p: Path, root: Root)
    ensures Nearest(ks, p, root.0, root.1) == NearestIn(NodesOf(ks), p, |p|, root)
    decreases |p|
  {
    if p != [] {
      var i := Child(ks, p[0]);
      if i == |ks| {
        NoneOnTheWay(ks, p, |p|, root);
      } else {
        var k := ks[i];
        NearestIs(k.kids, p[1..], (k.local.handler, k.local.isEmpty));
        OneDown(ks, p, |p|, root);
      }
    }
  }

  lemma {:induction false} NoneOnTheWay(ks: seq<Entry>, p: Path, n: nat, root: Root)
    requires n <= |p| && p != [] && Child(ks, p[0]) == |ks|
    ensures NearestIn(NodesOf(ks), p, n, root) == root
  {
    if n > 0 {
      NoneOnTheWay(ks, p, n - 1, root);
    }
  }

  lemma {:induction false} OneDown(ks: seq<Entry>, p: Path, n: nat, root: Root)
    requires 0 < n <= |p| && Child(ks, p[0]) < |ks|
    ensures var k := ks[Child(ks, p[0])];
            NearestIn(NodesOf(ks), p, n, root)
            == NearestIn(NodesOf(k.kids), p[1..], n - 1, (k.local.handler, k.local.isEmpty))
  {
    hide At, Child;
    AtDown(ks, p, n);
    if n > 1 {
      OneDown(ks, p, n - 1, root);
    }
  }

  lemma AtDown(ks: seq<Entry>, p: Path, n: nat)
    requires 0 < n <= |p| && Child(ks, p[0]) < |ks|
    ensures var k := ks[Child(ks, p[0])];
            At(ks, p[..n]) == if n == 1 then Some(k.local) else At(k.kids, p[1..][..n - 1])
  {
    assert p[..n][0] == p[0] && p[..n][1..] == p[1..][..n - 1];
  }

  lemma CreateNodes(ks: seq<Entry>, c: Change, root: Root)
    requires Unique(ks)
    ensures var ks' := CreateIn(ks, c.path, c.nodeType, root.0, root.1);
            Unique(ks') && NodesOf(ks') == Created(NodesOf(ks), c, root)
  {
    hide CreateIn, At, NearestIn, Nearest, NewLocal, Unique;
    var ks', v := CreateIn(ks, c.path, c.nodeType, root.0, root.1), NodesOf(ks);
    CreateUnique(ks, c.path, c.nodeType, root.0, root.1);
    NearestIs(ks, c.path, root);
    var w, u := NodesOf(ks'), Created(v, c, root);
    forall q: Path
      ensures q in w <==> q in u
      ensures q in w ==> w[q] == u[q]
    {
      CreateAt(ks, c.path, c.nodeType, root.0, root.1, q);
    }
  }

  // ---------------------------------------------------------------- half a pass

  ghost function StampedAll(v: Nodes, cs: seq<Change>): Nodes {
    imap p: Path | p in v :: Stamped(v[p], cs, p)
  }

  /** During a pass: all is stamped, and the handlers that are not left have run. */
  ghost function Halfway(v: Nodes, cs: seq<Change>, left: set<nat>): Nodes {
    imap p: Path | p in v ::
      Stamped(v[p], cs, p).(executed := if Due(v, p) && v[p].handler.value !in left then Times(cs, p) % 2 == 1
                                        else v[p].executed)
  }

  ghost function Turned(v: Nodes, ps: seq<Path>): Nodes {
    imap p: Path | p in v :: v[p].(executed := if TimesIn(ps, p) % 2 == 1 then !v[p].executed else v[p].executed)
  }

  lemma StampStamped(l: Local, cs: seq<Change>, c: Change, p: Path)
    ensures Stamped(l, cs + [c], p) == if p == c.path then Stamp(Stamped(l, cs, p), c) else Stamped(l, cs, p)
  {
    assert (cs + [c])[..|cs|] == cs;
    StampedKeeps(l, cs, p);
  }

  lemma StampKeepsName(c: Change)
    ensures forall l :: Stamp(l, c).name == l.name && Stamp(l, c).isTemplate == l.isTemplate
  {
  }

  lemma NothingListed(v: Nodes, cs: seq<Change>)
    requires cs == []
    ensures StampedAll(v, cs) == v
    ensures forall h :: Group(v, cs, h) == []
  {
  }

  /** One more change stamps one node, and only if it has a handler. */
  lemma StampOne(v: Nodes, cs: seq<Change>, c: Change)
    ensures var s := StampedAll(v, cs);
            && (c.path in v ==> s[c.path].handler == v[c.path].handler && s[c.path].executed == v[c.path].executed)
            && StampedAll(v, cs + [c])
               == if c.path in v && v[c.path].handler.Some? then s[c.path := Stamp(s[c.path], c)] else s
  {
    assert (cs + [c])[..|cs|] == cs;
    forall p | p in v
      ensures Stamped(v[p], cs + [c], p)
              == if p == c.path then Stamp(Stamped(v[p], cs, p), c) else Stamped(v[p], cs, p)
    {
      StampStamped(v[p], cs, c, p);
    }
    if c.path in v {
      StampedKeeps(v[c.path], cs, c.path);
    }
  }

  lemma GroupOne(v: Nodes, cs: seq<Change>, c: Change, h: nat)
    ensures Group(v, cs + [c], h) ==
              if Due(v, c.path) && v[c.path].handler == Some(h) then Group(v, cs, h) + [c.path] else Group(v, cs, h)
  {
    assert (cs + [c])[..|cs|] == cs;
    assert Group(v, cs, h) + [] == Group(v, cs, h);
  }

  lemma PassStarts(v: Nodes, cs: seq<Change>, left: set<nat>)
    requires forall h :: h !in left ==> Group(v, cs, h) == []
    ensures Halfway(v, cs, left) == StampedAll(v, cs)
  {
    forall p | p in v ensures Halfway(v, cs, left)[p] == Stamped(v[p], cs, p) {
      StampedKeeps(v[p], cs, p);
      if Due(v, p) {
        TimesInGroup(v, cs, v[p].handler.value, p);
      }
    }
  }

  lemma HandlerRun(v: Nodes, cs: seq<Change>, left: set<nat>, h: nat)
    requires h in left
    ensures Turned(Halfway(v, cs, left), Group(v, cs, h)) == Halfway(v, cs, left - {h})
  {
    hide Stamped, Group, Times, TimesIn;
    var a, b := Turned(Halfway(v, cs, left), Group(v, cs, h)), Halfway(v, cs, left - {h});
    forall p | p in v ensures a[p] == b[p] {
      TimesInGroup(v, cs, h, p);
    }
  }

  lemma {:induction false} GroupThere(v: Nodes, cs: seq<Change>, h: nat)
    ensures forall p :: p in Group(v, cs, h) ==> Due(v, p) && v[p].handler == Some(h)
  {
    if cs != [] {
      GroupThere(v, cs[..|cs| - 1], h);
    }
  }

  /** The nodes a handler is given. */
  function Look(ks: seq<Entry>, ps: seq<Path>): (r: seq<Local>)
    requires forall p :: p in ps ==> At(ks, p).Some?
    ensures |r| == |ps| && forall k :: 0 <= k < |ps| ==> r[k] == At(ks, ps[k]).value
  {
    seq(|ps|, k requires 0 <= k < |ps| => At(ks, ps[k]).value)
  }

  lemma SeenIsRight(ks: seq<Entry>, v: Nodes, cs: seq<Change>, left: set<nat>, h: nat)
    requires NodesOf(ks) == Halfway(v, cs, left) && h in left && Group(v, cs, h) != []
    ensures forall p :: p in Group(v, cs, h) ==> At(ks, p).Some?
    ensures RightGroup(v, cs, Ran(h, Group(v, cs, h), Look(ks, Group(v, cs, h))))
  {
    var ps := Group(v, cs, h);
    GroupThere(v, cs, h);
    forall p | p in ps ensures p in v && At(ks, p) == Some(Stamped(v[p], cs, p)) {
      assert p in NodesOf(ks);
      StampedKeeps(v[p], cs, p);
    }
  }

  lemma TurnOne(v: Nodes, ps: seq<Path>, q: Path)
    ensures var t := Turned(v, ps);
            && (q in t <==> q in v)
            && Turned(v, ps + [q]) == if q in v then t[q := t[q].(executed := !t[q].executed)] else t
  {
    assert (ps + [q])[..|ps|] == ps;
  }

  lemma NothingTurned(v: Nodes, ps: seq<Path>)
    requires ps == []
    ensures Turned(v, ps) == v
  {
  }

  /** What the handlers that have run were given, while those in `left` have not. */
  ghost predicate RanSoFar(v: Nodes, cs: seq<Change>, ran: seq<Event>, left: set<nat>) {
    && (forall i, j :: 0 <= i < j < |ran| ==> ran[i].handler != ran[j].handler)
    && (forall e :: e in ran ==> e.handler !in left && RightGroup(v, cs, e))
    && (forall h :: Group(v, cs, h) != [] && h !in left ==> exists e :: e in ran && e.handler == h)
  }

  lemma OneMoreRan(v: Nodes, cs: seq<Change>, ran: seq<Event>, left: set<nat>, e: Event)
    requires RanSoFar(v, cs, ran, left) && e.handler in left && RightGroup(v, cs, e)
    ensures RanSoFar(v, cs, ran + [e], left - {e.handler})
  {
    hide RightGroup, Group;
    var now := ran + [e];
    assert forall d :: d in now <==> d in ran || d == e;
    forall i, j | 0 <= i < j < |now| ensures now[i].handler != now[j].handler {
      assert now[i] in ran;
    }
    forall h | Group(v, cs, h) != [] && h !in left - {e.handler} ensures exists d :: d in now && d.handler == h {
      if h == e.handler {
        assert e in now;
      } else {
        var d :| d in ran && d.handler == h;
        assert d in now;
      }
    }
  }

  lemma NoneToRun(v: Nodes, cs: seq<Change>, ran: seq<Event>, left: set<nat>, h: nat)
    requires RanSoFar(v, cs, ran, left) && Group(v, cs, h) == []
    ensures RanSoFar(v, cs, ran, left - {h})
  {
  }

  lemma PassEnds(v: Nodes, cs: seq<Change>)
    ensures Halfway(v, cs, {}) == Passed(v, cs)
  {
  }

  lemma NothingApplied(v: Nodes, cs: seq<Change>, root: Root)
    requires cs == []
    ensures AppliedAll(v, cs, root) == v && ChangesAfter(v, cs, root) == []
  {
  }

  lemma ApplyOneMore(v: Nodes, cs: seq<Change>, c: Change, root: Root)
    ensures AppliedAll(v, cs + [c], root) == Applied(AppliedAll(v, cs, root), c, root)
    ensures ChangesAfter(v, cs + [c], root)
            == ChangesAfter(v, cs, root) + [ChangeAfter(AppliedAll(v, cs, root), c, root)]
  {
    assert (cs + [c])[..|cs|] == cs;
  }

  lemma OneReplaced<T>(s: seq<T>, done: seq<T>, cs: seq<T>, i: nat, x: T)
    requires i < |cs| && |done| == i && s == done + cs[i..]
    ensures s[i] == cs[i] && s[i := x] == done + [x] + cs[i + 1..]
  {
  }

  lemma NothingToCreate(v: Nodes, c: Change, root: Root)
    ensures c.path == [] ==> Created(v, c, root) == v
    ensures c.path != [] ==> c.path in Created(v, c, root)
  {
  }

  lemma NothingClosed(v: Nodes, cs: seq<Change>)
    requires cs == []
    ensures Closed(v, cs) == v
  {
  }

  lemma CloseOne(v: Nodes, cs: seq<Change>, c: Change)
    ensures var s := Closed(v, cs);
            (c.path in s <==> c.path in v) && Closed(v, cs + [c]) ==
              if c.path in v then s[c.path := s[c.path].(executed := false, isNew := false, state := Ready)] else s
  {
    assert (cs + [c])[..|cs|] == cs;
  }

  /** Over both passes every listed node with a handler, before or after the changes, is delivered once; no other is. */
  ghost predicate DeliveredOnce(v: Nodes, cs: seq<Change>, root: Root, first: seq<Event>, second: seq<Event>) {
    forall p :: Delivered(first, p) + Delivered(second, p) ==
                if Times(cs, p) > 0 && (HasHandler(v, p) || HasHandler(BeforeSecond(v, cs, root), p)) then 1 else 0
  }

  class CfgUpdateStreamDone {
    /** The children of the definition root. */
    var kids: seq<Entry>
    /** The received list. */
    var changes: seq<Change>
    /** What the handlers were given, pass by pass. */
    var passes: seq<seq<Event>>
    /** What the root hands down to new nodes. */
    const handler: Option<nat>
    const isEmpty: bool

    constructor (kids: seq<Entry>, changes: seq<Change>, handler: Option<nat>, isEmpty: bool)
      requires Unique(kids) && NoneExecuted(NodesOf(kids))
      ensures Valid() && this.kids == kids && this.changes == changes && passes == []
      ensures this.handler == handler && this.isEmpty == isEmpty
    {
      this.kids, this.changes, this.handler, this.isEmpty := kids, changes, handler, isEmpty;
      passes := [];
    }

    ghost predicate Valid()
      reads this
    {
      Unique(kids) && NoneExecuted(NodesOf(kids))
    }

    /** The check of the listed nodes: stamps them and groups them by handler. */
    method GroupByHandler() returns (groups: map<nat, seq<Path>>)
      requires Unique(kids)
      modifies this`kids
      ensures Unique(kids) && NodesOf(kids) == StampedAll(old(NodesOf(kids)), changes)
      ensures forall h :: Group(old(NodesOf(kids)), changes, h) == if h in groups then groups[h] else []
    {
      hide Stamped, Group, SetIn, At, Unique, Stamp;
      ghost var v := NodesOf(kids);
      groups := map[];
      var i := 0;
      NothingListed(v, changes[..0]);
      while i < |changes|
        invariant 0 <= i <= |changes| && Unique(kids)
        invariant NodesOf(kids) == StampedAll(v, changes[..i])
        invariant forall h :: Group(v, changes[..i], h) == if h in groups then groups[h] else []
      {
        var c := changes[i];
        var found := At(kids, c.path);
        assert changes[..i + 1] == changes[..i] + [c];
        StampOne(v, changes[..i], c);
        forall h: nat
          ensures Group(v, changes[..i + 1], h) ==
                    if Due(v, c.path) && v[c.path].handler == Some(h) then Group(v, changes[..i], h) + [c.path]
                    else Group(v, changes[..i], h)
        {
          GroupOne(v, changes[..i], c, h);
        }
        assert c.path in NodesOf(kids) <==> c.path in v;
        if found.Some? && found.value.handler.Some? {
          var f := (l: Local) => Stamp(l, c);
          StampKeepsName(c);
          SetNodes(kids, c.path, f);
          kids := SetIn(kids, c.path, f);
          var h := found.value.handler.value;
          if h !in groups {
            groups := groups[h := []];
          }
          if !found.value.executed {
            groups := groups[h := groups[h] + [c.path]];
          }
        }
        i := i + 1;
      }
      assert changes[..i] == changes;
    }

    /** Turns the executed flag of every node of a group. */
    method Turn(ps: seq<Path>)
      requires Unique(kids)
      modifies this`kids
      ensures Unique(kids) && NodesOf(kids) == Turned(old(NodesOf(kids)), ps)
    {
      hide Turned, SetIn, At, Unique, NodesOf;
      ghost var v := NodesOf(kids);
      NothingTurned(v, ps[..0]);
      var i := 0;
      while i < |ps|
        invariant 0 <= i <= |ps| && Unique(kids)
        invariant NodesOf(kids) == Turned(v, ps[..i])
      {
        assert ps[..i + 1] == ps[..i] + [ps[i]];
        TurnOne(v, ps[..i], ps[i]);
        var f := (l: Local) => l.(executed := !l.executed);
        SetNodes(kids, ps[i], f);
        kids := SetIn(kids, ps[i], f);
        i := i + 1;
      }
      assert ps[..i] == ps;
    }

    /** One pass: every handler with a group runs once and marks what it was given. */
    method ProcessCfgEvents()
      requires Unique(kids)
      modifies this`kids, this`passes
      ensures Unique(kids) && NodesOf(kids) == Passed(old(NodesOf(kids)), changes)
      ensures |passes| == |old(passes)| + 1 && passes[..|old(passes)|] == old(passes)
      ensures PassRuns(old(NodesOf(kids)), changes, passes[|old(passes)|])
    {
      hide Passed, Halfway, Stamped, Group, Turned, Unique, At, RightGroup;
      ghost var v := NodesOf(kids);
      var groups := GroupByHandler();
      var left, ran := groups.Keys, [];
      PassStarts(v, changes, left);
      while left != {}
        invariant left <= groups.Keys && Unique(kids) && passes == old(passes)
        invariant NodesOf(kids) == Halfway(v, changes, left)
        invariant RanSoFar(v, changes, ran, left)
        decreases |left|
      {
        hide RanSoFar;
        var h :| h in left;
        HandlerRun(v, changes, left, h);
        if groups[h] != [] {
          SeenIsRight(kids, v, changes, left, h);
          var e := Ran(h, groups[h], Look(kids, groups[h]));
          OneMoreRan(v, changes, ran, left, e);
          ran := ran + [e];
          Turn(groups[h]);
        } else {
          NothingTurned(NodesOf(kids), groups[h]);
          NoneToRun(v, changes, ran, left, h);
        }
        left := left - {h};
      }
      PassEnds(v, changes);
      passes := passes + [ran];
    }

    /** The changes, one by one, on the tree. */
    method ApplyChanges()
      requires Unique(kids)
      modifies this`kids, this`changes
      ensures Unique(kids) && NodesOf(kids) == AppliedAll(old(NodesOf(kids)), old(changes), (handler, isEmpty))
      ensures changes == ChangesAfter(old(NodesOf(kids)), old(changes), (handler, isEmpty))
    {
      hide AppliedAll, Applied, ChangesAfter, ChangeAfter, Unique, At;
      ghost var v, cs, root := NodesOf(kids), changes, (handler, isEmpty);
      NothingApplied(v, cs[..0], root);
      var i := 0;
      while i < |changes|
        invariant 0 <= i <= |changes| == |cs| && Unique(kids)
        invariant NodesOf(kids) == AppliedAll(v, cs[..i], root)
        invariant changes == ChangesAfter(v, cs[..i], root) + cs[i..]
      {
        assert cs[..i + 1] == cs[..i] + [cs[i]];
        OneReplaced(changes, ChangesAfter(v, cs[..i], root), cs, i, ChangeAfter(NodesOf(kids), cs[i], root));
        ApplyOneMore(v, cs[..i], cs[i], root);
        ApplyChange(i);
        i := i + 1;
      }
      assert cs[..i] == cs;
    }

    /** One turn of the loop over the changes: the node is found or made, then erased or given its value. */
    method ApplyChange(i: nat)
      requires Unique(kids) && i < |changes|
      modifies this`kids, this`changes
      ensures Unique(kids) && NodesOf(kids) == Applied(old(NodesOf(kids)), old(changes)[i], (handler, isEmpty))
      ensures changes == old(changes)[i := ChangeAfter(old(NodesOf(kids)), old(changes)[i], (handler, isEmpty))]
    {
      hide Created, CreateIn, SetIn, EraseIn, Unique;
      var c := changes[i];
      CreateNodes(kids, c, (handler, isEmpty));
      NothingToCreate(NodesOf(kids), c, (handler, isEmpty));
      kids := CreateIn(kids, c.path, c.nodeType, handler, isEmpty);
      var found := At(kids, c.path);
      if found.Some? {
        assert NodesOf(kids)[c.path] == found.value;
        if found.value.nodeType == Block {
          if c.state == Deleted {
            EraseNodes(kids, c.path);
            kids := EraseIn(kids, c.path);
          }
        } else {
          var value := if c.state == Deleted then "" else c.value;
          var f := (l: Local) => l.(value := value);
          SetNodes(kids, c.path, f);
          kids := SetIn(kids, c.path, f);
          if c.state == Deleted {
            changes := changes[i := c.(value := "")];
          }
        }
      }
    }

    /** Clears the marks of the listed nodes. */
    method ClearFlags()
      requires Unique(kids)
      modifies this`kids
      ensures Unique(kids) && NodesOf(kids) == Closed(old(NodesOf(kids)), changes)
    {
      hide Closed, SetIn, Unique, At;
      ghost var v := NodesOf(kids);
      NothingClosed(v, changes[..0]);
      var i := 0;
      while i < |changes|
        invariant 0 <= i <= |changes| && Unique(kids)
        invariant NodesOf(kids) == Closed(v, changes[..i])
      {
        var c := changes[i];
        assert changes[..i + 1] == changes[..i] + [c];
        CloseOne(v, changes[..i], c);
        if At(kids, c.path).Some? {
          var f := (l: Local) => l.(executed := false, isNew := false, state := Ready);
          SetNodes(kids, c.path, f);
          kids := SetIn(kids, c.path, f);
        }
        i := i + 1;
      }
      assert changes[..i] == changes;
    }

    /** A whole update: what each pass delivered, and what became of the tree's contents. */
    method Run()
      requires Valid()
      modifies this
      ensures Valid()
      ensures NodesOf(kids) == Updated(old(NodesOf(kids)), old(changes), (handler, isEmpty))
      ensures ContentsOf(NodesOf(kids)) == WrittenAll(ContentsOf(old(NodesOf(kids))), old(changes))
      ensures |passes| == |old(passes)| + 2 && passes[..|old(passes)|] == old(passes)
      ensures PassRuns(old(NodesOf(kids)), old(changes), passes[|old(passes)|])
      ensures PassRuns(BeforeSecond(old(NodesOf(kids)), old(changes), (handler, isEmpty)), changes,
                       passes[|old(passes)| + 1])
      ensures SameButDeleted(old(changes), changes)
      ensures DistinctPaths(old(changes)) && NoneBeneathDeleted(old(changes)) ==>
                DeliveredOnce(old(NodesOf(kids)), old(changes), (handler, isEmpty), passes[|old(passes)|],
                              passes[|old(passes)| + 1])
    {
      hide Unique, Passed, AppliedAll, ChangesAfter, Closed, WrittenAll, PassRuns, Times, Delivered;
      ghost var v, cs, root := NodesOf(kids), changes, (handler, isEmpty);
      ProcessCfgEvents();
      ApplyChanges();
      ghost var w := NodesOf(kids);
      ProcessCfgEvents();
      ClearFlags();
      TreePrefixClosed(old(kids));
      UpdateWrites(v, cs, root);
      forall p | p in NodesOf(kids) ensures !NodesOf(kids)[p].executed {
        UpdateClears(v, cs, root, p);
      }
      ListAfter(Passed(v, cs), cs, root);
      if DistinctPaths(cs) && NoneBeneathDeleted(cs) {
        forall p {
          ExactlyOnce(v, cs, changes, root, passes[|old(passes)|], passes[|old(passes)| + 1], p);
        }
      }
    }
  }

  // ---------------------------------------------------------------- a node delivered twice

  /** A block in a block, both with a handler. */
  function BlockInBlock(): seq<Entry> {
    [Entry(NewLocal("a", Block, Some(0), false), [Entry(NewLocal("b", Block, Some(0), false), [])])]
  }

  /** The inner block is deleted, and an item beneath it set. */
  function DeleteThenSet(): seq<Change> {
    [Change(["a", "b"], Block, Deleted, ""), Change(["a", "b", "c"], Item, Modified, "x")]
  }

  lemma BlockInBlockNodes()
    ensures NodesOf(BlockInBlock())
            == imap[["a"] := NewLocal("a", Block, Some(0), false), ["a", "b"] := NewLocal("b", Block, Some(0), false)]
  {
    var ks := BlockInBlock();
    forall p: Path
      ensures At(ks, p) == if p == ["a"] then Some(NewLocal("a", Block, Some(0), false))
                           else if p == ["a", "b"] then Some(NewLocal("b", Block, Some(0), false)) else None
    {
      if p != [] && p[0] == "a" && |p| > 1 {
        assert p == [p[0]] + p[1..];
        AtInner(p[1..]);
      }
    }
  }

  lemma AtInner(q: Path)
    requires q != []
    ensures At(BlockInBlock()[0].kids, q)
            == if q == ["b"] then Some(NewLocal("b", Block, Some(0), false)) else None
  {
    if |q| > 1 {
      assert At([], q[1..]) == None;
    }
  }

  /** Both passes of an update deliver the inner block. */
  lemma DeliveredTwice(cs': seq<Change>, root: Root, first: seq<Event>, second: seq<Event>)
    requires |cs'| == 2 && forall j :: 0 <= j < 2 ==> cs'[j].path == DeleteThenSet()[j].path
    requires PassRuns(NodesOf(BlockInBlock()), DeleteThenSet(), first)
    requires PassRuns(BeforeSecond(NodesOf(BlockInBlock()), DeleteThenSet(), root), cs', second)
    ensures Delivered(first, ["a", "b"]) == Delivered(second, ["a", "b"]) == 1
  {
    hide BeforeSecond, PassRuns, StillThere, MadeAgain, HandlerAfter, Delivered, PrefixClosed, NodesOf, OutlineOf;
    var v, cs := NodesOf(BlockInBlock()), DeleteThenSet();
    BlockInBlockNodes();
    BlockInBlockOutline();
    TreePrefixClosed(BlockInBlock());
    TwiceRead(OutlineOf(v), cs, root);
    DeliveryCount(v, cs, cs', root, first, second, 0);
  }

  lemma BlockInBlockOutline()
    ensures OutlineOf(NodesOf(BlockInBlock())) == imap[["a"] := (Block, Some(0)), ["a", "b"] := (Block, Some(0))]
  {
    hide NodesOf;
    BlockInBlockNodes();
  }

  /** The update itself, run on that tree. */
  method RunTwice(handler: Option<nat>, isEmpty: bool) returns (update: CfgUpdateStreamDone)
    ensures fresh(update) && |update.passes| == 2
    ensures Delivered(update.passes[0], ["a", "b"]) == Delivered(update.passes[1], ["a", "b"]) == 1
  {
    hide PassRuns, BeforeSecond, Updated, Delivered, NodesOf, ContentsOf, WrittenAll;
    BlockInBlockStarts();
    update := new CfgUpdateStreamDone(BlockInBlock(), DeleteThenSet(), handler, isEmpty);
    update.Run();
    DeliveredTwice(update.changes, (handler, isEmpty), update.passes[0], update.passes[1]);
  }

  lemma BlockInBlockStarts()
    ensures Unique(BlockInBlock()) && NoneExecuted(NodesOf(BlockInBlock()))
  {
    BlockInBlockNodes();
    var ks := BlockInBlock();
    assert Unique(ks[0].kids) by { assert Unique([]); }
  }
}
