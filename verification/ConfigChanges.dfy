/** What a list of configuration changes means for the nodes of a client's tree, as a map from paths to nodes: applying
    the list, what a pass gives to the handlers, and how often each listed node is delivered
    (src/config/config_r14p.cpp:120-269). */
module ConfigChanges {
  import opened Wrappers
  import opened ConfigTree
  import opened ConfigPaths

  datatype Change = Change(path: Path, nodeType: NodeType, state: NodeState, value: string)

  /** One run of a handler: the paths of the group it is given and the nodes as it sees them. */
  datatype Event = Ran(handler: nat, paths: seq<Path>, seen: seq<Local>)

  type Nodes = imap<Path, Local>

  /** What a node takes over from the definition root. */
  type Root = (Option<nat>, bool)

  ghost predicate PrefixClosed(v: Nodes) {
    && [] !in v
    && forall p, n :: p in v && 0 < n <= |p| ==> p[..n] in v
  }

  // ---------------------------------------------------------------- applying the list

  ghost function NearestIn(v: Nodes, p: Path, n: nat, root: Root): Root
    requires n <= |p|
  {
    if n == 0 then root
    else if p[..n] in v then (v[p[..n]].handler, v[p[..n]].isEmpty)
    else NearestIn(v, p, n - 1, root)
  }

  /** What is missing on the way to the change's path comes to be. */
  ghost function Created(v: Nodes, c: Change, root: Root): Nodes {
    var from := NearestIn(v, c.path, |c.path|, root);
    imap p: Path | p in v || (p != [] && p <= c.path) ::
      if p in v then v[p] else NewLocal(p[|p| - 1], if p == c.path then c.nodeType else Block, from.0, from.1)
  }

  /** One turn of the loop: a deleted block goes with all below it, an item takes the value, or none when deleted. */
  ghost function Applied(v: Nodes, c: Change, root: Root): Nodes {
    if c.path == [] then v
    else
      var w := Created(v, c, root);
      var n := w[c.path];
      if n.nodeType == Item then w[c.path := n.(value := if c.state == Deleted then "" else c.value)]
      else if c.state == Deleted then imap p: Path | p in w && !(c.path <= p) :: w[p]
      else w
  }

  ghost function AppliedAll(v: Nodes, cs: seq<Change>, root: Root): Nodes {
    if cs == [] then v else Applied(AppliedAll(v, cs[..|cs| - 1], root), cs[|cs| - 1], root)
  }

  /** The list itself loses the value of a deleted item. */
  ghost function ChangeAfter(v: Nodes, c: Change, root: Root): Change {
    if c.path != [] && Created(v, c, root)[c.path].nodeType == Item && c.state == Deleted then c.(value := "") else c
  }

  ghost function ChangesAfter(v: Nodes, cs: seq<Change>, root: Root): (r: seq<Change>)
    ensures |r| == |cs|
  {
    if cs == [] then []
    else
      var init := cs[..|cs| - 1];
      ChangesAfter(v, init, root) + [ChangeAfter(AppliedAll(v, init, root), cs[|cs| - 1], root)]
  }

  // ---------------------------------------------------------------- a pass

  function Times(cs: seq<Change>, p: Path): nat {
    if cs == [] then 0 else Times(cs[..|cs| - 1], p) + if cs[|cs| - 1].path == p then 1 else 0
  }

  function Stamp(l: Local, c: Change): Local {
    if l.handler.None? then l
    else l.(value := if c.state == Deleted && l.nodeType == Item then "" else c.value, state := c.state)
  }

  /** A node with a handler takes the value and state of the last change listed for it. */
  function Stamped(l: Local, cs: seq<Change>, p: Path): Local {
    if cs == [] then l
    else
      var c := cs[|cs| - 1];
      if c.path == p then Stamp(l, c) else Stamped(l, cs[..|cs| - 1], p)
  }

  ghost predicate Due(v: Nodes, p: Path) {
    p in v && v[p].handler.Some? && !v[p].executed
  }

  /** The group of a handler: the listed nodes that have it and were not executed before, in list order. */
  ghost function Group(v: Nodes, cs: seq<Change>, h: nat): seq<Path> {
    if cs == [] then []
    else
      var c := cs[|cs| - 1];
      Group(v, cs[..|cs| - 1], h) + if Due(v, c.path) && v[c.path].handler == Some(h) then [c.path] else []
  }

  /** After the pass: stamped, and the executed flag turned once for each time in a group. */
  ghost function Passed(v: Nodes, cs: seq<Change>): Nodes {
    imap p: Path | p in v ::
      Stamped(v[p], cs, p).(executed := if Due(v, p) then Times(cs, p) % 2 == 1 else v[p].executed)
  }

  /** What a pass runs: each handler with a group exactly once, with that group as stamped; no other handler. */
  ghost predicate PassRuns(v: Nodes, cs: seq<Change>, ran: seq<Event>) {
    && (forall i, j :: 0 <= i < j < |ran| ==> ran[i].handler != ran[j].handler)
    && (forall e :: e in ran ==> RightGroup(v, cs, e))
    && (forall h :: Group(v, cs, h) != [] ==> exists e :: e in ran && e.handler == h)
  }

  ghost predicate RightGroup(v: Nodes, cs: seq<Change>, e: Event) {
    && e.paths != [] && e.paths == Group(v, cs, e.handler) && |e.seen| == |e.paths|
    && forall k :: 0 <= k < |e.paths| ==> e.paths[k] in v && e.seen[k] == Stamped(v[e.paths[k]], cs, e.paths[k])
  }

  /** The last loop: listed nodes are neither executed nor new, and READY. */
  ghost function Closed(v: Nodes, cs: seq<Change>): Nodes {
    imap p: Path | p in v :: if Times(cs, p) > 0 then v[p].(executed := false, isNew := false, state := Ready) else v[p]
  }

  // ---------------------------------------------------------------- how often a node is delivered

  function TimesIn(ps: seq<Path>, p: Path): nat {
    if ps == [] then 0 else TimesIn(ps[..|ps| - 1], p) + if ps[|ps| - 1] == p then 1 else 0
  }

  function Delivered(ran: seq<Event>, p: Path): nat {
    if ran == [] then 0 else Delivered(ran[..|ran| - 1], p) + TimesIn(ran[|ran| - 1].paths, p)
  }

  lemma TimesInAppend(ps: seq<Path>, q: Path, p: Path)
    ensures TimesIn(ps + [q], p) == TimesIn(ps, p) + if q == p then 1 else 0
  {
    assert (ps + [q])[..|ps|] == ps;
  }

  lemma NoGroup(v: Nodes, cs: seq<Change>, h: nat, p: Path)
    requires cs == []
    ensures TimesIn(Group(v, cs, h), p) == 0
  {
  }

  lemma GroupStep(v: Nodes, cs: seq<Change>, h: nat)
    requires cs != []
    ensures var c, before := cs[|cs| - 1], Group(v, cs[..|cs| - 1], h);
            Group(v, cs, h) == if Due(v, c.path) && v[c.path].handler == Some(h) then before + [c.path] else before
  {
  }

  lemma {:induction false} TimesInGroup(v: Nodes, cs: seq<Change>, h: nat, p: Path)
    ensures TimesIn(Group(v, cs, h), p) == if Due(v, p) && v[p].handler == Some(h) then Times(cs, p) else 0
  {
    hide TimesIn, Group, Due;
    if cs == [] {
      NoGroup(v, cs, h, p);
    } else {
      var c, init := cs[|cs| - 1], cs[..|cs| - 1];
      TimesInGroup(v, init, h, p);
      TimesInAppend(Group(v, init, h), c.path, p);
      GroupStep(v, cs, h);
    }
  }

  lemma {:induction false} DeliveredBy(v: Nodes, cs: seq<Change>, ran: seq<Event>, p: Path)
    requires forall i, j :: 0 <= i < j < |ran| ==> ran[i].handler != ran[j].handler
    requires forall e :: e in ran ==> RightGroup(v, cs, e)
    ensures Delivered(ran, p)
            == if Due(v, p) && (exists e :: e in ran && v[p].handler == Some(e.handler)) then Times(cs, p) else 0
  {
    if ran != [] {
      var last, init := ran[|ran| - 1], ran[..|ran| - 1];
      assert last in ran && RightGroup(v, cs, last);
      assert forall e :: e in ran <==> e in init || e == last;
      DeliveredBy(v, cs, init, p);
      TimesInGroup(v, cs, last.handler, p);
      if Due(v, p) && v[p].handler == Some(last.handler) {
        forall e | e in init ensures e.handler != last.handler {
        }
      }
    }
  }

  /** Over one pass a due node is delivered as often as it is listed, any other node not at all. */
  lemma PassDelivers(v: Nodes, cs: seq<Change>, ran: seq<Event>, p: Path)
    requires PassRuns(v, cs, ran)
    ensures Delivered(ran, p) == if Due(v, p) then Times(cs, p) else 0
  {
    DeliveredBy(v, cs, ran, p);
    if Due(v, p) {
      TimesInGroup(v, cs, v[p].handler.value, p);
    }
  }

  // ---------------------------------------------------------------- what a delivered node looks like

  /** The index of the last change listed for p. */
  predicate LastListed(cs: seq<Change>, p: Path, i: nat) {
    i < |cs| && cs[i].path == p && forall j :: i < j < |cs| ==> cs[j].path != p
  }

  lemma {:induction false} StampedByLast(l: Local, cs: seq<Change>, p: Path, i: nat)
    requires LastListed(cs, p, i) && l.handler.Some?
    ensures var r := Stamped(l, cs, p);
            && r.value == (if l.nodeType == Item && cs[i].state == Deleted then "" else cs[i].value)
            && r.state == cs[i].state
  {
    if i < |cs| - 1 {
      StampedByLast(l, cs[..|cs| - 1], p, i);
    }
  }

  /** A handler sees each node as the last change listed for it says: in the state of that change and with its value, or
      with none if it is a deleted item, and otherwise as the node was before the pass. */
  lemma DeliveredAsListed(v: Nodes, cs: seq<Change>, ran: seq<Event>, e: Event, k: nat) returns (i: nat)
    requires PassRuns(v, cs, ran) && e in ran && k < |e.paths|
    ensures LastListed(cs, e.paths[k], i) && k < |e.seen| && e.paths[k] in v
    ensures var (l, c) := (v[e.paths[k]], cs[i]);
            && l.handler == Some(e.handler) && !l.executed
            && e.seen[k] ==
               Local(l.name, l.nodeType, if l.nodeType == Item && c.state == Deleted then "" else c.value, c.state,
                     l.isTemplate, l.isEmpty, l.isNew, l.handler, l.executed)
  {
    assert RightGroup(v, cs, e);
    var p := e.paths[k];
    var at := GroupInOrder(v, cs, e.handler);
    assert at[k] in at;
    i := LastIndex(cs, p, at[k]);
    StampedKeeps(v[p], cs, p);
    StampedByLast(v[p], cs, p, i);
  }

  lemma {:induction false} LastIndex(cs: seq<Change>, p: Path, from: nat) returns (i: nat)
    requires from < |cs| && cs[from].path == p
    ensures LastListed(cs, p, i)
    decreases |cs| - from
  {
    i := from;
    if j: nat :| from < j < |cs| && cs[j].path == p {
      i := LastIndex(cs, p, j);
    }
  }

  /** A handler is given exactly the listed nodes that have it and were not executed before, in the order of the list,
      once for each time they are listed. */
  lemma ListedInOrder(v: Nodes, cs: seq<Change>, ran: seq<Event>, e: Event) returns (at: seq<nat>)
    requires PassRuns(v, cs, ran) && e in ran
    ensures |at| == |e.paths| && (forall i, j :: 0 <= i < j < |at| ==> at[i] < at[j])
    ensures forall k :: 0 <= k < |at| ==> at[k] < |cs| && cs[at[k]].path == e.paths[k]
    ensures forall j: nat :: j in at <==>
                             j < |cs| && cs[j].path in v && v[cs[j].path].handler == Some(e.handler)
                             && !v[cs[j].path].executed
  {
    assert RightGroup(v, cs, e);
    at := GroupInOrder(v, cs, e.handler);
  }

  lemma {:induction false} GroupInOrder(v: Nodes, cs: seq<Change>, h: nat) returns (at: seq<nat>)
    ensures var g := Group(v, cs, h);
            |at| == |g| && forall k :: 0 <= k < |at| ==> at[k] < |cs| && cs[at[k]].path == g[k]
    ensures forall i, j :: 0 <= i < j < |at| ==> at[i] < at[j]
    ensures forall j: nat :: j in at <==>
                             j < |cs| && cs[j].path in v && v[cs[j].path].handler == Some(h)
                             && !v[cs[j].path].executed
  {
    hide Group;
    at := [];
    if cs != [] {
      var n := |cs| - 1;
      var init := cs[..n];
      var before := GroupInOrder(v, init, h);
      GroupStep(v, cs, h);
      assert forall j: nat :: j < n ==> init[j] == cs[j];
      if Due(v, cs[n].path) && v[cs[n].path].handler == Some(h) {
        at := before + [n];
        assert forall j: nat :: j in at <==> j in before || j == n;
      } else {
        at := before;
      }
    } else {
      NoneGrouped(v, cs, h);
    }
  }

  lemma NoneGrouped(v: Nodes, cs: seq<Change>, h: nat)
    requires cs == []
    ensures Group(v, cs, h) == []
  {
  }

  // ---------------------------------------------------------------- one turn of the loop

  lemma NotCreated(v: Nodes, c: Change, root: Root, p: Path)
    requires p !in v && !(p <= c.path)
    ensures p !in Applied(v, c, root)
  {
  }

  /** A node made on the way to a change takes its handler and empty mark from the nearest node there is above it, n
      names down, or from the root; it is new, READY and empty. */
  lemma MadeFrom(v: Nodes, c: Change, root: Root, p: Path, n: nat)
    requires p !in v && p != [] && p <= c.path && n < |p| && (n > 0 ==> c.path[..n] in v)
    requires forall m :: n < m <= |c.path| ==> c.path[..m] !in v
    ensures p in Created(v, c, root)
    ensures var from := if n == 0 then root else (v[c.path[..n]].handler, v[c.path[..n]].isEmpty);
            Created(v, c, root)[p] ==
            Local(p[|p| - 1], if p == c.path then c.nodeType else Block, "", Ready, false, from.1, true, from.0, false)
  {
    NearestIsAt(v, c.path, |c.path|, n, root);
  }

  lemma {:induction false} NearestIsAt(v: Nodes, p: Path, m: nat, n: nat, root: Root)
    requires n <= m <= |p| && (n > 0 ==> p[..n] in v) && forall k :: n < k <= m ==> p[..k] !in v
    ensures NearestIn(v, p, m, root) == if n == 0 then root else (v[p[..n]].handler, v[p[..n]].isEmpty)
  {
    if n < m {
      NearestIsAt(v, p, m - 1, n, root);
    }
  }

  lemma BlockErased(v: Nodes, c: Change, root: Root, p: Path)
    requires c.path in v && v[c.path].nodeType == Block && c.path != [] && c.state == Deleted && c.path <= p
    ensures p !in Applied(v, c, root)
  {
  }

  lemma KeptOrFresh(v: Nodes, c: Change, root: Root, p: Path)
    requires p in v ==> !v[p].executed
    ensures p in Applied(v, c, root) ==> !Applied(v, c, root)[p].executed
  {
    hide NearestIn;
  }

  lemma NotBlockErased(v: Nodes, c: Change, root: Root, p: Path)
    requires p in v && (c.path != [] && c.state == Deleted && c.path <= p && c.path in v ==> v[c.path].nodeType == Item)
    requires c.path != [] && c.path <= p ==> c.path in v
    ensures var w := Applied(v, c, root);
            p in w && w[p].nodeType == v[p].nodeType && w[p].handler == v[p].handler && w[p].executed == v[p].executed
  {
  }

  // ---------------------------------------------------------------- what the apply loop keeps

  /** The change takes the block at its path away, with p. */
  ghost predicate Erases(v: Nodes, c: Change, p: Path) {
    c.state == Deleted && c.path <= p && c.path in v && v[c.path].nodeType == Block
  }

  /** A node that no change erases stays, with its type, handler and executed flag. */
  lemma {:induction false} NotErasedStays(v: Nodes, cs: seq<Change>, root: Root, p: Path)
    requires PrefixClosed(v) && p in v
    requires forall c :: c in cs ==> !Erases(v, c, p)
    ensures var w := AppliedAll(v, cs, root);
            p in w && w[p].nodeType == v[p].nodeType && w[p].handler == v[p].handler && w[p].executed == v[p].executed
  {
    hide Applied;
    if cs != [] {
      var c, init := cs[|cs| - 1], cs[..|cs| - 1];
      assert c in cs && forall d :: d in init ==> d in cs;
      NotErasedStays(v, init, root, p);
      if c.path != [] && c.path <= p {
        assert c.path == p[..|c.path|] && c.path in v;
        forall d | d in init ensures !Erases(v, d, c.path) {
        }
        NotErasedStays(v, init, root, c.path);
      }
      NotBlockErased(AppliedAll(v, init, root), c, root, p);
    }
  }

  /** What was not there, or was erased, is not executed when it comes (back). */
  lemma {:induction false} FreshNotExecuted(v: Nodes, cs: seq<Change>, root: Root, p: Path)
    requires PrefixClosed(v)
    requires p !in v || exists c :: c in cs && Erases(v, c, p)
    ensures var w := AppliedAll(v, cs, root); p in w ==> !w[p].executed
  {
    hide Applied;
    if cs != [] {
      var c, init := cs[|cs| - 1], cs[..|cs| - 1];
      assert forall d :: d in cs <==> d in init || d == c;
      if p !in v || exists d :: d in init && Erases(v, d, p) {
        FreshNotExecuted(v, init, root, p);
        KeptOrFresh(AppliedAll(v, init, root), c, root, p);
      } else {
        forall d | d in init ensures !Erases(v, d, c.path) {
        }
        NotErasedStays(v, init, root, c.path);
        BlockErased(AppliedAll(v, init, root), c, root, p);
      }
    }
  }

  // ---------------------------------------------------------------- exactly once

  ghost predicate NoneExecuted(v: Nodes) {
    forall p :: p in v ==> !v[p].executed
  }

  predicate DistinctPaths(cs: seq<Change>) {
    forall i, j :: 0 <= i < j < |cs| ==> cs[i].path != cs[j].path
  }

  lemma {:induction false} DistinctTimes(cs: seq<Change>, i: nat)
    requires DistinctPaths(cs) && i < |cs|
    ensures Times(cs, cs[i].path) == 1
  {
    var init := cs[..|cs| - 1];
    if i < |init| {
      assert init[i] == cs[i];
      DistinctTimes(init, i);
    } else {
      NotListed(init, cs[i].path);
    }
  }

  lemma {:induction false} NotListed(cs: seq<Change>, p: Path)
    ensures Times(cs, p) == 0 <==> forall c :: c in cs ==> c.path != p
  {
    if cs != [] {
      var init := cs[..|cs| - 1];
      NotListed(init, p);
      assert forall d :: d in cs <==> d in init || d == cs[|cs| - 1];
    }
  }

  ghost predicate HasHandler(v: Nodes, p: Path) {
    p in v && v[p].handler.Some?
  }

  /** The nodes the second pass meets. */
  ghost function BeforeSecond(v: Nodes, cs: seq<Change>, root: Root): Nodes {
    AppliedAll(Passed(v, cs), cs, root)
  }

  /** The account of every listed path over both passes. A node that was there with a handler is delivered in the first
      pass; a node that has one after the changes are applied is delivered in the second, unless it is the same node. It
      is the same node if and only if no change deleted a block at the path or above it, judged in the tree before the
      update. */
  lemma DeliveryAccount(v: Nodes, cs: seq<Change>, cs': seq<Change>, root: Root, first: seq<Event>, second: seq<Event>,
                        i: nat)
    requires PrefixClosed(v) && NoneExecuted(v) && DistinctPaths(cs) && i < |cs|
    requires |cs'| == |cs| && forall j :: 0 <= j < |cs| ==> cs'[j].path == cs[j].path
    requires PassRuns(v, cs, first)
    requires PassRuns(BeforeSecond(v, cs, root), cs', second)
    ensures var p, w := cs[i].path, BeforeSecond(v, cs, root);
            && Delivered(first, p) == (if HasHandler(v, p) then 1 else 0)
            && Delivered(second, p) ==
                 if HasHandler(w, p) && (HasHandler(v, p) ==> exists c :: c in cs && Erases(v, c, p)) then 1 else 0
  {
    var p, u, w := cs[i].path, Passed(v, cs), BeforeSecond(v, cs, root);
    DistinctTimes(cs, i);
    assert cs'[i].path == p;
    DistinctTimes(cs', i);
    PassDelivers(v, cs, first, p);
    PassDelivers(w, cs', second, p);
    PassedKeeps(v, cs);
    assert forall c :: Erases(u, c, p) == Erases(v, c, p);
    if p !in u || exists c :: c in cs && Erases(u, c, p) {
      FreshNotExecuted(u, cs, root, p);
    } else {
      NotErasedStays(u, cs, root, p);
      assert v[p].handler.Some? ==> Due(v, p) && u[p].executed;
      assert v[p].handler.None? ==> w[p].handler.None?;
    }
  }

  lemma {:induction false} StampedKeeps(l: Local, cs: seq<Change>, p: Path)
    ensures var r := Stamped(l, cs, p); r == l.(value := r.value, state := r.state)
  {
    if cs != [] {
      StampedKeeps(l, cs[..|cs| - 1], p);
    }
  }

  lemma PassedKeeps(v: Nodes, cs: seq<Change>)
    ensures forall p :: p in Passed(v, cs) <==> p in v
    ensures forall p :: p in v ==>
              Passed(v, cs)[p].nodeType == v[p].nodeType && Passed(v, cs)[p].handler == v[p].handler
    ensures PrefixClosed(v) ==> PrefixClosed(Passed(v, cs))
  {
    forall p | p in v ensures Passed(v, cs)[p].nodeType == v[p].nodeType && Passed(v, cs)[p].handler == v[p].handler {
      StampedKeeps(v[p], cs, p);
    }
  }

  /** No change is listed strictly beneath a listed deletion. */
  predicate NoneBeneathDeleted(cs: seq<Change>) {
    forall c, d :: c in cs && d in cs && d.state == Deleted && d.path != c.path ==> !(d.path <= c.path)
  }

  /** With nothing listed beneath a deletion, every listed node that had a handler before or has one after the changes
      are applied is delivered exactly once over both passes, and no other node is delivered. */
  lemma ExactlyOnce(v: Nodes, cs: seq<Change>, cs': seq<Change>, root: Root, first: seq<Event>, second: seq<Event>,
                    p: Path)
    requires PrefixClosed(v) && NoneExecuted(v) && DistinctPaths(cs) && NoneBeneathDeleted(cs)
    requires |cs'| == |cs| && forall j :: 0 <= j < |cs| ==> cs'[j].path == cs[j].path
    requires PassRuns(v, cs, first)
    requires PassRuns(BeforeSecond(v, cs, root), cs', second)
    ensures Delivered(first, p) + Delivered(second, p) ==
              if Times(cs, p) > 0 && (HasHandler(v, p) || HasHandler(BeforeSecond(v, cs, root), p)) then 1 else 0
  {
    NotListed(cs, p);
    if Times(cs, p) > 0 {
      var i :| 0 <= i < |cs| && cs[i].path == p;
      DeliveryAccount(v, cs, cs', root, first, second, i);
      if exists c :: c in cs && Erases(v, c, p) {
        var c :| c in cs && Erases(v, c, p);
        assert c.path == p;
        PassedKeeps(v, cs);
        ErasedLastStaysAway(Passed(v, cs), cs, root, i);
      }
    } else {
      SameTimes(cs, cs', p);
      PassDelivers(v, cs, first, p);
      PassDelivers(BeforeSecond(v, cs, root), cs', second, p);
    }
  }

  /** The list an update leaves: the same changes, but for the values of some that delete. */
  predicate SameButDeleted(cs: seq<Change>, cs': seq<Change>) {
    && |cs'| == |cs|
    && forall j :: 0 <= j < |cs| ==> cs'[j] == cs[j] || (cs[j].state == Deleted && cs'[j] == cs[j].(value := ""))
  }

  lemma {:induction false} ListAfter(v: Nodes, cs: seq<Change>, root: Root)
    ensures SameButDeleted(cs, ChangesAfter(v, cs, root))
  {
    hide AppliedAll, Created;
    if cs != [] {
      ListAfter(v, cs[..|cs| - 1], root);
    }
  }

  /** The second pass too shows each node in the state of the last change in the received list, and an item with its
      value; a block is shown with the change's value, or with none if the change deletes. */
  lemma SecondAsListed(v: Nodes, cs: seq<Change>, cs': seq<Change>, root: Root, second: seq<Event>, e: Event, k: nat)
      returns (i: nat)
    requires PassRuns(BeforeSecond(v, cs, root), cs', second) && SameButDeleted(cs, cs')
    requires e in second && k < |e.paths|
    ensures LastListed(cs, e.paths[k], i) && k < |e.seen| && e.paths[k] in BeforeSecond(v, cs, root)
    ensures var (l, s, c) := (BeforeSecond(v, cs, root)[e.paths[k]], e.seen[k], cs[i]);
            && s == l.(value := s.value, state := c.state)
            && (l.nodeType == Item ==> s.value == if c.state == Deleted then "" else c.value)
            && (l.nodeType == Block ==> s.value == c.value || (c.state == Deleted && s.value == ""))
  {
    i := DeliveredAsListed(BeforeSecond(v, cs, root), cs', second, e, k);
  }

  lemma {:induction false} SameTimes(cs: seq<Change>, cs': seq<Change>, p: Path)
    requires |cs'| == |cs| && forall j :: 0 <= j < |cs| ==> cs'[j].path == cs[j].path
    ensures Times(cs', p) == Times(cs, p)
  {
    if cs != [] {
      SameTimes(cs[..|cs| - 1], cs'[..|cs| - 1], p);
    }
  }

  /** With nothing listed beneath it, a deleted block does not come back. */
  lemma {:induction false} ErasedLastStaysAway(v: Nodes, cs: seq<Change>, root: Root, i: nat)
    requires PrefixClosed(v) && DistinctPaths(cs) && i < |cs| && Erases(v, cs[i], cs[i].path)
    requires NoneBeneathDeleted(cs)
    ensures cs[i].path !in AppliedAll(v, cs, root)
  {
    hide Applied;
    var c, init, p := cs[|cs| - 1], cs[..|cs| - 1], cs[i].path;
    forall j, k | 0 <= j < k < |init| ensures init[j].path != init[k].path {
      assert init[j] == cs[j] && init[k] == cs[k];
    }
    assert forall d :: d in init ==> d in cs;
    if i < |init| {
      assert init[i] == cs[i];
      ErasedLastStaysAway(v, init, root, i);
      assert c in cs && c.path != p;
      NotCreated(AppliedAll(v, init, root), c, root, p);
    } else {
      forall d | d in init ensures d.path != p {
        var j :| 0 <= j < |init| && init[j] == d;
        assert cs[j] == d;
      }
      forall d | d in init ensures !Erases(v, d, p) {
      }
      NotErasedStays(v, init, root, p);
      BlockErased(AppliedAll(v, init, root), c, root, p);
    }
  }

  // ---------------------------------------------------------------- who survives, read off the tree and the list alone

  /** What the tree is before the update: which paths are there, of what type and with what handler. */
  type Outline = imap<Path, (NodeType, Option<nat>)>

  ghost function OutlineOf(v: Nodes): Outline {
    imap p: Path | p in v :: (v[p].nodeType, v[p].handler)
  }

  /** The k-th change takes a block away. */
  ghost predicate Deletes(o: Outline, cs: seq<Change>, k: nat)
    requires k < |cs|
    decreases k, 3
  {
    cs[k].path != [] && cs[k].state == Deleted && KindMet(o, cs, k) == Block
  }

  /** What the k-th change finds or makes at its path: the node of the old tree, a block made on the way to another
      path, or a node of its own type. */
  ghost function KindMet(o: Outline, cs: seq<Change>, k: nat): NodeType
    requires k < |cs|
    decreases k, 2
  {
    if StillThere(o, cs, k, cs[k].path) then o[cs[k].path].0
    else if MadeAgain(o, cs, k, cs[k].path) then Block
    else cs[k].nodeType
  }

  /** The first n changes leave the old node at p. */
  ghost predicate StillThere(o: Outline, cs: seq<Change>, n: nat, p: Path)
    requires n <= |cs|
    decreases n, 1
  {
    p in o && Untaken(o, cs, 0, n, p)
  }

  /** After the last of them that takes p away, one at p or beneath it makes p. */
  ghost predicate MadeAgain(o: Outline, cs: seq<Change>, n: nat, p: Path)
    requires n <= |cs|
    decreases n, 1
  {
    p != [] && exists j :: 0 <= j < n && p <= cs[j].path && Untaken(o, cs, j, n, p)
  }

  /** No change from `from` to n deletes a block at p or above it. */
  ghost predicate Untaken(o: Outline, cs: seq<Change>, from: nat, n: nat, p: Path)
    requires n <= |cs|
    decreases n, 0
  {
    forall i :: from <= i < n && cs[i].path <= p ==> !Deletes(o, cs, i)
  }

  /** The handler of the old node, or of the nearest path above that still has its old node. */
  ghost function HandlerAfter(o: Outline, cs: seq<Change>, n: nat, p: Path, root: Root): Option<nat>
    requires n <= |cs|
    decreases |p|
  {
    if p == [] then root.0 else if StillThere(o, cs, n, p) then o[p].1 else HandlerAfter(o, cs, n, p[..|p| - 1], root)
  }

  /** Which paths one change leaves. */
  lemma OneApplied(v: Nodes, c: Change, root: Root, p: Path)
    requires [] !in v
    ensures var met := if c.path in v then v[c.path].nodeType else c.nodeType;
            var deletes := c.path != [] && c.state == Deleted && met == Block;
            p in Applied(v, c, root) <==> (p in v || (p != [] && p <= c.path)) && !(deletes && c.path <= p)
    ensures p in Applied(v, c, root) && p in v ==>
              Applied(v, c, root)[p].nodeType == v[p].nodeType && Applied(v, c, root)[p].handler == v[p].handler
    ensures p in Applied(v, c, root) && p !in v ==>
              && Applied(v, c, root)[p].nodeType == (if p == c.path then c.nodeType else Block)
              && Applied(v, c, root)[p].handler == NearestIn(v, c.path, |c.path|, root).0
  {
    hide NearestIn;
  }

  /** A new node has the handler of its parent. */
  lemma {:induction false} NearestAbove(v: Nodes, p: Path, n: nat, k: nat, root: Root)
    requires PrefixClosed(v) && k < n <= |p| && p[..k + 1] !in v && (k > 0 ==> p[..k] in v)
    ensures NearestIn(v, p, n, root).0 == if k == 0 then root.0 else v[p[..k]].handler
    decreases n
  {
    assert p[..n][..k + 1] == p[..k + 1];
    if n > k + 1 {
      NearestAbove(v, p, n - 1, k, root);
    }
  }

  lemma OneMoreChange(o: Outline, cs: seq<Change>, n: nat, p: Path)
    requires n < |cs|
    ensures var taken := cs[n].path <= p && Deletes(o, cs, n);
            && StillThere(o, cs, n + 1, p) == (StillThere(o, cs, n, p) && !taken)
            && MadeAgain(o, cs, n + 1, p) == ((MadeAgain(o, cs, n, p) || (p != [] && p <= cs[n].path)) && !taken)
  {
    hide Deletes;
    forall j | 0 <= j <= n
      ensures Untaken(o, cs, j, n + 1, p) == (Untaken(o, cs, j, n, p) && !(cs[n].path <= p && Deletes(o, cs, n)))
    {
    }
    assert Untaken(o, cs, n, n, p);
    if p != [] && p <= cs[n].path && !(cs[n].path <= p && Deletes(o, cs, n)) {
      assert Untaken(o, cs, n, n + 1, p);
    }
    if MadeAgain(o, cs, n, p) && !(cs[n].path <= p && Deletes(o, cs, n)) {
      var j :| 0 <= j < n && p <= cs[j].path && Untaken(o, cs, j, n, p);
      assert Untaken(o, cs, j, n + 1, p);
    }
  }

  /** The node at p after the first n changes is as the tree before them and the list say. */
  ghost predicate SurvivesAs(v: Nodes, w: Nodes, cs: seq<Change>, n: nat, root: Root, p: Path)
    requires n <= |cs|
  {
    var o := OutlineOf(v);
    && (p in w <==> StillThere(o, cs, n, p) || MadeAgain(o, cs, n, p))
    && (StillThere(o, cs, n, p) ==> w[p].nodeType == v[p].nodeType && w[p].handler == v[p].handler)
    && (p in w && !StillThere(o, cs, n, p) ==>
          && ((forall j :: 0 <= j < n ==> cs[j].path != p) ==> w[p].nodeType == Block)
          && w[p].handler == AboveOf(w, p, root))
  }

  ghost function AboveOf(w: Nodes, p: Path, root: Root): Option<nat> {
    if |p| <= 1 || p[..|p| - 1] !in w then root.0 else w[p[..|p| - 1]].handler
  }

  lemma {:induction false} Survives(v: Nodes, cs: seq<Change>, root: Root, n: nat, p: Path)
    requires PrefixClosed(v) && DistinctPaths(cs) && n <= |cs|
    ensures SurvivesAs(v, AppliedAll(v, cs[..n], root), cs, n, root, p)
    ensures PrefixClosed(AppliedAll(v, cs[..n], root))
    decreases n
  {
    hide Applied, StillThere, MadeAgain, SurvivesAs, PrefixClosed;
    if n == 0 {
      SurvivesStart(v, cs, root, p);
    } else {
      var m, c := n - 1, cs[n - 1];
      var w := AppliedAll(v, cs[..m], root);
      Survives(v, cs, root, m, p);
      Survives(v, cs, root, m, c.path);
      assert cs[..n][..m] == cs[..m];
      SurvivesStep(v, w, cs, root, m, p);
      AppliedPrefixClosed(w, c, root);
    }
  }

  lemma SurvivesStart(v: Nodes, cs: seq<Change>, root: Root, p: Path)
    requires PrefixClosed(v)
    ensures AppliedAll(v, cs[..0], root) == v && SurvivesAs(v, v, cs, 0, root, p)
  {
  }

  lemma AppliedPrefixClosed(v: Nodes, c: Change, root: Root)
    requires PrefixClosed(v)
    ensures PrefixClosed(Applied(v, c, root))
  {
    var w := Applied(v, c, root);
    forall p, n | p in w && 0 < n <= |p| ensures p[..n] in w {
      assert p in v ==> p[..n] in v;
      assert p <= c.path ==> p[..n] <= c.path;
      assert c.path <= p[..n] ==> c.path <= p;
    }
  }

  /** What the next change meets is what KindMet says. */
  lemma MetIs(v: Nodes, w: Nodes, cs: seq<Change>, root: Root, m: nat)
    requires DistinctPaths(cs) && m < |cs| && SurvivesAs(v, w, cs, m, root, cs[m].path)
    ensures KindMet(OutlineOf(v), cs, m) == if cs[m].path in w then w[cs[m].path].nodeType else cs[m].nodeType
  {
    hide StillThere, MadeAgain;
  }

  lemma SurvivesStep(v: Nodes, w: Nodes, cs: seq<Change>, root: Root, m: nat, p: Path)
    requires PrefixClosed(w) && PrefixClosed(v) && DistinctPaths(cs) && m < |cs|
    requires SurvivesAs(v, w, cs, m, root, p) && SurvivesAs(v, w, cs, m, root, cs[m].path)
    ensures SurvivesAs(v, Applied(w, cs[m], root), cs, m + 1, root, p)
  {
    hide Applied, StillThere, MadeAgain, KindMet;
    var c, o := cs[m], OutlineOf(v);
    MetIs(v, w, cs, root, m);
    OneMoreChange(o, cs, m, p);
    OneApplied(w, c, root, p);
    if p in Applied(w, c, root) {
      HandlerFromAbove(w, c, root, p);
    }
  }

  /** A node the change leaves or makes: with the old parent's handler if it had it, or with the parent's if new. */
  lemma HandlerFromAbove(w: Nodes, c: Change, root: Root, p: Path)
    requires PrefixClosed(w) && p in Applied(w, c, root)
    ensures p in w && w[p].handler == AboveOf(w, p, root) ==>
              Applied(w, c, root)[p].handler == AboveOf(Applied(w, c, root), p, root)
    ensures p !in w ==> Applied(w, c, root)[p].handler == AboveOf(Applied(w, c, root), p, root)
  {
    hide Applied, NearestIn;
    AppliedPrefixClosed(w, c, root);
    OneApplied(w, c, root, p);
    if |p| > 1 {
      var q := p[..|p| - 1];
      OneApplied(w, c, root, q);
    }
    if p !in w {
      assert c.path[..|p|] == p;
      var k := DeepestIn(w, c.path, |p|);
      NearestAbove(w, c.path, |c.path|, k, root);
      assert |p| > 1 ==> c.path[..|p| - 1] == p[..|p| - 1];
    }
  }

  /** How far the path is there already. */
  ghost function DeepestIn(w: Nodes, p: Path, n: nat): (k: nat)
    requires PrefixClosed(w) && 0 < n <= |p| && p[..n] !in w
    ensures k < n && p[..k + 1] !in w && (k > 0 ==> p[..k] in w)
  {
    if n == 1 || p[..n - 1] in w then n - 1 else DeepestIn(w, p, n - 1)
  }

  /** After the list: a path is there if and only if its old node is, or a change at it or beneath it comes after the
      last one that deletes a block at it or above it; its handler is its own, or that of the nearest path above that
      kept its node.  All of it is read off the old tree and the list. */
  lemma {:induction false} AfterTheList(v: Nodes, cs: seq<Change>, root: Root, p: Path)
    requires PrefixClosed(v) && DistinctPaths(cs)
    ensures var o, w := OutlineOf(v), AppliedAll(v, cs, root);
            && (p in w <==> StillThere(o, cs, |cs|, p) || MadeAgain(o, cs, |cs|, p))
            && (p in w ==> w[p].handler == HandlerAfter(o, cs, |cs|, p, root))
    decreases |p|
  {
    hide AppliedAll, StillThere, MadeAgain, Applied;
    assert cs[..|cs|] == cs;
    var o, w := OutlineOf(v), AppliedAll(v, cs, root);
    Survives(v, cs, root, |cs|, p);
    if p in w && !StillThere(o, cs, |cs|, p) && |p| > 1 {
      var q := p[..|p| - 1];
      assert q in w;
      AfterTheList(v, cs, root, q);
    }
    if |p| == 1 {
      assert p[..0] == [];
    }
  }

  /** The old node at p is still there exactly when no listed deletion names an old block at p or above it. */
  lemma {:induction false} StillThereIff(v: Nodes, cs: seq<Change>, n: nat, p: Path)
    requires PrefixClosed(v) && n <= |cs| && p in v
    ensures StillThere(OutlineOf(v), cs, n, p) <==> forall i :: 0 <= i < n ==> !Erases(v, cs[i], p)
    decreases n
  {
    hide StillThere, MadeAgain, KindMet;
    var o := OutlineOf(v);
    if n == 0 {
      StillThereFirst(o, cs, p);
    } else {
      var c := cs[n - 1];
      OneMoreChange(o, cs, n - 1, p);
      StillThereIff(v, cs, n - 1, p);
      if c.path <= p && c.path != [] {
        assert c.path == p[..|c.path|] && c.path in v;
        StillThereIff(v, cs, n - 1, c.path);
        KindOfOld(o, cs, n - 1);
      }
    }
  }

  lemma StillThereFirst(o: Outline, cs: seq<Change>, p: Path)
    ensures StillThere(o, cs, 0, p) <==> p in o
  {
  }

  lemma KindOfOld(o: Outline, cs: seq<Change>, k: nat)
    requires k < |cs|
    ensures StillThere(o, cs, k, cs[k].path) ==> KindMet(o, cs, k) == o[cs[k].path].0
  {
  }

  /** How often a listed path is delivered, from the tree before the update and the list alone: in the first pass if it
      was there with a handler; in the second if it is not the old node any more, is made again, and gets a handler from
      above. */
  lemma DeliveryCount(v: Nodes, cs: seq<Change>, cs': seq<Change>, root: Root, first: seq<Event>, second: seq<Event>,
                      i: nat)
    requires PrefixClosed(v) && NoneExecuted(v) && DistinctPaths(cs) && i < |cs|
    requires |cs'| == |cs| && forall j :: 0 <= j < |cs| ==> cs'[j].path == cs[j].path
    requires PassRuns(v, cs, first)
    requires PassRuns(BeforeSecond(v, cs, root), cs', second)
    ensures var p, o := cs[i].path, OutlineOf(v);
            && Delivered(first, p) == (if p in o && o[p].1.Some? then 1 else 0)
            && Delivered(second, p) ==
                 if !StillThere(o, cs, |cs|, p) && MadeAgain(o, cs, |cs|, p) &&
                    HandlerAfter(o, cs, |cs|, p, root).Some? then 1 else 0
  {
    hide StillThere, MadeAgain, HandlerAfter, Passed, AppliedAll, PassRuns;
    var p, u, o := cs[i].path, Passed(v, cs), OutlineOf(v);
    DeliveryAccount(v, cs, cs', root, first, second, i);
    PassedKeeps(v, cs);
    assert OutlineOf(u) == o;
    AfterTheList(u, cs, root, p);
    if p in v {
      StillThereIff(v, cs, |cs|, p);
      assert (exists c :: c in cs && Erases(v, c, p)) <==> exists j :: 0 <= j < |cs| && Erases(v, cs[j], p);
      if StillThere(o, cs, |cs|, p) {
        assert p != [] && HandlerAfter(o, cs, |cs|, p, root) == v[p].handler by {
          HandlerOfOld(o, cs, |cs|, p, root);
        }
      }
    } else {
      NotStillThere(o, cs, |cs|, p);
    }
  }

  lemma HandlerOfOld(o: Outline, cs: seq<Change>, n: nat, p: Path, root: Root)
    requires n <= |cs| && StillThere(o, cs, n, p) && p != []
    ensures HandlerAfter(o, cs, n, p, root) == o[p].1
  {
  }

  lemma NotStillThere(o: Outline, cs: seq<Change>, n: nat, p: Path)
    requires n <= |cs| && p !in o
    ensures !StillThere(o, cs, n, p)
  {
  }

  /** Two blocks, one in the other, and a list that deletes the inner one and then sets an item beneath it: read off the
      outline, the inner block is not the old node any more, is made again, and takes over the outer one's handler. */
  lemma TwiceRead(o: Outline, cs: seq<Change>, root: Root)
    requires o == imap[["a"] := (Block, Some(0)), ["a", "b"] := (Block, Some(0))]
    requires cs == [Change(["a", "b"], Block, Deleted, ""), Change(["a", "b", "c"], Item, Modified, "x")]
    ensures var p := ["a", "b"];
            !StillThere(o, cs, 2, p) && MadeAgain(o, cs, 2, p) && HandlerAfter(o, cs, 2, p, root) == Some(0)
  {
    var p := ["a", "b"];
    assert cs[0].path == p && cs[1].path == p + ["c"] && p[..1] == ["a"];
    assert Deletes(o, cs, 0);
    assert !Deletes(o, cs, 1);
    assert StillThere(o, cs, 2, ["a"]);
    HandlerOfOld(o, cs, 2, ["a"], root);
  }
}
