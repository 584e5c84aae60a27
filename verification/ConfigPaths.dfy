/** Finding, creating, changing and erasing configuration nodes by path, in a tree searched in place
    (src/config/config.cpp:240-305), and what that means for every path of the tree. */
module ConfigPaths {
  import opened Wrappers
  import opened ConfigTree

  type Path = seq<string>

  /** A node of the client's tree, as the update protocol sees it; handlers are known by number. */
  datatype Local = Local(name: string, nodeType: NodeType, value: string, state: NodeState, isTemplate: bool,
                         isEmpty: bool,
                         isNew: bool, handler: Option<nat>, executed: bool)

  datatype Entry = Entry(local: Local, kids: seq<Entry>)

  /** The first child with this name that is no template. */
  function Child(ks: seq<Entry>, name: string): (i: nat)
    ensures i <= |ks| && (i < |ks| ==> ks[i].local.name == name && !ks[i].local.isTemplate)
    ensures forall j :: 0 <= j < i ==> ks[j].local.name != name || ks[j].local.isTemplate
  {
    if ks == [] || (ks[0].local.name == name && !ks[0].local.isTemplate) then 0 else 1 + Child(ks[1..], name)
  }

  lemma ChildIs(ks: seq<Entry>, name: string, i: nat)
    requires i <= |ks| && (i < |ks| ==> ks[i].local.name == name && !ks[i].local.isTemplate)
    requires forall j :: 0 <= j < i ==> ks[j].local.name != name || ks[j].local.isTemplate
    ensures Child(ks, name) == i
  {
  }

  /** operator() without create. */
  function At(ks: seq<Entry>, p: Path): Option<Local>
    decreases |p|
  {
    if p == [] then None
    else
      var i := Child(ks, p[0]);
      if i == |ks| then None else if |p| == 1 then Some(ks[i].local) else At(ks[i].kids, p[1..])
  }

  /** Changes the fields of the node at p. */
  function SetIn(ks: seq<Entry>, p: Path, f: Local -> Local): (r: seq<Entry>)
    ensures |r| == |ks|
    decreases |p|
  {
    if p == [] then ks
    else
      var i := Child(ks, p[0]);
      if i == |ks| then ks
      else if |p| == 1 then ks[i := Entry(f(ks[i].local), ks[i].kids)]
      else ks[i := Entry(ks[i].local, SetIn(ks[i].kids, p[1..], f))]
  }

  /** Takes the node at p and all below it out of its parent's children. */
  function EraseIn(ks: seq<Entry>, p: Path): seq<Entry>
    decreases |p|
  {
    if p == [] then ks
    else
      var i := Child(ks, p[0]);
      if i == |ks| then ks
      else if |p| == 1 then ks[..i] + ks[i + 1..]
      else ks[i := Entry(ks[i].local, EraseIn(ks[i].kids, p[1..]))]
  }

  /** operator() with create: what is missing on the way is made, blocks first and the last node of type `last`;
      a new node takes its handler and its empty mark from its parent. */
  function CreateIn(ks: seq<Entry>, p: Path, last: NodeType, handler: Option<nat>, isEmpty: bool): seq<Entry>
    decreases |p|
  {
    if p == [] then ks
    else
      var i := Child(ks, p[0]);
      if i == |ks| then
        ks + [Entry(NewLocal(p[0], if |p| == 1 then last else Block, handler, isEmpty),
                    CreateIn([], p[1..], last, handler, isEmpty))]
      else if |p| == 1 then ks
      else ks[i := Entry(ks[i].local, CreateIn(ks[i].kids, p[1..], last, ks[i].local.handler, ks[i].local.isEmpty))]
  }

  function NewLocal(name: string, nodeType: NodeType, handler: Option<nat>, isEmpty: bool): Local {
    Local(name, nodeType, "", Ready, false, isEmpty, true, handler, false)
  }

  /** The handler and the empty mark that a node missing on the way to p takes over: those of the last node found. */
  function Nearest(ks: seq<Entry>, p: Path, handler: Option<nat>, isEmpty: bool): (Option<nat>, bool)
    decreases |p|
  {
    if p == [] || Child(ks, p[0]) == |ks| then (handler, isEmpty)
    else
      var k := ks[Child(ks, p[0])];
      Nearest(k.kids, p[1..], k.local.handler, k.local.isEmpty)
  }

  /** Sibling names are unique, templates aside, at every depth. */
  ghost predicate Unique(ks: seq<Entry>)
    decreases ks
  {
    && (forall i, j :: 0 <= i < j < |ks| && !ks[i].local.isTemplate && !ks[j].local.isTemplate ==>
          ks[i].local.name != ks[j].local.name)
    && forall k | k in ks :: Unique(k.kids)
  }

  /** Other children under a node found by name are seen below that name only. */
  lemma AtReplaced(ks: seq<Entry>, i: nat, kids: seq<Entry>, q: Path)
    requires i < |ks| && q != [] && Child(ks, ks[i].local.name) == i
    ensures At(ks[i := Entry(ks[i].local, kids)], q) ==
              if q[0] != ks[i].local.name then At(ks, q) else if |q| == 1 then Some(ks[i].local) else At(kids, q[1..])
  {
    ChildIs(ks[i := Entry(ks[i].local, kids)], q[0], Child(ks, q[0]));
  }

  ghost predicate KeepsName(f: Local -> Local) {
    forall l :: f(l).name == l.name && f(l).isTemplate == l.isTemplate
  }

  // ---------------------------------------------------------------- set

  lemma SameTail(p: Path, q: Path)
    requires p != [] && q != [] && p[0] == q[0]
    ensures q == p <==> q[1..] == p[1..]
  {
    assert p == [p[0]] + p[1..] && q == [q[0]] + q[1..];
  }

  /** Setting a node changes that node and no other path. */
  lemma {:induction false} SetAt(ks: seq<Entry>, p: Path, f: Local -> Local, q: Path)
    requires KeepsName(f)
    ensures At(SetIn(ks, p, f), q) == if q == p && At(ks, p).Some? then Some(f(At(ks, p).value)) else At(ks, q)
    decreases |p|
  {
    if p != [] && q != [] {
      var i := Child(ks, p[0]);
      if i < |ks| {
        ChildOfSet(ks, p, f, q[0]);
        if p[0] == q[0] {
          SetAt(ks[i].kids, p[1..], f, q[1..]);
          SameTail(p, q);
        }
      }
    }
  }

  lemma ChildOfSet(ks: seq<Entry>, p: Path, f: Local -> Local, name: string)
    requires KeepsName(f) && p != []
    ensures Child(SetIn(ks, p, f), name) == Child(ks, name)
  {
    ChildIs(SetIn(ks, p, f), name, Child(ks, name));
  }

  lemma {:induction false} SetUnique(ks: seq<Entry>, p: Path, f: Local -> Local)
    requires KeepsName(f) && Unique(ks)
    ensures Unique(SetIn(ks, p, f))
    decreases |p|
  {
    if p != [] {
      var i := Child(ks, p[0]);
      if i < |ks| {
        assert ks[i] in ks;
        SetUnique(ks[i].kids, p[1..], f);
      }
    }
  }

  // ---------------------------------------------------------------- erase

  /** Erasing a node takes its path and all longer ones away, and leaves every other path as it is. */
  lemma {:induction false} EraseAt(ks: seq<Entry>, p: Path, q: Path)
    requires Unique(ks) && p != []
    ensures At(EraseIn(ks, p), q) == if p <= q then None else At(ks, q)
    decreases |p|
  {
    if q != [] {
      var i := Child(ks, p[0]);
      if i < |ks| {
        assert ks[i] in ks;
        if |p| == 1 {
          AtErased(ks, i, q);
          assert p <= q <==> q[0] == p[0];
        } else {
          AtReplaced(ks, i, EraseIn(ks[i].kids, p[1..]), q);
          EraseAt(ks[i].kids, p[1..], q[1..]);
          PrefixRest(p, q);
        }
      } else if p <= q {
        assert q[0] == p[0];
      }
    }
  }

  lemma AtErased(ks: seq<Entry>, i: nat, q: Path)
    requires Unique(ks) && i < |ks| && !ks[i].local.isTemplate && q != []
    ensures At(ks[..i] + ks[i + 1..], q) == if q[0] == ks[i].local.name then None else At(ks, q)
  {
    hide Unique, Child;
    ChildOfErased(ks, i, q[0]);
    var ks', c := ks[..i] + ks[i + 1..], Child(ks, q[0]);
    if q[0] != ks[i].local.name && c < |ks| {
      assert ks'[if c < i then c else c - 1] == ks[c];
    }
  }

  lemma PrefixRest(p: Path, q: Path)
    requires p != [] && q != []
    ensures p <= q <==> p[0] == q[0] && p[1..] <= q[1..]
  {
  }

  lemma ChildOfErased(ks: seq<Entry>, i: nat, name: string)
    requires Unique(ks) && i < |ks| && !ks[i].local.isTemplate
    ensures var ks' := ks[..i] + ks[i + 1..];
            if name == ks[i].local.name then Child(ks', name) == |ks'|
            else Child(ks', name) == (if Child(ks, name) <= i then Child(ks, name) else Child(ks, name) - 1)
  {
    var ks' := ks[..i] + ks[i + 1..];
    forall j | 0 <= j < |ks'| ensures ks'[j] == ks[if j < i then j else j + 1] {
    }
    if name == ks[i].local.name {
      ChildIs(ks', name, |ks'|);
    } else {
      ChildIs(ks', name, if Child(ks, name) <= i then Child(ks, name) else Child(ks, name) - 1);
    }
  }

  lemma {:induction false} EraseUnique(ks: seq<Entry>, p: Path)
    requires Unique(ks)
    ensures Unique(EraseIn(ks, p))
    decreases |p|
  {
    if p != [] {
      var i := Child(ks, p[0]);
      if i < |ks| {
        assert ks[i] in ks;
        EraseUnique(ks[i].kids, p[1..]);
      }
    }
  }

  // ---------------------------------------------------------------- create

  /** What is there stays; what was missing on the way to p, or at p, is new; nothing else comes to be. */
  predicate OnTheWay(was: Option<Local>, now: Option<Local>, p: Path, q: Path, last: NodeType,
                     from: (Option<nat>, bool)) {
    if was.None? && q != [] && q <= p then
      now == Some(NewLocal(q[|q| - 1], if q == p then last else Block, from.0, from.1))
    else now == was
  }

  /** Creating leaves every node there is alone and adds just the missing ones on the way to p. */
  lemma {:induction false} CreateAt(ks: seq<Entry>, p: Path, last: NodeType, handler: Option<nat>, isEmpty: bool,
                                    q: Path)
    ensures OnTheWay(At(ks, q), At(CreateIn(ks, p, last, handler, isEmpty), q), p, q, last,
                     Nearest(ks, p, handler, isEmpty))
    decreases |p|
  {
    if p != [] && q != [] {
      if Child(ks, p[0]) == |ks| {
        CreateAt([], p[1..], last, handler, isEmpty, q[1..]);
        CreateBelow(ks, p, last, handler, isEmpty, q);
      } else {
        var k := ks[Child(ks, p[0])];
        CreateAt(k.kids, p[1..], last, k.local.handler, k.local.isEmpty, q[1..]);
        CreateWithin(ks, p, last, handler, isEmpty, q);
      }
    }
  }

  lemma OneDeeper(was: Option<Local>, now: Option<Local>, p: Path, q: Path, last: NodeType, from: (Option<nat>, bool))
    requires p != [] && |q| > 1 && q[0] == p[0] && OnTheWay(was, now, p[1..], q[1..], last, from)
    ensures OnTheWay(was, now, p, q, last, from)
  {
    PrefixRest(q, p);
    assert q == p <==> q[1..] == p[1..] by { assert p == [p[0]] + p[1..] && q == [q[0]] + q[1..]; }
  }

  lemma CreateBelow(ks: seq<Entry>, p: Path, last: NodeType, handler: Option<nat>, isEmpty: bool, q: Path)
    requires p != [] && q != [] && Child(ks, p[0]) == |ks|
    requires OnTheWay(At([], q[1..]), At(CreateIn([], p[1..], last, handler, isEmpty), q[1..]), p[1..], q[1..], last,
                      Nearest([], p[1..], handler, isEmpty))
    ensures OnTheWay(At(ks, q), At(CreateIn(ks, p, last, handler, isEmpty), q), p, q, last,
                     Nearest(ks, p, handler, isEmpty))
  {
    hide OnTheWay;
    var kids := CreateIn([], p[1..], last, handler, isEmpty);
    AtAdded(ks, Entry(NewLocal(p[0], if |p| == 1 then last else Block, handler, isEmpty), kids), q);
    NothingAt(q[1..]);
    assert Nearest([], p[1..], handler, isEmpty) == (handler, isEmpty);
    if q[0] != p[0] {
      OffTheWay(At(ks, q), p, q, last, (handler, isEmpty));
    } else if |q| > 1 {
      OneDeeper(None, At(kids, q[1..]), p, q, last, (handler, isEmpty));
    } else {
      FirstNew(p, q, last, (handler, isEmpty));
    }
  }

  lemma CreateWithin(ks: seq<Entry>, p: Path, last: NodeType, handler: Option<nat>, isEmpty: bool, q: Path)
    requires p != [] && q != [] && Child(ks, p[0]) < |ks|
    requires var k := ks[Child(ks, p[0])];
             OnTheWay(At(k.kids, q[1..]), At(CreateIn(k.kids, p[1..], last, k.local.handler, k.local.isEmpty), q[1..]),
                      p[1..], q[1..], last, Nearest(k.kids, p[1..], k.local.handler, k.local.isEmpty))
    ensures OnTheWay(At(ks, q), At(CreateIn(ks, p, last, handler, isEmpty), q), p, q, last,
                     Nearest(ks, p, handler, isEmpty))
  {
    hide OnTheWay;
    var i := Child(ks, p[0]);
    var from := Nearest(ks, p, handler, isEmpty);
    AtReplaced(ks, i, CreateIn(ks[i].kids, p[1..], last, ks[i].local.handler, ks[i].local.isEmpty), q);
    if q[0] != p[0] {
      OffTheWay(At(ks, q), p, q, last, from);
    } else if |q| > 1 {
      if |p| == 1 {
        OffTheWay(At(ks, q), p, q, last, from);
      } else {
        OneDeeper(At(ks[i].kids, q[1..]),
                  At(CreateIn(ks[i].kids, p[1..], last, ks[i].local.handler, ks[i].local.isEmpty), q[1..]),
                  p, q, last, from);
      }
    } else {
      Stays(At(ks, q), p, q, last, from);
    }
  }

  lemma OffTheWay(was: Option<Local>, p: Path, q: Path, last: NodeType, from: (Option<nat>, bool))
    requires p != [] && q != [] && (q[0] != p[0] || |q| > |p|)
    ensures OnTheWay(was, was, p, q, last, from)
  {
  }

  lemma Stays(was: Option<Local>, p: Path, q: Path, last: NodeType, from: (Option<nat>, bool))
    requires was.Some?
    ensures OnTheWay(was, was, p, q, last, from)
  {
  }

  lemma FirstNew(p: Path, q: Path, last: NodeType, from: (Option<nat>, bool))
    requires p != [] && |q| == 1 && q[0] == p[0]
    ensures OnTheWay(None, Some(NewLocal(p[0], if |p| == 1 then last else Block, from.0, from.1)), p, q, last, from)
  {
    assert |p| == 1 ==> q == p;
  }

  lemma AtAdded(ks: seq<Entry>, k: Entry, q: Path)
    requires !k.local.isTemplate && Child(ks, k.local.name) == |ks| && q != []
    ensures At(ks + [k], q)
            == if q[0] != k.local.name then At(ks, q) else if |q| == 1 then Some(k.local) else At(k.kids, q[1..])
  {
    var i := if q[0] == k.local.name || Child(ks, q[0]) < |ks| then Child(ks, q[0]) else |ks| + 1;
    ChildIs(ks + [k], q[0], i);
  }

  lemma NothingAt(q: Path)
    ensures At([], q) == None
  {
  }

  lemma {:induction false} CreateUnique(ks: seq<Entry>, p: Path, last: NodeType, handler: Option<nat>, isEmpty: bool)
    requires Unique(ks)
    ensures Unique(CreateIn(ks, p, last, handler, isEmpty))
    decreases |p|
  {
    if p != [] {
      var i := Child(ks, p[0]);
      if i == |ks| {
        CreateUnique([], p[1..], last, handler, isEmpty);
      } else {
        assert ks[i] in ks;
        CreateUnique(ks[i].kids, p[1..], last, ks[i].local.handler, ks[i].local.isEmpty);
      }
    }
  }
}
