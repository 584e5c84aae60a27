/** COMMIT, DISCARD, ROLLBACK's replace_prepare and reset, on values (src/config/config.cpp:2151-2303, 2823-2886). */
module ConfigTransaction {
  import opened ConfigTree

  // ---------------------------------------------------------------- commit

  /** The children of a block after commit. */
  function CommitKids(ks: seq<Node>, pretend: bool): seq<Node>
    decreases ks, 1
  {
    if ks == [] then [] else CommitNode(ks[0], pretend) + CommitKids(ks[1..], pretend)
  }

  function CommitNode(k: Node, pretend: bool): (r: seq<Node>)
    ensures |r| <= 1
    decreases k, 0
  {
    if k.isTemplate then [k]
    else
      var seen := k.(isNew := false);
      match k.state
      case Ready => [seen.(kids := CommitKids(k.kids, pretend))]
      case Modified =>
        var kids := CommitKids(k.kids, pretend);
        if pretend then [seen.(kids := kids)]
        else [seen.(state := Ready, value := if k.nodeType == Item then k.newValue else k.value, kids := kids)]
      case Deleted =>
        if pretend then [seen]
        else if k.nodeType == Block then []
        else [seen.(state := Ready, value := "", newValue := "")]
  }

  /** The number of changes commit reports, pretending or not. */
  function Changes(ks: seq<Node>): nat
    decreases ks, 1
  {
    if ks == [] then 0 else ChangesAt(ks[0]) + Changes(ks[1..])
  }

  function ChangesAt(k: Node): nat
    decreases k, 0
  {
    if k.isTemplate then 0
    else
      match k.state
      case Ready => Changes(k.kids)
      case Modified => 1 + Changes(k.kids)
      case Deleted => 1
  }

  /** Commit gets from k to the node at path p: it passes no template and nothing beneath a deleted node. */
  predicate Reaches(k: Node, p: seq<nat>)
    decreases p
  {
    && !k.isTemplate
    && (p != [] ==> k.state != Deleted && p[0] < |k.kids| && Reaches(k.kids[p[0]], p[1..]))
  }

  function Target(k: Node, p: seq<nat>): Node
    requires Reaches(k, p)
    decreases p
  {
    if p == [] then k else Target(k.kids[p[0]], p[1..])
  }

  /** A path among the children ks that commit reaches and whose node is MODIFIED or DELETED. */
  predicate ChangeAt(ks: seq<Node>, p: seq<nat>) {
    && p != [] && p[0] < |ks| && Reaches(ks[p[0]], p[1..])
    && (Target(ks[p[0]], p[1..]).state == Modified || Target(ks[p[0]], p[1..]).state == Deleted)
  }

  /** The number commit reports is the number of paths it reaches whose node is MODIFIED or DELETED. */
  lemma {:induction false} ChangesCounted(ks: seq<Node>) returns (paths: set<seq<nat>>)
    ensures forall p :: p in paths <==> ChangeAt(ks, p)
    ensures Changes(ks) == |paths|
    decreases ks, 1
  {
    if ks == [] {
      paths := {};
    } else {
      var first := ChangesAtCounted(ks[0]);
      var rest := ChangesCounted(ks[1..]);
      var here := InFirst(first);
      var there := InRest(rest);
      paths := here + there;
      assert here !! there;
      forall p ensures p in paths <==> ChangeAt(ks, p) {
        if p != [] {
          ChangeSplit(ks, p);
        }
      }
    }
  }

  /** The same paths, from the parent on: in its first child. */
  lemma InFirst(paths: set<seq<nat>>) returns (longer: set<seq<nat>>)
    ensures forall p :: p in longer <==> p != [] && p[0] == 0 && p[1..] in paths
    ensures |longer| == |paths|
  {
    longer := set p | p in paths :: [0] + p;
    forall p ensures p in longer <==> p != [] && p[0] == 0 && p[1..] in paths {
      assert p != [] && p[0] == 0 ==> p == [0] + p[1..];
    }
    forall x: seq<nat>, y: seq<nat> | [0] + x == [0] + y ensures x == y {
      assert x == ([0] + x)[1..] && y == ([0] + y)[1..];
    }
    ImageSize(paths, longer, p => [0] + p);
  }

  /** The same paths, in a row with one more child at the front. */
  lemma InRest(paths: set<seq<nat>>) returns (shifted: set<seq<nat>>)
    requires [] !in paths
    ensures forall p :: p in shifted <==> p != [] && p[0] > 0 && [p[0] - 1] + p[1..] in paths
    ensures |shifted| == |paths|
  {
    shifted := set p | p in paths :: Next(p);
    forall p ensures p in shifted <==> p != [] && p[0] > 0 && [p[0] - 1] + p[1..] in paths {
      if p != [] && p[0] > 0 {
        assert p == Next([p[0] - 1] + p[1..]);
      }
      forall q | q in paths && p == Next(q) ensures p != [] && p[0] > 0 && [p[0] - 1] + p[1..] in paths {
        assert q == [p[0] - 1] + p[1..];
      }
    }
    forall x, y | x in paths && y in paths && Next(x) == Next(y) ensures x == y {
      assert x == [Next(x)[0] - 1] + Next(x)[1..] && y == [Next(y)[0] - 1] + Next(y)[1..];
    }
    ImageSize(paths, shifted, Next);
  }

  function Next(p: seq<nat>): seq<nat> {
    if p == [] then [] else [p[0] + 1] + p[1..]
  }

  lemma ChangeSplit(ks: seq<Node>, p: seq<nat>)
    requires ks != [] && p != []
    ensures p[0] == 0 ==> (ChangeAt(ks, p) <==> Reaches(ks[0], p[1..]) && Target(ks[0], p[1..]).state != Ready)
    ensures p[0] > 0 ==> (ChangeAt(ks, p) <==> ChangeAt(ks[1..], [p[0] - 1] + p[1..]))
  {
  }

  lemma ChangesAtCounted(k: Node) returns (paths: set<seq<nat>>)
    ensures forall p :: p in paths <==> Reaches(k, p) && Target(k, p).state != Ready
    ensures ChangesAt(k) == |paths|
    decreases k, 0
  {
    hide Changes;
    paths := {};
    if !k.isTemplate {
      if k.state != Deleted {
        paths := ChangesCounted(k.kids);
        forall p ensures Reaches(k, p) <==> p == [] || (p[0] < |k.kids| && Reaches(k.kids[p[0]], p[1..])) {
        }
      }
      if k.state != Ready {
        paths := paths + {[]};
      }
    }
  }

  lemma {:induction false} ImageSize(T: set<seq<nat>>, image: set<seq<nat>>, f: seq<nat> -> seq<nat>)
    requires image == set x | x in T :: f(x)
    requires forall x, y | x in T && y in T && f(x) == f(y) :: x == y
    ensures |image| == |T|
    decreases T
  {
    if T != {} {
      var x :| x in T;
      ImageSize(T - {x}, image - {f(x)}, f);
    }
  }

  /** The same tree with nothing marked new. */
  function Seen(ks: seq<Node>): seq<Node>
    decreases ks
  {
    if ks == [] then [] else [ks[0].(isNew := false, kids := Seen(ks[0].kids))] + Seen(ks[1..])
  }

  lemma {:induction false} SeenAppend(a: seq<Node>, b: seq<Node>)
    ensures Seen(a + b) == Seen(a) + Seen(b)
  {
    if a == [] {
      assert a + b == b;
    } else {
      SeenAppend(a[1..], b);
      assert (a + b)[0] == a[0] && (a + b)[1..] == a[1..] + b;
      Associative([a[0].(isNew := false, kids := Seen(a[0].kids))], Seen(a[1..]), Seen(b));
    }
  }

  lemma PretendKeepsNode(k: Node)
    requires Seen(CommitKids(k.kids, true)) == Seen(k.kids)
    ensures Seen(CommitNode(k, true)) == [k.(isNew := false, kids := Seen(k.kids))]
  {
    hide CommitKids, Seen;
    var one := CommitNode(k, true);
    assert one == [one[0]];
    SeenOne(one[0]);
  }

  lemma SeenOne(k: Node)
    ensures Seen([k]) == [k.(isNew := false, kids := Seen(k.kids))]
  {
    assert [k][1..] == [];
  }

  /** A pretended commit changes no value, no state and no structure: it only forgets what is new. */
  lemma {:induction false} PretendChangesNothing(ks: seq<Node>)
    ensures Seen(CommitKids(ks, true)) == Seen(ks)
    decreases ks
  {
    hide CommitNode;
    if ks != [] {
      PretendChangesNothing(ks[1..]);
      PretendChangesNothing(ks[0].kids);
      PretendKeepsNode(ks[0]);
      SeenAppend(CommitNode(ks[0], true), CommitKids(ks[1..], true));
    }
  }

  lemma {:induction false} SeenChanges(ks: seq<Node>)
    ensures Changes(Seen(ks)) == Changes(ks)
    decreases ks
  {
    if ks != [] {
      SeenChanges(ks[0].kids);
      SeenChanges(ks[1..]);
      assert Seen(ks)[1..] == Seen(ks[1..]);
    }
  }

  /** After a pretended commit the real one still reports every change. */
  lemma PretendKeepsChanges(ks: seq<Node>)
    ensures Changes(CommitKids(ks, true)) == Changes(ks)
  {
    PretendChangesNothing(ks);
    SeenChanges(ks);
    SeenChanges(CommitKids(ks, true));
  }

  /** No new node is reached: whatever is new lies in a template, in a new node or in a deleted one. */
  predicate NoneNew(ks: seq<Node>)
    decreases ks
  {
    forall k | k in ks :: k.isTemplate || (!k.isNew && (k.state == Deleted || NoneNew(k.kids)))
  }

  /** With no new node reached, a pretended commit changes nothing at all. */
  lemma {:induction false} NothingToForget(ks: seq<Node>)
    requires NoneNew(ks)
    ensures CommitKids(ks, true) == ks
    decreases ks
  {
    if ks != [] {
      var k := ks[0];
      assert k in ks && ks == [k] + ks[1..];
      NothingToForget(ks[1..]);
      if !k.isTemplate && k.state != Deleted {
        NothingToForget(k.kids);
      }
    }
  }

  lemma InScopeRest(ks: seq<Node>)
    requires ks != [] && InScope(ks)
    ensures NodeInScope(ks[0]) && InScope(ks[1..])
  {
    assert ks[0] in ks;
  }

  lemma CleanAppend(a: seq<Node>, b: seq<Node>)
    requires Clean(a) && Clean(b)
    ensures Clean(a + b)
  {
  }

  /** A commit turns the pending view into the committed one and leaves nothing pending. */
  lemma {:induction false} CommitShowsPending(ks: seq<Node>)
    requires InScope(ks)
    ensures Committed(CommitKids(ks, false)) == Pending(ks) && Clean(CommitKids(ks, false))
    decreases ks, 1
  {
    hide InScope, Clean;
    if ks != [] {
      InScopeRest(ks);
      CommitShowsPendingNode(ks[0]);
      CommitShowsPending(ks[1..]);
      CommittedAppend(CommitNode(ks[0], false), CommitKids(ks[1..], false));
      CleanAppend(CommitNode(ks[0], false), CommitKids(ks[1..], false));
    } else {
      NothingClean();
    }
  }

  lemma NothingClean()
    ensures Clean([])
  {
  }

  lemma CommitShowsPendingNode(k: Node)
    requires NodeInScope(k)
    ensures Committed(CommitNode(k, false)) == PendingNode(k) && Clean(CommitNode(k, false))
    decreases k, 0
  {
    hide CommitKids, Committed, Pending, CommittedNode;
    CommitShowsPending(k.kids);
    NothingClean();
    if CommitNode(k, false) != [] {
      var c := CommitNode(k, false)[0];
      assert CommitNode(k, false) == [c];
      CommittedSingle(c);
      CommittedNodeIs(c);
    } else {
      NothingCommitted();
    }
  }

  lemma NothingCommitted()
    ensures Committed([]) == []
  {
  }

  lemma CommittedNodeIs(k: Node)
    ensures CommittedNode(k)
            == if k.isTemplate then [] else if k.nodeType == Item then [VItem(k.name, k.value)]
               else if k.isNew then [] else [VBlock(k.name, Committed(k.kids))]
  {
  }

  lemma {:induction false} CommitLengths(ks: seq<Node>)
    ensures |CommitKids(ks, false)| <= |ks| == |CommitKids(ks, true)|
  {
    if ks != [] {
      CommitLengths(ks[1..]);
    }
  }

  /** The count a pretended commit reports is 0 if and only if it reaches no node that is MODIFIED or DELETED, and if
      and only if committing for real would do no more than pretending does. */
  lemma NothingToCommit(ks: seq<Node>)
    ensures Changes(ks) == 0 <==> forall p :: !ChangeAt(ks, p)
    ensures Changes(ks) == 0 <==> CommitKids(ks, false) == CommitKids(ks, true)
  {
    var paths := ChangesCounted(ks);
    assert paths == {} <==> forall p :: !ChangeAt(ks, p);
    CommitOrPretend(ks);
  }

  lemma {:induction false} CommitOrPretend(ks: seq<Node>)
    ensures Changes(ks) == 0 <==> CommitKids(ks, false) == CommitKids(ks, true)
    decreases ks
  {
    if ks != [] {
      var k, rest := ks[0], ks[1..];
      CommitOrPretend(k.kids);
      CommitOrPretend(rest);
      CommitLengths(rest);
      var a, b := CommitKids(rest, false), CommitKids(rest, true);
      if CommitNode(k, false) == [] {
        assert |CommitKids(ks, false)| < |CommitKids(ks, true)|;
      } else {
        var x, y := CommitNode(k, false)[0], CommitNode(k, true)[0];
        assert CommitKids(ks, false) == [x] + a && CommitKids(ks, true) == [y] + b;
        assert x == y <==> ChangesAt(k) == 0;
        assert a == ([x] + a)[1..] && b == ([y] + b)[1..];
      }
    }
  }

  /** On a clean tree commit finds nothing to do: in particular a second commit returns 0. */
  lemma {:induction false} CleanCommitsToItself(ks: seq<Node>, pretend: bool)
    requires Clean(ks)
    ensures CommitKids(ks, pretend) == ks && Changes(ks) == 0
    decreases ks
  {
    if ks != [] {
      var k, rest := ks[0], ks[1..];
      assert k in ks && CleanNode(k);
      CleanCommitsToItself(rest, pretend);
      if !k.isTemplate {
        CleanCommitsToItself(k.kids, pretend);
      }
      assert ks == [k] + rest;
    }
  }

  /** commit, then commit again. */
  lemma SecondCommitFindsNothing(ks: seq<Node>)
    requires InScope(ks)
    ensures Changes(CommitKids(ks, false)) == 0 && CommitKids(CommitKids(ks, false), false) == CommitKids(ks, false)
  {
    CommitShowsPending(ks);
    CleanCommitsToItself(CommitKids(ks, false), false);
  }

  lemma {:induction false} CommitAppend(a: seq<Node>, b: seq<Node>, pretend: bool)
    ensures CommitKids(a + b, pretend) == CommitKids(a, pretend) + CommitKids(b, pretend)
  {
    hide CommitNode;
    if a == [] {
      assert a + b == b;
    } else {
      CommitAppend(a[1..], b, pretend);
      assert (a + b)[0] == a[0] && (a + b)[1..] == a[1..] + b;
      Associative(CommitNode(a[0], pretend), CommitKids(a[1..], pretend), CommitKids(b, pretend));
    }
  }

  // ---------------------------------------------------------------- discard

  /** The children of a block after discard. */
  function DiscardKids(ks: seq<Node>): seq<Node>
    decreases ks, 1
  {
    if ks == [] then [] else DiscardNode(ks[0]) + DiscardKids(ks[1..])
  }

  function DiscardNode(k: Node): (r: seq<Node>)
    ensures |r| <= 1
    decreases k, 0
  {
    if k.isTemplate then [k]
    else if k.isNew then []
    else
      var kids := DiscardKids(k.kids);
      if k.state == Ready then [k.(kids := kids)]
      else [k.(state := Ready, newValue := if k.nodeType == Item then k.value else k.newValue, kids := kids)]
  }

  /** After a discard every node is READY. */
  lemma {:induction false} DiscardIsClean(ks: seq<Node>)
    ensures Clean(DiscardKids(ks))
    decreases ks
  {
    if ks != [] {
      DiscardIsClean(ks[0].kids);
      DiscardIsClean(ks[1..]);
    }
  }

  lemma {:induction false} CleanDiscardsToItself(ks: seq<Node>)
    requires Clean(ks)
    ensures DiscardKids(ks) == ks
    decreases ks
  {
    if ks != [] {
      var k := ks[0];
      assert k in ks && CleanNode(k);
      CleanDiscardsToItself(ks[1..]);
      if !k.isTemplate {
        CleanDiscardsToItself(k.kids);
      }
      assert ks == [k] + ks[1..];
    }
  }

  /** A discard shows what was committed before. */
  lemma {:induction false} DiscardShowsCommitted(ks: seq<Node>)
    requires InScope(ks)
    ensures Committed(DiscardKids(ks)) == Committed(ks)
    decreases ks
  {
    hide InScope;
    if ks != [] {
      var k := ks[0];
      InScopeRest(ks);
      DiscardShowsCommitted(ks[1..]);
      DiscardShowsCommitted(k.kids);
      if DiscardNode(k) != [] {
        CommittedSingle(DiscardNode(k)[0]);
      }
      CommittedAppend(DiscardNode(k), DiscardKids(ks[1..]));
    }
  }

  lemma {:induction false} DiscardAppend(a: seq<Node>, b: seq<Node>)
    ensures DiscardKids(a + b) == DiscardKids(a) + DiscardKids(b)
  {
    hide DiscardNode;
    if a == [] {
      assert a + b == b;
    } else {
      DiscardAppend(a[1..], b);
      assert (a + b)[0] == a[0] && (a + b)[1..] == a[1..] + b;
      Associative(DiscardNode(a[0]), DiscardKids(a[1..]), DiscardKids(b));
    }
  }

  lemma DiscardUpdate(ks: seq<Node>, i: nat, k: Node)
    requires i < |ks|
    ensures DiscardKids(ks) == DiscardKids(ks[..i]) + DiscardNode(ks[i]) + DiscardKids(ks[i + 1..])
    ensures DiscardKids(ks[i := k]) == DiscardKids(ks[..i]) + DiscardNode(k) + DiscardKids(ks[i + 1..])
  {
    assert ks == ks[..i] + ([ks[i]] + ks[i + 1..]) && ks[i := k] == ks[..i] + ([k] + ks[i + 1..]);
    DiscardAppend(ks[..i], [ks[i]] + ks[i + 1..]);
    DiscardAppend(ks[..i], [k] + ks[i + 1..]);
    DiscardAppend([ks[i]], ks[i + 1..]);
    DiscardAppend([k], ks[i + 1..]);
    DiscardSingle(ks[i]);
    DiscardSingle(k);
  }

  lemma DiscardSingle(k: Node)
    ensures DiscardKids([k]) == DiscardNode(k)
  {
    assert [k][1..] == [];
    assert DiscardKids([k]) == DiscardNode(k) + DiscardKids([]);
  }

  // ---------------------------------------------------------------- replace_prepare and reset

  /** Marks for deletion everything a load may leave out. */
  function PrepareKids(ks: seq<Node>): (r: seq<Node>)
    decreases ks, 1
  {
    if HasTemplate(ks) then [ks[0]] + DeleteAll(ks[1..]) else PrepareEach(ks)
  }

  function PrepareEach(ks: seq<Node>): (r: seq<Node>)
    ensures |r| == |ks|
    decreases ks, 0
  {
    if ks == [] then []
    else
      var k := ks[0];
      [if k.nodeType == Item then k.(state := Deleted) else k.(kids := PrepareKids(k.kids))] + PrepareEach(ks[1..])
  }

  function DeleteAll(ks: seq<Node>): (r: seq<Node>)
    ensures |r| == |ks| && forall i :: 0 <= i < |ks| ==> r[i] == ks[i].(state := Deleted)
  {
    seq(|ks|, i requires 0 <= i < |ks| => ks[i].(state := Deleted))
  }

  /** replace_prepare only marks: what a discard restores stays the same. */
  lemma {:induction false} PrepareKeepsDiscard(ks: seq<Node>)
    requires InScope(ks)
    ensures DiscardKids(PrepareKids(ks)) == DiscardKids(ks)
    decreases ks, 1
  {
    if HasTemplate(ks) {
      InScopeRest(ks);
      DeletedDiscards(ks[1..]);
      assert PrepareKids(ks)[1..] == DeleteAll(ks[1..]);
    } else {
      PrepareEachKeepsDiscard(ks);
    }
  }

  lemma {:induction false} PrepareEachKeepsDiscard(ks: seq<Node>)
    requires InScope(ks) && !HasTemplate(ks)
    ensures DiscardKids(PrepareEach(ks)) == DiscardKids(ks)
    decreases ks, 0
  {
    if ks != [] {
      var k, rest := ks[0], ks[1..];
      InScopeRest(ks);
      assert !HasTemplate(rest) by { if rest != [] { assert rest[0] == ks[1]; } }
      PrepareEachKeepsDiscard(rest);
      if k.nodeType == Block {
        PrepareKeepsDiscard(k.kids);
      }
      assert PrepareEach(ks)[1..] == PrepareEach(rest);
    }
  }

  lemma {:induction false} DeletedDiscards(ks: seq<Node>)
    requires forall i :: 0 <= i < |ks| ==> ks[i].nodeType == Block && !ks[i].isTemplate
    ensures DiscardKids(DeleteAll(ks)) == DiscardKids(ks)
    decreases ks
  {
    if ks != [] {
      DeletedDiscards(ks[1..]);
      assert DeleteAll(ks)[1..] == DeleteAll(ks[1..]);
    }
  }

  /** reset: every value empty, every instance gone, in templates too. */
  function ResetKids(ks: seq<Node>): (r: seq<Node>)
    decreases ks, 1
  {
    if HasTemplate(ks) then
      assert ks[0] in ks;
      [ks[0].(kids := ResetKids(ks[0].kids))]
    else ResetEach(ks)
  }

  function ResetEach(ks: seq<Node>): (r: seq<Node>)
    ensures |r| == |ks|
    decreases ks, 0
  {
    if ks == [] then []
    else [ks[0].(value := "", newValue := "", state := Ready, kids := ResetKids(ks[0].kids))] + ResetEach(ks[1..])
  }

  /** No instances, and nothing but empty, READY nodes outside the templates, in which the same holds. */
  predicate Blanked(ks: seq<Node>)
    decreases ks
  {
    && (HasTemplate(ks) ==> |ks| == 1)
    && forall k | k in ks ::
         (k.isTemplate || (k.value == "" && k.newValue == "" && k.state == Ready)) && Blanked(k.kids)
  }

  /** A reset leaves the template of a list alone in it, and the children of any other block in their places. */
  lemma {:induction false} ResetBlanks(ks: seq<Node>)
    ensures Blanked(ResetKids(ks))
    ensures |ResetKids(ks)| == if HasTemplate(ks) then 1 else |ks|
    ensures forall i :: 0 <= i < |ResetKids(ks)| ==>
                          var k := ResetKids(ks)[i];
                          k == ks[i].(value := k.value, newValue := k.newValue, state := k.state, kids := k.kids)
    decreases ks, 1
  {
    if HasTemplate(ks) {
      ResetBlanks(ks[0].kids);
    } else {
      ResetEachBlanks(ks);
    }
  }

  lemma {:induction false} ResetEachBlanks(ks: seq<Node>)
    ensures forall i :: 0 <= i < |ks| ==>
                          var k := ResetEach(ks)[i];
                          && k.value == "" && k.newValue == "" && k.state == Ready && Blanked(k.kids)
                          && k == ks[i].(value := "", newValue := "", state := Ready, kids := k.kids)
    decreases ks, 0
  {
    if ks != [] {
      ResetBlanks(ks[0].kids);
      ResetEachBlanks(ks[1..]);
    }
  }
}
