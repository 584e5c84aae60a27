/** From a definition through any history of commands, loads, commits and discards: what the definition says of the tree
    stays true of it, so a committed configuration can be loaded over and saved as ConfigLoad and ConfigSave say
    (src/config/config.cpp:2115-2303, 2452-2497, 2576-2601, 2823-2857, 2959-3088;
    src/daemons/config/events.cpp:1139-1200). */
module ConfigHistory {
  import opened Wrappers
  import opened ConfigTree
  import opened ConfigTransaction
  import opened ConfigMerge
  import opened ConfigRollback
  import opened ConfigLoad
  import opened ConfigSave
  import CF = ConfigFile

  // ---------------------------------------------------------------- definitions

  predicate Allows(rules: Rules, typ: string, value: string) {
    value != "" ==> Fits(rules, typ, value)
  }

  /** Nothing but blocks, which print nothing: what a template marked empty holds. */
  ghost predicate Barren(ks: seq<Node>)
    decreases ks
  {
    forall k | k in ks :: k.nodeType == Block && !k.isTemplate && !k.isEmpty && Barren(k.kids)
  }

  /** A definition: named children, or one template without instances, at every depth; nothing pending. */
  ghost predicate Definition(ds: seq<Node>, rules: Rules)
    decreases ds, 1
  {
    && (forall d | d in ds :: DefinitionNode(d, rules))
    && if HasTemplate(ds) then |ds| == 1 && ds[0].nodeType == Block
       else NamesDiffer(ds) && forall d | d in ds :: !d.isTemplate
  }

  ghost predicate DefinitionNode(d: Node, rules: Rules)
    decreases d, 0
  {
    && d.state == Ready && !d.isNew && Definition(d.kids, rules) && (d.isEmpty ==> Barren(d.kids))
    && (d.nodeType == Item ==>
          d.kids == [] && d.newValue == d.value && Allows(rules, d.typ, d.value) && !CF.IsNumber(d.name))
  }

  // ---------------------------------------------------------------- trees grown from a definition

  /** What no operation changes of a named child. */
  function Frame(k: Node): Node {
    k.(value := "", newValue := "", state := Ready, isNew := false, kids := [])
  }

  /** ks has grown from the definition ds: named children are filled in, lists have instances. */
  ghost predicate Grown(ks: seq<Node>, ds: seq<Node>, rules: Rules)
    decreases ds, 1
  {
    if HasTemplate(ds) then
      && ks != [] && TemplateOf(ks[0], ds[0]) && NamesDiffer(ks[1..])
      && forall k | k in ks[1..] :: InstanceOf(k, ds[0], rules)
    else |ks| == |ds| && forall i | 0 <= i < |ds| :: Filled(ks[i], ds[i], rules)
  }

  /** A template is as in the definition, but for marks that a creating command has left. */
  ghost predicate TemplateOf(k: Node, d: Node) {
    BlankNode(k) == d && k.state != Deleted && !k.isNew && Settled(k.kids)
  }

  ghost predicate InstanceOf(k: Node, d: Node, rules: Rules)
    decreases d, 0
  {
    && k.nodeType == Block && !k.isTemplate && k.isEmpty == d.isEmpty && Fits(rules, d.typ, k.name)
    && Grown(k.kids, d.kids, rules)
  }

  ghost predicate Filled(k: Node, d: Node, rules: Rules)
    decreases d, 0
  {
    && Frame(k) == Frame(d) && !k.isNew && (k.nodeType == Block ==> k.state != Deleted) && Grown(k.kids, d.kids, rules)
    && (k.nodeType == Item ==>
          && Allows(rules, k.typ, k.value) && Allows(rules, k.typ, k.newValue)
          && (k.state == Ready ==> k.newValue == k.value))
  }

  lemma GrownKind(ks: seq<Node>, ds: seq<Node>, rules: Rules)
    requires Definition(ds, rules) && Grown(ks, ds, rules)
    ensures HasTemplate(ks) == HasTemplate(ds)
    ensures HasTemplate(ks) ==> ks[0].typ == ds[0].typ && ks[0].isEmpty == ds[0].isEmpty && ks[0].nodeType == Block
  {
    hide NamesDiffer, Settled;
    if !HasTemplate(ds) && ks != [] {
      assert Filled(ks[0], ds[0], rules) && ds[0] in ds;
    }
  }

  lemma {:induction false} CopySettles(ks: seq<Node>, state: Option<NodeState>)
    requires Settled(ks) && state != Some(Deleted)
    ensures Settled(CopyKids(ks, state))
    decreases ks
  {
    var cs := CopyKids(ks, state);
    forall i | 0 <= i < |ks|
      ensures cs[i].state != Deleted && !cs[i].isNew && (cs[i].nodeType == Item ==> cs[i].newValue == cs[i].value)
      ensures Settled(cs[i].kids)
    {
      CopyAt(ks, state, i);
      assert ks[i] in ks;
      CopySettles(ks[i].kids, state);
    }
  }

  /** What is copied from a template has grown from what is defined inside it. */
  lemma {:induction false} CopyGrows(ts: seq<Node>, ds: seq<Node>, state: Option<NodeState>, rules: Rules)
    requires Definition(ds, rules) && Blank(ts) == ds && Settled(ts) && state != Some(Deleted)
    ensures Grown(CopyKids(ts, state), ds, rules)
    decreases ds
  {
    hide Blank, NamesDiffer, Allows;
    var cs := CopyKids(ts, state);
    if HasTemplate(ds) {
      CopyNodeIs(ts, state, 0);
      CopySettles(ts[0].kids, state);
      assert ts[0] in ts && cs[1..] == [];
      CopyCopied(ts[0].kids, state);
      BlankAt(ts, 0);
      NothingDiffers();
    } else {
      forall i | 0 <= i < |ds| ensures Filled(cs[i], ds[i], rules) {
        CopyNodeIs(ts, state, i);
        BlankAt(ts, i);
        assert ts[i] in ts && ds[i] in ds;
        CopyGrows(ts[i].kids, ds[i].kids, state, rules);
        CopiedFills(ts[i], ds[i], state, rules);
      }
    }
  }

  lemma CopyNodeIs(ts: seq<Node>, state: Option<NodeState>, i: nat)
    requires i < |ts|
    ensures CopyKids(ts, state)[i] == CopiedNode(ts[i], state)
  {
    CopyAt(ts, state, i);
  }

  function CopiedNode(t: Node, state: Option<NodeState>): Node {
    t.(state := if state.Some? then state.value else t.state, isNew := false, kids := CopyKids(t.kids, state))
  }

  lemma CopiedFills(t: Node, d: Node, state: Option<NodeState>, rules: Rules)
    requires DefinitionNode(d, rules) && BlankNode(t) == d && t.state != Deleted && state != Some(Deleted)
    requires t.nodeType == Item ==> t.newValue == t.value
    requires Grown(CopyKids(t.kids, state), d.kids, rules)
    ensures Filled(CopiedNode(t, state), d, rules)
  {
    hide Grown, Definition, Allows, Blank;
  }

  lemma NothingDiffers()
    ensures NamesDiffer([])
  {
  }

  lemma TemplateGrows(t: Node, d: Node, rules: Rules)
    requires TemplateOf(t, d) && Definition(d.kids, rules)
    ensures Grown(t.kids, d.kids, rules)
  {
    SettledCopies(t.kids);
    CopyGrows(t.kids, d.kids, None, rules);
  }

  /** The definition has grown from itself. */
  lemma {:induction false} DefinitionGrows(ds: seq<Node>, rules: Rules)
    requires Definition(ds, rules)
    ensures Grown(ds, ds, rules)
  {
    hide Grown;
    DefinitionBlank(ds, rules);
    SettledCopies(ds);
    CopyGrows(ds, ds, None, rules);
  }

  lemma {:induction false} DefinitionBlank(ds: seq<Node>, rules: Rules)
    requires Definition(ds, rules)
    ensures Blank(ds) == ds && Settled(ds)
    decreases ds
  {
    hide NamesDiffer, Allows;
    var bs := Blank(ds);
    forall i | 0 <= i < |ds|
      ensures bs[i] == ds[i] && ds[i].state != Deleted && !ds[i].isNew && Settled(ds[i].kids)
      ensures ds[i].nodeType == Item ==> ds[i].newValue == ds[i].value
    {
      assert ds[i] in ds;
      DefinitionBlank(ds[i].kids, rules);
      BlankAt(ds, i);
    }
  }

  /** What any child of a grown tree is, by the node of the definition it comes from. */
  lemma GrownKid(ks: seq<Node>, ds: seq<Node>, k: Node, rules: Rules) returns (d: Node)
    requires Definition(ds, rules) && Grown(ks, ds, rules) && k in ks
    ensures d in ds && DefinitionNode(d, rules) && Grown(k.kids, d.kids, rules)
    ensures k.isTemplate ==> TemplateOf(k, d) && k.nodeType == Block
    ensures !k.isTemplate && HasTemplate(ds) ==> InstanceOf(k, d, rules)
    ensures !HasTemplate(ds) ==> Filled(k, d, rules)
    ensures k.isTemplate ==> HasTemplate(ds)
  {
    hide NamesDiffer, Settled, Allows;
    if HasTemplate(ds) {
      d := ds[0];
      assert d in ds;
      if k == ks[0] {
        TemplateGrows(k, d, rules);
      } else {
        assert k in ks[1..];
      }
    } else {
      var i :| 0 <= i < |ks| && ks[i] == k;
      d := ds[i];
      assert Filled(ks[i], ds[i], rules) && d in ds;
    }
  }

  // ---------------------------------------------------------------- commands

  /** The edits that the command handlers let through: values that fit, items and instances deleted, new instances under
      names that fit and are not taken. */
  ghost predicate Allowed(ks: seq<Node>, path: seq<nat>, e: Edit, rules: Rules)
    decreases |path|
  {
    if path == [] then
      e.AddInstance? && HasTemplate(ks) ==>
        Fits(rules, ks[0].typ, e.name) && forall k | k in ks[1..] :: k.name != e.name
    else
      var i := path[0];
      i < |ks| && !ks[i].isTemplate ==>
        if |path| == 1 && !e.AddInstance? then AllowedHere(ks[i], HasTemplate(ks), e, rules)
        else Allowed(ks[i].kids, path[1..], e, rules)
  }

  predicate AllowedHere(k: Node, instance: bool, e: Edit, rules: Rules) {
    && (e.SetValue? && k.nodeType == Item ==> Fits(rules, k.typ, e.value))
    && (e.MarkDeleted? ==> k.nodeType == Item || instance)
  }

  lemma {:induction false} GrownUpdate(ks: seq<Node>, ds: seq<Node>, i: nat, k: Node, rules: Rules)
    requires Definition(ds, rules) && Grown(ks, ds, rules) && i < |ks| && !ks[i].isTemplate && k.name == ks[i].name
    requires if HasTemplate(ds) then InstanceOf(k, ds[0], rules) else Filled(k, ds[i], rules)
    ensures Grown(ks[i := k], ds, rules)
  {
    hide NamesDiffer, InstanceOf, Filled;
    GrownKind(ks, ds, rules);
    if HasTemplate(ds) {
      var a, b := ks[1..], ks[i := k][1..];
      assert b == a[i - 1 := k];
      SameNames(a, b);
      StillDiffer(a, b);
      assert forall n | n in b :: n == k || n in a;
    }
  }

  lemma {:induction false} EditedGrows(ks: seq<Node>, path: seq<nat>, e: Edit, ds: seq<Node>, rules: Rules)
    requires Definition(ds, rules) && Grown(ks, ds, rules) && Allowed(ks, path, e, rules)
    ensures Grown(Edited(ks, path, e), ds, rules)
    decreases |path|
  {
    hide Grown, Definition, Allows, Fits;
    if path == [] {
      GrownKind(ks, ds, rules);
      if e.AddInstance? && HasTemplate(ks) {
        EnterGrows(ks, e.name, ds, rules);
      }
    } else {
      var i := path[0];
      if i < |ks| && !ks[i].isTemplate {
        if |path| == 1 && !e.AddInstance? {
          TouchGrows(ks, i, e, ds, rules);
        } else {
          InnerGrows(ks, i, path, e, ds, rules);
        }
      }
    }
  }

  lemma {:induction false} InnerGrows(ks: seq<Node>, i: nat, path: seq<nat>, e: Edit, ds: seq<Node>, rules: Rules)
    requires Definition(ds, rules) && Grown(ks, ds, rules) && i < |ks| && !ks[i].isTemplate && path != []
    requires Allowed(ks[i].kids, path[1..], e, rules)
    ensures Grown(ks[i := ks[i].(kids := Edited(ks[i].kids, path[1..], e))], ds, rules)
    decreases |path|, 0
  {
    hide NamesDiffer, Definition, Allows, Edited, Allowed;
    var d := GrownFrom(ks, ds, i, rules);
    EditedGrows(ks[i].kids, path[1..], e, d.kids, rules);
    GrownUpdate(ks, ds, i, ks[i].(kids := Edited(ks[i].kids, path[1..], e)), rules);
  }

  /** The node of the definition that the i-th child comes from. */
  lemma GrownFrom(ks: seq<Node>, ds: seq<Node>, i: nat, rules: Rules) returns (d: Node)
    requires Definition(ds, rules) && Grown(ks, ds, rules) && i < |ks| && !ks[i].isTemplate
    ensures DefinitionNode(d, rules) && Definition(d.kids, rules) && Grown(ks[i].kids, d.kids, rules) && d in ds
    ensures if HasTemplate(ds) then d == ds[0] && InstanceOf(ks[i], d, rules)
            else i < |ds| && d == ds[i] && Filled(ks[i], d, rules)
  {
    hide NamesDiffer, Allows, Settled;
    GrownKind(ks, ds, rules);
    if HasTemplate(ds) {
      d := ds[0];
      assert ks[i] == ks[1..][i - 1] && ks[i] in ks[1..] && d in ds;
      assert InstanceOf(ks[i], d, rules);
    } else {
      d := ds[i];
      assert Filled(ks[i], ds[i], rules) && d in ds;
    }
  }

  lemma TouchGrows(ks: seq<Node>, i: nat, e: Edit, ds: seq<Node>, rules: Rules)
    requires Definition(ds, rules) && Grown(ks, ds, rules) && i < |ks| && !ks[i].isTemplate && !e.AddInstance?
    requires AllowedHere(ks[i], HasTemplate(ks), e, rules)
    ensures Grown(ks[i := Touched(ks[i], e)], ds, rules)
  {
    hide NamesDiffer, Definition, Grown, Fits;
    GrownKind(ks, ds, rules);
    var d := GrownFrom(ks, ds, i, rules);
    GrownUpdate(ks, ds, i, Touched(ks[i], e), rules);
  }

  lemma EnterGrows(ks: seq<Node>, name: string, ds: seq<Node>, rules: Rules)
    requires Definition(ds, rules) && Grown(ks, ds, rules) && HasTemplate(ks) && Fits(rules, ks[0].typ, name)
    requires forall k | k in ks[1..] :: k.name != name
    ensures Grown(ks + [EnteredInstance(ks[0], name)], ds, rules)
  {
    hide NamesDiffer, Settled, Blank, Fits;
    GrownKind(ks, ds, rules);
    var k := EnteredInstance(ks[0], name);
    assert ds[0] in ds;
    CopyGrows(ks[0].kids, ds[0].kids, Some(Modified), rules);
    assert InstanceOf(k, ds[0], rules);
    OneMoreInstance(ks, k, ds, rules);
  }

  lemma OneMoreInstance(ks: seq<Node>, k: Node, ds: seq<Node>, rules: Rules)
    requires HasTemplate(ds) && Grown(ks, ds, rules) && InstanceOf(k, ds[0], rules)
    requires forall n | n in ks[1..] :: n.name != k.name
    ensures Grown(ks + [k], ds, rules)
  {
    hide NamesDiffer, Settled, Blank, Bag, InstanceOf;
    var all := ks + [k];
    assert all[1..] == ks[1..] + [k] && all[0] == ks[0];
    BagAppend(ks[1..], [k], NameOf);
    BagSingle(k, NameOf);
    AddedDiffers(ks[1..], k, all[1..]);
    assert forall n | n in all[1..] :: n == k || n in ks[1..];
  }

  // ---------------------------------------------------------------- loads

  lemma {:induction false} PrepareGrows(ks: seq<Node>, ds: seq<Node>, rules: Rules)
    requires Definition(ds, rules) && Grown(ks, ds, rules)
    ensures Grown(PrepareKids(ks), ds, rules)
    decreases ds
  {
    hide NamesDiffer, Allows, Settled, Blank, PreparedNode, Frame;
    GrownKind(ks, ds, rules);
    if HasTemplate(ds) {
      var a, b := ks[1..], DeleteAll(ks[1..]);
      assert PrepareKids(ks)[1..] == b;
      SameNames(a, b);
      StillDiffer(a, b);
      forall n | n in b ensures InstanceOf(n, ds[0], rules) {
        var i :| 0 <= i < |b| && b[i] == n;
        assert n == a[i].(state := Deleted) && a[i] in a;
      }
    } else {
      forall i | 0 <= i < |ds| ensures Filled(PrepareEach(ks)[i], ds[i], rules) {
        PreparedAt(ks, i);
        assert Filled(ks[i], ds[i], rules) && ds[i] in ds;
        PrepareGrows(ks[i].kids, ds[i].kids, rules);
        PreparedFills(ks[i], ds[i], rules);
      }
    }
  }

  lemma PreparedFills(k: Node, d: Node, rules: Rules)
    requires Filled(k, d, rules) && Grown(PrepareKids(k.kids), d.kids, rules)
    ensures Filled(PreparedNode(k), d, rules)
  {
    hide Grown, PrepareKids, Allows;
  }

  lemma {:induction false} MergeGrows(ks: seq<Node>, fs: seq<File>, ds: seq<Node>, rules: Rules)
    requires Definition(ds, rules) && Grown(ks, ds, rules)
    ensures Grown(MergeKids(ks, fs, true, rules).0, ds, rules)
    decreases fs, 1
  {
    hide Definition, Grown, MergeOne;
    if fs != [] {
      MergeOneGrows(ks, fs[0], ds, rules);
      MergeGrows(MergeOne(ks, fs[0], true, rules).0, fs[1..], ds, rules);
    }
  }

  lemma {:induction false} MergeOneGrows(ks: seq<Node>, f: File, ds: seq<Node>, rules: Rules)
    requires Definition(ds, rules) && Grown(ks, ds, rules)
    ensures Grown(MergeOne(ks, f, true, rules).0, ds, rules)
    decreases f, 0
  {
    hide Definition, Grown, MergeKids, Fits;
    GrownKind(ks, ds, rules);
    if HasTemplate(ks) {
      if f.nodeType == Block && Fits(rules, ks[0].typ, f.name) {
        var j := FindInstance(ks, f.name, 1);
        if j < |ks| {
          GrownInstance(ks, ds, j, rules);
          var d := GrownFrom(ks, ds, j, rules);
          MergeGrows(ks[j].kids, f.kids, d.kids, rules);
          MergedIntoGrows(ks, j, ks[j].(state := Modified, isNew := false), f, ds, d, rules);
        } else {
          FreshGrows(ks, f, ds, rules);
        }
      }
    } else {
      var j := Find(ks, f.name, 0);
      if j < |ks| && !(f.nodeType == Item && !Fits(rules, ks[j].typ, f.value)) {
        var d := GrownFrom(ks, ds, j, rules);
        MergeGrows(ks[j].kids, f.kids, d.kids, rules);
        MergedIntoGrows(ks, j, if f.nodeType == Item then Assigned(ks[j], f.value, true) else ks[j], f, ds, d, rules);
      }
    }
  }

  lemma GrownInstance(ks: seq<Node>, ds: seq<Node>, j: nat, rules: Rules)
    requires Definition(ds, rules) && Grown(ks, ds, rules) && HasTemplate(ks) && 0 < j < |ks|
    ensures !ks[j].isTemplate
  {
    hide NamesDiffer, Settled, Blank;
    GrownKind(ks, ds, rules);
    assert ks[j] == ks[1..][j - 1] && ks[j] in ks[1..];
    assert InstanceOf(ks[j], ds[0], rules);
  }

  lemma MergedIntoGrows(ks: seq<Node>, j: nat, n: Node, f: File, ds: seq<Node>, d: Node, rules: Rules)
    requires Definition(ds, rules) && Grown(ks, ds, rules) && j < |ks| && !ks[j].isTemplate
    requires if HasTemplate(ds) then d == ds[0] && InstanceOf(ks[j], d, rules)
             else j < |ds| && d == ds[j] && Filled(ks[j], d, rules)
    requires if HasTemplate(ds) then n == ks[j].(state := Modified, isNew := false)
             else if f.nodeType == Item then n == Assigned(ks[j], f.value, true) && Fits(rules, ks[j].typ, f.value)
             else n == ks[j]
    requires Grown(MergeKids(ks[j].kids, f.kids, true, rules).0, d.kids, rules)
    ensures Grown(ks[j := n.(kids := MergeKids(n.kids, f.kids, true, rules).0)], ds, rules)
  {
    hide Definition, Grown, MergeKids, Fits;
    GrownUpdate(ks, ds, j, n.(kids := MergeKids(n.kids, f.kids, true, rules).0), rules);
  }

  lemma {:induction false} FreshGrows(ks: seq<Node>, f: File, ds: seq<Node>, rules: Rules)
    requires Definition(ds, rules) && Grown(ks, ds, rules) && HasTemplate(ks)
    requires Fits(rules, ks[0].typ, f.name) && FindInstance(ks, f.name, 1) == |ks|
    ensures Grown(WithInstance(ks, NewOne(ks[0], f, rules), rules), ds, rules)
    decreases f, 0, 0
  {
    hide NamesDiffer, Settled, Blank, MergeKids, Bag, WithInstance, Fits;
    GrownKind(ks, ds, rules);
    var k := NewOne(ks[0], f, rules);
    assert ds[0] in ds;
    CopyGrows(ks[0].kids, ds[0].kids, None, rules);
    MergeGrows(CopyKids(ks[0].kids, None), f.kids, ds[0].kids, rules);
    assert InstanceOf(k, ds[0], rules);
    forall n | n in ks[1..] ensures n.name != f.name {
      var i :| 0 <= i < |ks[1..]| && ks[1..][i] == n;
      assert ks[i + 1].name != f.name;
    }
    var all := WithInstance(ks, k, rules);
    AddedFrom(ks, k, rules);
    WithInstanceBag(ks, k, rules, NameOf);
    AddedDiffers(ks[1..], k, all[1..]);
    forall n | n in all[1..] ensures InstanceOf(n, ds[0], rules) {
      var i :| 0 <= i < |all[1..]| && all[1..][i] == n;
      assert all[i + 1] in ks[1..] + [k];
    }
  }

  // ---------------------------------------------------------------- commit and discard

  /** Fewer nodes of each name. */
  ghost predicate NoNewNames(ks: seq<Node>, ks': seq<Node>) {
    forall n: string :: Bag(ks', NameOf)[n] <= Bag(ks, NameOf)[n]
  }

  lemma FewerDiffer(ks: seq<Node>, ks': seq<Node>)
    requires NamesDiffer(ks) && NoNewNames(ks, ks')
    ensures NamesDiffer(ks')
  {
    forall n: string ensures Bag(ks', NameOf)[n] <= 1 {
      assert Bag(ks', NameOf)[n] <= Bag(ks, NameOf)[n] <= 1;
    }
  }

  /** One node less, or the same name again. */
  lemma NamesOnward(k: Node, ks: seq<Node>, one: seq<Node>, rest: seq<Node>)
    requires |one| <= 1 && (one != [] ==> one[0].name == k.name) && NoNewNames(ks, rest)
    ensures NoNewNames([k] + ks, one + rest)
  {
    hide Bag;
    ConsBag(k, ks, NameOf);
    if one == [] {
      assert one + rest == rest;
    } else {
      assert one == [one[0]];
      ConsBag(one[0], rest, NameOf);
    }
    forall n: string ensures Bag(one + rest, NameOf)[n] <= Bag([k] + ks, NameOf)[n] {
      assert Bag(rest, NameOf)[n] <= Bag(ks, NameOf)[n];
    }
  }

  lemma NoNamesYet()
    ensures NoNewNames([], [])
  {
  }

  lemma CommitListed(ks: seq<Node>, pretend: bool)
    requires HasTemplate(ks)
    ensures var cs := CommitKids(ks, pretend); cs != [] && cs[0] == ks[0] && cs[1..] == CommitKids(ks[1..], pretend)
  {
    assert CommitKids(ks, pretend) == [ks[0]] + CommitKids(ks[1..], pretend);
  }

  lemma DiscardListed(ks: seq<Node>)
    requires HasTemplate(ks)
    ensures var cs := DiscardKids(ks); cs != [] && cs[0] == ks[0] && cs[1..] == DiscardKids(ks[1..])
  {
    assert DiscardKids(ks) == [ks[0]] + DiscardKids(ks[1..]);
  }

  lemma {:induction false} CommitGrows(ks: seq<Node>, ds: seq<Node>, pretend: bool, rules: Rules)
    requires Definition(ds, rules) && Grown(ks, ds, rules)
    ensures Grown(CommitKids(ks, pretend), ds, rules)
    decreases ds, 2
  {
    hide NamesDiffer, Settled, Blank, NoNewNames, InstanceOf, Filled, Allows;
    GrownKind(ks, ds, rules);
    if HasTemplate(ds) {
      assert ds[0] in ds;
      CommitInstances(ks[1..], ds[0], pretend, rules);
      var cs := CommitKids(ks, pretend);
      CommitListed(ks, pretend);
      FewerDiffer(ks[1..], cs[1..]);
    } else {
      CommitFixed(ks, ds, pretend, rules);
    }
  }

  lemma {:induction false} CommitInstances(ks: seq<Node>, d: Node, pretend: bool, rules: Rules)
    requires DefinitionNode(d, rules) && forall k | k in ks :: InstanceOf(k, d, rules)
    ensures forall k | k in CommitKids(ks, pretend) :: InstanceOf(k, d, rules)
    ensures NoNewNames(ks, CommitKids(ks, pretend))
    decreases d, 1, |ks|
  {
    hide CommitNode, InstanceOf, NoNewNames, Definition;
    if ks == [] {
      NoNamesYet();
    } else {
      assert ks[0] in ks && ks == [ks[0]] + ks[1..];
      CommitInstances(ks[1..], d, pretend, rules);
      CommitInstance(ks[0], d, pretend, rules);
      NamesOnward(ks[0], ks[1..], CommitNode(ks[0], pretend), CommitKids(ks[1..], pretend));
    }
  }

  lemma {:induction false} CommitInstance(k: Node, d: Node, pretend: bool, rules: Rules)
    requires DefinitionNode(d, rules) && InstanceOf(k, d, rules)
    ensures forall c | c in CommitNode(k, pretend) :: InstanceOf(c, d, rules) && c.name == k.name
    decreases d, 0
  {
    hide Definition, CommitKids, Grown, Fits;
    assert Grown(k.kids, d.kids, rules);
    CommitGrows(k.kids, d.kids, pretend, rules);
  }

  lemma {:induction false} CommitFixed(ks: seq<Node>, ds: seq<Node>, pretend: bool, rules: Rules)
    requires |ks| == |ds| && (forall d | d in ds :: DefinitionNode(d, rules))
    requires forall i | 0 <= i < |ds| :: Filled(ks[i], ds[i], rules)
    requires forall d | d in ds :: !d.isTemplate
    ensures var cs := CommitKids(ks, pretend); |cs| == |ds| && forall i | 0 <= i < |ds| :: Filled(cs[i], ds[i], rules)
    decreases ds, 1
  {
    hide CommitNode, Filled, DefinitionNode;
    if ks != [] {
      assert ds[0] in ds && Filled(ks[0], ds[0], rules);
      forall i | 0 <= i < |ds[1..]| ensures Filled(ks[1..][i], ds[1..][i], rules) {
        assert Filled(ks[i + 1], ds[i + 1], rules);
      }
      CommitFixed(ks[1..], ds[1..], pretend, rules);
      CommitFilled(ks[0], ds[0], pretend, rules);
      var one, rest := CommitNode(ks[0], pretend), CommitKids(ks[1..], pretend);
      forall i | 0 <= i < |ds| ensures Filled((one + rest)[i], ds[i], rules) {
        assert i > 0 ==> (one + rest)[i] == rest[i - 1] && ds[i] == ds[1..][i - 1];
      }
    }
  }

  lemma {:induction false} CommitFilled(k: Node, d: Node, pretend: bool, rules: Rules)
    requires DefinitionNode(d, rules) && Filled(k, d, rules) && !d.isTemplate
    ensures var cs := CommitNode(k, pretend); |cs| == 1 && Filled(cs[0], d, rules)
    decreases d, 0
  {
    hide Definition, CommitKids, Grown, Fits;
    assert Grown(k.kids, d.kids, rules);
    CommitGrows(k.kids, d.kids, pretend, rules);
  }

  lemma {:induction false} DiscardGrows(ks: seq<Node>, ds: seq<Node>, rules: Rules)
    requires Definition(ds, rules) && Grown(ks, ds, rules)
    ensures Grown(DiscardKids(ks), ds, rules)
    decreases ds, 2
  {
    hide NamesDiffer, Settled, Blank, NoNewNames, InstanceOf, Filled, Allows;
    GrownKind(ks, ds, rules);
    if HasTemplate(ds) {
      assert ds[0] in ds;
      DiscardInstances(ks[1..], ds[0], rules);
      var cs := DiscardKids(ks);
      DiscardListed(ks);
      FewerDiffer(ks[1..], cs[1..]);
    } else {
      DiscardFixed(ks, ds, rules);
    }
  }

  lemma {:induction false} DiscardInstances(ks: seq<Node>, d: Node, rules: Rules)
    requires DefinitionNode(d, rules) && forall k | k in ks :: InstanceOf(k, d, rules)
    ensures forall k | k in DiscardKids(ks) :: InstanceOf(k, d, rules)
    ensures NoNewNames(ks, DiscardKids(ks))
    decreases d, 1, |ks|
  {
    hide DiscardNode, InstanceOf, NoNewNames, Definition;
    if ks == [] {
      NoNamesYet();
    } else {
      assert ks[0] in ks && ks == [ks[0]] + ks[1..];
      DiscardInstances(ks[1..], d, rules);
      DiscardInstance(ks[0], d, rules);
      NamesOnward(ks[0], ks[1..], DiscardNode(ks[0]), DiscardKids(ks[1..]));
    }
  }

  lemma {:induction false} DiscardInstance(k: Node, d: Node, rules: Rules)
    requires DefinitionNode(d, rules) && InstanceOf(k, d, rules)
    ensures forall c | c in DiscardNode(k) :: InstanceOf(c, d, rules) && c.name == k.name
    decreases d, 0
  {
    hide Definition, DiscardKids, Grown, Fits;
    assert Grown(k.kids, d.kids, rules);
    DiscardGrows(k.kids, d.kids, rules);
  }

  lemma {:induction false} DiscardFixed(ks: seq<Node>, ds: seq<Node>, rules: Rules)
    requires |ks| == |ds| && (forall d | d in ds :: DefinitionNode(d, rules))
    requires forall i | 0 <= i < |ds| :: Filled(ks[i], ds[i], rules)
    requires forall d | d in ds :: !d.isTemplate
    ensures var cs := DiscardKids(ks); |cs| == |ds| && forall i | 0 <= i < |ds| :: Filled(cs[i], ds[i], rules)
    decreases ds, 1
  {
    hide DiscardNode, Filled, DefinitionNode;
    if ks != [] {
      assert ds[0] in ds && Filled(ks[0], ds[0], rules);
      forall i | 0 <= i < |ds[1..]| ensures Filled(ks[1..][i], ds[1..][i], rules) {
        assert Filled(ks[i + 1], ds[i + 1], rules);
      }
      DiscardFixed(ks[1..], ds[1..], rules);
      DiscardFilled(ks[0], ds[0], rules);
      var one, rest := DiscardNode(ks[0]), DiscardKids(ks[1..]);
      forall i | 0 <= i < |ds| ensures Filled((one + rest)[i], ds[i], rules) {
        assert i > 0 ==> (one + rest)[i] == rest[i - 1] && ds[i] == ds[1..][i - 1];
      }
    }
  }

  lemma {:induction false} DiscardFilled(k: Node, d: Node, rules: Rules)
    requires DefinitionNode(d, rules) && Filled(k, d, rules) && !d.isTemplate
    ensures var cs := DiscardNode(k); |cs| == 1 && Filled(cs[0], d, rules)
    decreases d, 0
  {
    hide Definition, DiscardKids, Grown, Fits;
    assert Grown(k.kids, d.kids, rules);
    DiscardGrows(k.kids, d.kids, rules);
  }

  // ---------------------------------------------------------------- histories

  /** What happens to a configuration: a command, a load, a pretended commit, a commit or a discard. */
  datatype Event = Act(step: Step) | CommitAll | DiscardAll

  function Happened(ks: seq<Node>, e: Event, rules: Rules): seq<Node> {
    match e
    case Act(step) => Stepped(ks, step, rules)
    case CommitAll => CommitKids(ks, false)
    case DiscardAll => DiscardKids(ks)
  }

  function History(ks: seq<Node>, es: seq<Event>, rules: Rules): seq<Node>
    decreases |es|
  {
    if es == [] then ks else History(Happened(ks, es[0], rules), es[1..], rules)
  }

  /** Every command is one the handlers let through; loads are arbitrary. */
  ghost predicate Permitted(ks: seq<Node>, es: seq<Event>, rules: Rules)
    decreases |es|
  {
    es != [] ==>
      && (es[0].Act? && es[0].step.Command? ==> Allowed(ks, es[0].step.path, es[0].step.edit, rules))
      && Permitted(Happened(ks, es[0], rules), es[1..], rules)
  }

  /** Through any history the tree stays one grown from its definition. */
  lemma {:induction false} HistoryGrows(ks: seq<Node>, es: seq<Event>, ds: seq<Node>, rules: Rules)
    requires Definition(ds, rules) && Grown(ks, ds, rules) && Permitted(ks, es, rules)
    ensures Grown(History(ks, es, rules), ds, rules)
    decreases |es|
  {
    hide Definition, Grown, Allowed, CommitKids, DiscardKids, PrepareKids, MergeKids, Edited;
    if es != [] {
      match es[0] {
        case Act(step) => StepGrows(ks, step, ds, rules);
        case CommitAll => CommitGrows(ks, ds, false, rules);
        case DiscardAll => DiscardGrows(ks, ds, rules);
      }
      HistoryGrows(Happened(ks, es[0], rules), es[1..], ds, rules);
    }
  }

  lemma StepGrows(ks: seq<Node>, s: Step, ds: seq<Node>, rules: Rules)
    requires Definition(ds, rules) && Grown(ks, ds, rules)
    requires s.Command? ==> Allowed(ks, s.path, s.edit, rules)
    ensures Grown(Stepped(ks, s, rules), ds, rules)
  {
    hide Definition, Grown, Allowed, CommitKids, PrepareKids, MergeKids, Edited;
    match s {
      case Command(path, e) => EditedGrows(ks, path, e, ds, rules);
      case Load(contents) =>
        PrepareGrows(ks, ds, rules);
        MergeGrows(PrepareKids(ks), contents, ds, rules);
      case Pretend => CommitGrows(ks, ds, true, rules);
    }
  }

  // ---------------------------------------------------------------- what a grown tree meets

  lemma {:induction false} GrownInScope(ks: seq<Node>, ds: seq<Node>, rules: Rules)
    requires Definition(ds, rules) && Grown(ks, ds, rules)
    ensures InScope(ks)
    decreases ds
  {
    hide NamesDiffer, Settled, Blank, Allows, Fits, Grown, Definition;
    GrownKind(ks, ds, rules);
    forall k | k in ks ensures NodeInScope(k) && (HasTemplate(ks) ==> k.nodeType == Block) {
      var d := GrownKid(ks, ds, k, rules);
      GrownInScope(k.kids, d.kids, rules);
      KidInScope(k, d, ks, ds, rules);
    }
    forall i | 0 < i < |ks| ensures !ks[i].isTemplate {
      TemplateFirst(ks, i, ds, rules);
    }
  }

  lemma KidInScope(k: Node, d: Node, ks: seq<Node>, ds: seq<Node>, rules: Rules)
    requires DefinitionNode(d, rules) && InScope(k.kids) && HasTemplate(ks) == HasTemplate(ds) &&
             Grown(k.kids, d.kids, rules)
    requires k.isTemplate ==> k.nodeType == Block
    requires !k.isTemplate && HasTemplate(ds) ==> InstanceOf(k, d, rules)
    requires !HasTemplate(ds) ==> Filled(k, d, rules)
    ensures NodeInScope(k) && (HasTemplate(ks) ==> k.nodeType == Block)
  {
    hide Definition, InScope;
    if d.kids == [] {
      assert !HasTemplate(d.kids);
    }
  }

  lemma TemplateFirst(ks: seq<Node>, i: nat, ds: seq<Node>, rules: Rules)
    requires Definition(ds, rules) && Grown(ks, ds, rules) && 0 < i < |ks|
    ensures !ks[i].isTemplate
  {
    hide Settled, Blank, NamesDiffer, Allows;
    if HasTemplate(ds) {
      assert ks[i] == ks[1..][i - 1] && ks[i] in ks[1..];
      assert InstanceOf(ks[i], ds[0], rules);
    } else {
      assert Filled(ks[i], ds[i], rules) && ds[i] in ds;
    }
  }

  lemma {:induction false} GrownNames(ks: seq<Node>, ds: seq<Node>, rules: Rules)
    requires Definition(ds, rules) && Grown(ks, ds, rules)
    ensures AllNamesDiffer(ks)
    decreases ds
  {
    hide NamesDiffer, Settled, Blank, Grown, Definition;
    forall k | k in ks ensures AllNamesDiffer(k.kids) {
      var d := GrownKid(ks, ds, k, rules);
      GrownNames(k.kids, d.kids, rules);
    }
    GrownKind(ks, ds, rules);
    OwnNames(ks, ds, rules);
  }

  lemma OwnNames(ks: seq<Node>, ds: seq<Node>, rules: Rules)
    requires Definition(ds, rules) && Grown(ks, ds, rules)
    ensures NamesDiffer(if HasTemplate(ds) then ks[1..] else ks)
  {
    hide NamesDiffer, Settled, Blank, Allows;
    if !HasTemplate(ds) {
      forall i | 0 <= i < |ds| ensures ks[i].name == ds[i].name {
        assert Filled(ks[i], ds[i], rules);
      }
      SameNames(ds, ks);
      StillDiffer(ds, ks);
    }
  }

  /** It has the shape of its definition. */
  lemma {:induction false} GrownShape(ks: seq<Node>, ds: seq<Node>, rules: Rules)
    requires Definition(ds, rules) && Grown(ks, ds, rules)
    ensures Shape(ks) == Shape(ds)
    decreases ds
  {
    hide NamesDiffer, Settled, Blank, Allows, ResetEach;
    GrownKind(ks, ds, rules);
    if HasTemplate(ds) {
      var t, d := ks[0], ds[0];
      assert d in ds;
      TemplateGrows(t, d, rules);
      GrownShape(t.kids, d.kids, rules);
      BlankOne(t.(kids := ResetKids(t.kids)));
      BlankOne(d.(kids := ResetKids(d.kids)));
    } else {
      forall i | 0 <= i < |ds| ensures Blank(ResetEach(ks))[i] == Blank(ResetEach(ds))[i] {
        assert Filled(ks[i], ds[i], rules) && ds[i] in ds;
        GrownShape(ks[i].kids, ds[i].kids, rules);
        ShapeAt(ks, i);
        ShapeAt(ds, i);
      }
      assert Blank(ResetEach(ks)) == Blank(ResetEach(ds));
    }
  }

  lemma ShapeAt(ks: seq<Node>, i: nat)
    requires i < |ks|
    ensures Blank(ResetEach(ks))[i] == Frame(ks[i]).(kids := Shape(ks[i].kids))
  {
    hide Blank;
    ResetAt(ks, i);
    BlankAt(ResetEach(ks), i);
  }

  lemma {:induction false} GrownCopies(ks: seq<Node>, ds: seq<Node>, rules: Rules)
    requires Definition(ds, rules) && Grown(ks, ds, rules)
    ensures Copies(ks)
    decreases ds
  {
    hide NamesDiffer, Settled, Shape, Blank, Grown, Definition, TemplateOf, InstanceOf, Filled;
    forall k | k in ks ensures Copies(k.kids) {
      var d := GrownKid(ks, ds, k, rules);
      GrownCopies(k.kids, d.kids, rules);
    }
    GrownKind(ks, ds, rules);
    if HasTemplate(ks) {
      forall i | 0 <= i < |ks| ensures Shape(ks[i].kids) == Shape(ds[0].kids) {
        var d := GrownKid(ks, ds, ks[i], rules);
        OnlyOne(ds, d, rules);
        GrownShape(ks[i].kids, d.kids, rules);
      }
    }
  }

  lemma OnlyOne(ds: seq<Node>, d: Node, rules: Rules)
    requires Definition(ds, rules) && HasTemplate(ds) && d in ds
    ensures d == ds[0]
  {
  }

  lemma {:induction false} GrownSettled(ks: seq<Node>, ds: seq<Node>, rules: Rules)
    requires Definition(ds, rules) && Grown(ks, ds, rules) && Clean(ks)
    ensures Settled(ks)
    decreases ds
  {
    hide NamesDiffer, Blank, Grown, Definition, Fits;
    forall k | k in ks
      ensures k.state != Deleted && !k.isNew && (k.nodeType == Item ==> k.newValue == k.value) && Settled(k.kids)
    {
      var d := GrownKid(ks, ds, k, rules);
      if !k.isTemplate {
        assert CleanNode(k);
        GrownSettled(k.kids, d.kids, rules);
      }
    }
  }

  /** Nothing grown from blocks that print nothing prints anything. */
  lemma {:induction false} BarrenPrints(ks: seq<Node>, ds: seq<Node>, rules: Rules)
    requires Definition(ds, rules) && Grown(ks, ds, rules) && Barren(ds)
    ensures CF.FileOf(ks) == []
    decreases ds
  {
    hide NamesDiffer, Allows, CF.FileOf;
    assert !HasTemplate(ds) by { if ds != [] { assert ds[0] in ds; } }
    forall k | k in ks ensures CF.FileOfNode(k) == [] {
      var i :| 0 <= i < |ks| && ks[i] == k;
      assert Filled(ks[i], ds[i], rules) && ds[i] in ds;
      BarrenPrints(k.kids, ds[i].kids, rules);
    }
    NothingInFile(ks);
  }

  lemma {:induction false} NothingInFile(ks: seq<Node>)
    requires forall k | k in ks :: CF.FileOfNode(k) == []
    ensures CF.FileOf(ks) == []
  {
    hide CF.FileOfNode;
    if ks != [] {
      assert ks[0] in ks;
      NothingInFile(ks[1..]);
    }
  }

  lemma {:induction false} GrownPrintable(ks: seq<Node>, ds: seq<Node>, rules: Rules)
    requires Definition(ds, rules) && Grown(ks, ds, rules) && Clean(ks)
    ensures CF.Printable(ks)
    decreases ds
  {
    hide NamesDiffer, Blank, Grown, Definition, Fits, CF.FileOf, Settled;
    GrownSettled(ks, ds, rules);
    forall k | k in ks && !k.isTemplate
      ensures k.state == Ready && !k.isNew && CF.Printable(k.kids)
      ensures k.isEmpty && k.nodeType == Block ==> CF.FileOf(k.kids) == []
    {
      assert CleanNode(k);
      var d := GrownKid(ks, ds, k, rules);
      GrownPrintable(k.kids, d.kids, rules);
      if k.isEmpty {
        BarrenPrints(k.kids, d.kids, rules);
      }
    }
    SettledItems(ks);
  }

  lemma SettledItems(ks: seq<Node>)
    requires Settled(ks)
    ensures forall k | k in ks && k.nodeType == Item :: k.newValue == k.value
  {
  }

  lemma {:induction false} GrownAccepted(ks: seq<Node>, ds: seq<Node>, rules: Rules)
    requires Definition(ds, rules) && Grown(ks, ds, rules)
    ensures Accepted(ks, rules)
    decreases ds
  {
    hide NamesDiffer, Blank, Grown, Definition, Fits, Settled;
    GrownKind(ks, ds, rules);
    forall k | k in ks
      ensures k.nodeType == Item && k.value != "" ==> Fits(rules, k.typ, k.value)
      ensures !k.isTemplate ==> Accepted(k.kids, rules)
    {
      var d := GrownKid(ks, ds, k, rules);
      if !k.isTemplate {
        GrownAccepted(k.kids, d.kids, rules);
      }
    }
    if HasTemplate(ks) {
      forall i | 0 < i < |ks| ensures Fits(rules, ks[0].typ, ks[i].name) {
        TemplateFirst(ks, i, ds, rules);
        var d := GrownKid(ks, ds, ks[i], rules);
        OnlyOne(ds, d, rules);
      }
    }
  }

  lemma {:induction false} GrownLexable(ks: seq<Node>, ds: seq<Node>, rules: Rules)
    requires Definition(ds, rules) && Grown(ks, ds, rules)
    ensures CF.Lexable(CF.FileOf(ks))
    decreases ds
  {
    hide NamesDiffer, Blank, Grown, Definition, Fits, Settled, CF.FileOf;
    forall f | f in CF.FileOf(ks)
      ensures f.nodeType == Item ==> !CF.IsNumber(f.name) && f.kids == []
      ensures (f.nodeType == Block ==> f.value == "") && CF.Lexable(f.kids)
    {
      var i := FileMember(ks, f);
      var d := GrownKid(ks, ds, ks[i], rules);
      assert f in CF.FileOfNode(ks[i]);
      GrownLexable(ks[i].kids, d.kids, rules);
      GrownKind(ks, ds, rules);
    }
  }

  /** Whatever has happened to a configuration since it was defined, once nothing is pending it is one that can be
      loaded over and saved. */
  lemma SoundAfter(ds: seq<Node>, es: seq<Event>, rules: Rules)
    requires Definition(ds, rules) && Permitted(ds, es, rules) && Clean(History(ds, es, rules))
    ensures var ks := History(ds, es, rules);
            Sound(ks) && Savable(ks, rules) && CF.Lexable(CF.FileOf(ks)) && Shape(ks) == Shape(ds)
  {
    hide Definition, Grown, Permitted, History, InScope, Clean, Settled, AllNamesDiffer, Copies, Accepted, CF.Printable,
         CF.Lexable, Shape;
    var ks := History(ds, es, rules);
    DefinitionGrows(ds, rules);
    HistoryGrows(ds, es, ds, rules);
    GrownInScope(ks, ds, rules);
    GrownNames(ks, ds, rules);
    GrownSettled(ks, ds, rules);
    GrownPrintable(ks, ds, rules);
    GrownCopies(ks, ds, rules);
    GrownAccepted(ks, ds, rules);
    GrownLexable(ks, ds, rules);
    GrownShape(ks, ds, rules);
  }

  /** A commit, and so a discard, leaves nothing pending. */
  lemma CleanAfter(ds: seq<Node>, es: seq<Event>, last: Event, rules: Rules)
    requires Definition(ds, rules) && Permitted(ds, es, rules) && (last == CommitAll || last == DiscardAll)
    ensures Permitted(ds, es + [last], rules)
    ensures History(ds, es + [last], rules) == Happened(History(ds, es, rules), last, rules)
    ensures Clean(History(ds, es + [last], rules))
  {
    hide Definition, Grown, Permitted, History, InScope, Clean;
    var ks := History(ds, es, rules);
    DefinitionGrows(ds, rules);
    HistoryGrows(ds, es, ds, rules);
    GrownInScope(ks, ds, rules);
    CommitShowsPending(ks);
    DiscardIsClean(ks);
    OneMoreEvent(ds, es, last, rules);
  }

  lemma {:induction false} OneMoreEvent(ks: seq<Node>, es: seq<Event>, last: Event, rules: Rules)
    requires Permitted(ks, es, rules) && !last.Act?
    ensures Permitted(ks, es + [last], rules)
    ensures History(ks, es + [last], rules) == Happened(History(ks, es, rules), last, rules)
    decreases |es|
  {
    hide Happened, Allowed;
    var all := es + [last];
    if es == [] {
      assert all[0] == last && all[1..] == [];
    } else {
      assert all[0] == es[0] && all[1..] == es[1..] + [last];
      OneMoreEvent(Happened(ks, es[0], rules), es[1..], last, rules);
    }
  }

  /** From a definition without values, after any history that ends with a commit or a discard: what is printed parses,
      and merges into the bare definition, as a daemon does when it starts, to the same values and instances, but for
      instances that have nothing to print. */
  lemma SavedAfterHistory(ds: seq<Node>, es: seq<Event>, last: Event, committed: bool, rules: Rules)
    requires Definition(ds, rules) && ResetKids(ds) == ds && Permitted(ds, es, rules)
    requires last == CommitAll || last == DiscardAll
    ensures var ks := History(ds, es + [last], rules);
            && CF.ParseDefs(CF.Print(ks, committed)) == CF.Parsed(CF.FileOf(ks), [])
            && var (ks', ok) := MergeKids(ds, CF.FileOf(ks), false, rules);
               ok && ContentOf(ks', false) == ContentOf(ks, true)
  {
    hide Definition, Permitted, History, Clean, Savable, Sound, Blank, MergeKids, ContentOf, CF.Print, CF.ParseDefs,
         CF.FileOf, CF.Lexable, ResetKids;
    var ks := History(ds, es + [last], rules);
    CleanAfter(ds, es, last, rules);
    SoundAfter(ds, es + [last], rules);
    SaveThenLoad(ks, committed, rules);
    DefinitionBlank(ds, rules);
    SameShapeMerges(ds, ResetKids(ks), CF.FileOf(ks), rules);
    BlankMerge(ds, CF.FileOf(ks), rules);
    BlankMerge(ResetKids(ks), CF.FileOf(ks), rules);
  }

  /** And what the next load means to it. */
  lemma LoadedAfterHistory(ds: seq<Node>, es: seq<Event>, last: Event, fs: seq<File>, rules: Rules)
    requires Definition(ds, rules) && Permitted(ds, es, rules) && (last == CommitAll || last == DiscardAll) &&
             Unique(fs)
    requires MergeKids(PrepareKids(History(ds, es + [last], rules)), fs, true, rules).1
    ensures var ks := History(ds, es + [last], rules);
            After(MergeKids(PrepareKids(ks), fs, true, rules).0) == CanonKids(LoadKids(ks, fs))
  {
    hide Definition, Permitted, History, Clean, Savable, Sound, Unique, MergeKids, PrepareKids, After, CanonKids,
         LoadKids;
    CleanAfter(ds, es, last, rules);
    SoundAfter(ds, es + [last], rules);
    LoadMeaning(History(ds, es + [last], rules), fs, rules);
  }

  // ---------------------------------------------------------------- a mark that stays

  function Bare(name: string, isTemplate: bool, kids: seq<Node>): Node {
    Node(name, Block, "", "", "", Ready, isTemplate, false, false, None, kids)
  }

  /** A list whose template has a list inside. */
  function ListInList(): seq<Node> {
    [Bare("node", true, [Bare("nodes", false, [Bare("inner", true, [])])])]
  }

  lemma ListInListDefined(rules: Rules)
    ensures Definition(ListInList(), rules)
  {
    hide NamesDiffer;
    NothingDiffers();
    var inner := Bare("inner", true, []);
    var nodes := Bare("nodes", false, [inner]);
    assert DefinitionNode(inner, rules);
    assert Definition([inner], rules);
    assert DefinitionNode(nodes, rules);
    OneName(nodes);
    assert Definition([nodes], rules);
    assert DefinitionNode(Bare("node", true, [nodes]), rules);
  }

  /** An instance created and committed keeps a template marked MODIFIED inside: the lemmas above cover such trees. */
  lemma MarksStay(name: string, rules: Rules)
    requires Fits(rules, "", name)
    ensures var ds, es := ListInList(), [Act(Command([], AddInstance(name))), CommitAll];
            var ks := History(ds, es, rules);
            && Definition(ds, rules) && Permitted(ds, es, rules) && Clean(ks)
            && |ks| == 2 && |ks[1].kids| == 1 && |ks[1].kids[0].kids| == 1
            && ks[1].kids[0].kids[0].isTemplate && ks[1].kids[0].kids[0].state == Modified
  {
    hide Fits, Definition, Allowed, Clean;
    var ds := ListInList();
    var enter := Act(Command([], AddInstance(name)));
    ListInListDefined(rules);
    AllowedFirst(name, rules);
    var es := [enter, CommitAll];
    assert es == [enter] + [CommitAll] && es[1..] == [CommitAll] && [CommitAll][1..] == [];
    assert [enter][1..] == [];
    assert Permitted(ds, [enter], rules);
    CleanAfter(ds, [enter], CommitAll, rules);
    EnteredThere(name);
    assert History(ds, [enter], rules) == ListInList() + [EnteredInstance(ds[0], name)];
    CommittedThere(name);
  }

  lemma AllowedFirst(name: string, rules: Rules)
    requires Fits(rules, "", name)
    ensures Allowed(ListInList(), [], AddInstance(name), rules)
  {
    assert ListInList()[1..] == [];
  }

  lemma EnteredThere(name: string)
    ensures Edited(ListInList(), [], AddInstance(name)) == ListInList() + [EnteredInstance(ListInList()[0], name)]
  {
  }

  lemma CommittedThere(name: string)
    ensures var ks := CommitKids(ListInList() + [EnteredInstance(ListInList()[0], name)], false);
            && |ks| == 2 && |ks[1].kids| == 1 && |ks[1].kids[0].kids| == 1
            && ks[1].kids[0].kids[0].isTemplate && ks[1].kids[0].kids[0].state == Modified
  {
    var inner := Bare("inner", true, []);
    var nodes := Bare("nodes", false, [inner]);
    var k := EnteredInstance(ListInList()[0], name);
    assert [inner][1..] == [] && [nodes][1..] == [];
    assert CopyKids([inner], Some(Modified)) == [inner.(state := Modified)];
    var n := nodes.(state := Modified, kids := [inner.(state := Modified)]);
    assert k.kids == [n];
    assert [inner.(state := Modified)][1..] == [] && [n][1..] == [] && [k][1..] == [];
    assert CommitKids(n.kids, false) == n.kids;
    assert CommitKids([n], false) == [n.(state := Ready)];
    assert CommitKids([k], false) == [k.(state := Ready, isNew := false, kids := [n.(state := Ready)])];
    var all := ListInList() + [k];
    assert all[1..] == [k];
    assert CommitKids(all, false) == [all[0]] + CommitKids([k], false);
  }
}
