/** copy_nodes, merge and validate, on values (src/config/config.cpp:2125-2148, 2888-3088). */
module ConfigMerge {
  import opened Wrappers
  import opened ConfigTree

  /** Parsed configuration contents, quotes already stripped. */
  datatype File = File(name: string, nodeType: NodeType, value: string, kids: seq<File>)

  /** The pattern table, and the order instances are kept in: how their names and sort values compare. */
  datatype Rules = Rules(hasPattern: string -> bool, matches: (string, string) -> bool,
                         nameLess: (string, string) -> bool, toInt: string -> int)

  predicate Fits(rules: Rules, typ: string, value: string) {
    rules.hasPattern(typ) ==> rules.matches(typ, value)
  }

  // ---------------------------------------------------------------- sorting

  function SortValue(k: Node): Option<string> {
    match k.sortName
    case None => None
    case Some(name) =>
      var i := Find(k.kids, name, 0);
      if i < |k.kids| then Some(k.kids[i].value) else None
  }

  /** The first child from position `from` on that is no template and has this name. */
  function Find(ks: seq<Node>, name: string, from: nat): (i: nat)
    requires from <= |ks|
    ensures from <= i <= |ks| && (i < |ks| ==> ks[i].name == name && !ks[i].isTemplate)
    ensures forall j :: from <= j < i ==> ks[j].name != name || ks[j].isTemplate
    decreases |ks| - from
  {
    if from == |ks| || (ks[from].name == name && !ks[from].isTemplate) then from else Find(ks, name, from + 1)
  }

  function Before(rules: Rules, a: Node, b: Node): bool {
    if SortValue(a).Some? && SortValue(b).Some? then rules.toInt(SortValue(a).value) < rules.toInt(SortValue(b).value)
    else rules.nameLess(a.name, b.name)
  }

  function Insert(rules: Rules, k: Node, ks: seq<Node>): (r: seq<Node>)
    ensures |r| == |ks| + 1
  {
    if ks == [] || Before(rules, k, ks[0]) then [k] + ks else [ks[0]] + Insert(rules, k, ks[1..])
  }

  /** std::sort leaves the order of instances that compare equal open; the model picks one. */
  function Sorted(rules: Rules, ks: seq<Node>): (r: seq<Node>)
    ensures |r| == |ks|
  {
    if ks == [] then [] else Insert(rules, ks[|ks| - 1], Sorted(rules, ks[..|ks| - 1]))
  }

  lemma {:induction false} InsertPermutes(rules: Rules, k: Node, ks: seq<Node>)
    ensures multiset(Insert(rules, k, ks)) == multiset([k] + ks)
  {
    if !(ks == [] || Before(rules, k, ks[0])) {
      InsertPermutes(rules, k, ks[1..]);
      assert ks == [ks[0]] + ks[1..];
    }
  }

  lemma {:induction false} SortedPermutes(rules: Rules, ks: seq<Node>)
    ensures multiset(Sorted(rules, ks)) == multiset(ks)
  {
    hide Insert;
    if ks != [] {
      var front, last := ks[..|ks| - 1], ks[|ks| - 1];
      SortedPermutes(rules, front);
      InsertPermutes(rules, last, Sorted(rules, front));
      LastJoins(front, last, Sorted(rules, front));
      assert ks == front + [last];
    }
  }

  lemma LastJoins(front: seq<Node>, last: Node, sorted: seq<Node>)
    requires multiset(sorted) == multiset(front)
    ensures multiset([last] + sorted) == multiset(front + [last])
  {
  }

  /** The comparison is a strict weak order on these instances, as std::sort asks. */
  ghost predicate Orders(rules: Rules, ks: seq<Node>) {
    && (forall a, b :: a in ks && b in ks && Before(rules, a, b) ==> !Before(rules, b, a))
    && forall a, b, c :: a in ks && b in ks && c in ks && !Before(rules, b, a) && !Before(rules, c, b) ==>
         !Before(rules, c, a)
  }

  ghost predicate Ordered(rules: Rules, ks: seq<Node>) {
    forall i, j :: 0 <= i < j < |ks| ==> !Before(rules, ks[j], ks[i])
  }

  lemma {:induction false} InsertOrdered(rules: Rules, k: Node, ks: seq<Node>)
    requires Ordered(rules, ks) && Orders(rules, [k] + ks)
    ensures Ordered(rules, Insert(rules, k, ks))
  {
    hide Before;
    if ks == [] {
    } else if Before(rules, k, ks[0]) {
      forall j | 0 <= j < |ks| ensures !Before(rules, ks[j], k) {
        assert k in [k] + ks && ks[0] in [k] + ks && ks[j] in [k] + ks;
      }
    } else {
      assert forall n :: n in [k] + ks[1..] ==> n in [k] + ks;
      InsertOrdered(rules, k, ks[1..]);
      InsertPermutes(rules, k, ks[1..]);
      var rest := Insert(rules, k, ks[1..]);
      forall j | 0 <= j < |rest| ensures !Before(rules, rest[j], ks[0]) {
        assert rest[j] in multiset(rest);
        assert rest[j] in [k] + ks[1..];
      }
    }
  }

  /** Sorting puts no instance before one that should precede it. */
  lemma {:induction false} SortedOrders(rules: Rules, ks: seq<Node>)
    requires Orders(rules, ks)
    ensures Ordered(rules, Sorted(rules, ks))
  {
    if ks != [] {
      var front, last := ks[..|ks| - 1], ks[|ks| - 1];
      assert forall n :: n in front ==> n in ks;
      SortedOrders(rules, front);
      SortedPermutes(rules, front);
      forall n | n in [last] + Sorted(rules, front) ensures n in ks {
        if n != last {
          assert n in multiset(Sorted(rules, front));
        }
      }
      InsertOrdered(rules, last, Sorted(rules, front));
    }
  }

  /** Of two sorted instances that both have their sort item, the first child of that name that is no template, the
      earlier one has the lesser number there; of two of which one has none, the earlier has the lesser name. */
  lemma SortedByNumber(rules: Rules, ks: seq<Node>, i: nat, j: nat, a: nat, b: nat)
    requires Orders(rules, ks) && i < j < |ks|
    requires var k := Sorted(rules, ks)[i];
             && a < |k.kids| && k.sortName == Some(k.kids[a].name) && !k.kids[a].isTemplate
             && forall c :: 0 <= c < a ==> k.kids[c].name != k.kids[a].name || k.kids[c].isTemplate
    requires var k := Sorted(rules, ks)[j];
             && b < |k.kids| && k.sortName == Some(k.kids[b].name) && !k.kids[b].isTemplate
             && forall c :: 0 <= c < b ==> k.kids[c].name != k.kids[b].name || k.kids[c].isTemplate
    ensures rules.toInt(Sorted(rules, ks)[i].kids[a].value) <= rules.toInt(Sorted(rules, ks)[j].kids[b].value)
  {
    hide Sorted, Orders;
    SortedOrders(rules, ks);
    var x, y := Sorted(rules, ks)[i], Sorted(rules, ks)[j];
    assert !Before(rules, y, x);
    assert Find(x.kids, x.kids[a].name, 0) == a && Find(y.kids, y.kids[b].name, 0) == b;
  }

  lemma SortedByName(rules: Rules, ks: seq<Node>, i: nat, j: nat)
    requires Orders(rules, ks) && i < j < |ks|
    requires exists k | k in [Sorted(rules, ks)[i], Sorted(rules, ks)[j]] ::
               k.sortName.None? || forall c | c in k.kids :: c.name != k.sortName.value || c.isTemplate
    ensures !rules.nameLess(Sorted(rules, ks)[j].name, Sorted(rules, ks)[i].name)
  {
    hide Sorted, Orders;
    SortedOrders(rules, ks);
    var x, y := Sorted(rules, ks)[i], Sorted(rules, ks)[j];
    assert !Before(rules, y, x);
  }

  // ---------------------------------------------------------------- bags: order does not matter

  /** All that g makes of the nodes, in no order. */
  function Bag<T(==)>(ks: seq<Node>, g: Node -> seq<T>): multiset<T> {
    if ks == [] then multiset{} else multiset(g(ks[0])) + Bag(ks[1..], g)
  }

  lemma {:induction false} BagAppend<T>(a: seq<Node>, b: seq<Node>, g: Node -> seq<T>)
    ensures Bag(a + b, g) == Bag(a, g) + Bag(b, g)
  {
    hide Bag;
    if a == [] {
      assert a + b == b;
      BagUnfolds(a, g);
    } else {
      BagAppend(a[1..], b, g);
      assert (a + b)[0] == a[0] && (a + b)[1..] == a[1..] + b;
      BagUnfolds(a, g);
      BagUnfolds(a + b, g);
      BagsAssociative(multiset(g(a[0])), Bag(a[1..], g), Bag(b, g));
    }
  }

  lemma BagUnfolds<T>(ks: seq<Node>, g: Node -> seq<T>)
    ensures Bag(ks, g) == if ks == [] then multiset{} else multiset(g(ks[0])) + Bag(ks[1..], g)
  {
  }

  lemma BagsAssociative<T>(a: multiset<T>, b: multiset<T>, c: multiset<T>)
    ensures a + (b + c) == a + b + c && a + b == b + a
  {
  }

  lemma {:induction false} BagInsert<T>(rules: Rules, k: Node, ks: seq<Node>, g: Node -> seq<T>)
    ensures Bag(Insert(rules, k, ks), g) == multiset(g(k)) + Bag(ks, g)
  {
    hide Before;
    if ks == [] || Before(rules, k, ks[0]) {
      assert ([k] + ks)[1..] == ks;
    } else {
      BagInsert(rules, k, ks[1..], g);
      assert ([ks[0]] + Insert(rules, k, ks[1..]))[1..] == Insert(rules, k, ks[1..]);
    }
  }

  lemma {:induction false} BagSorted<T>(rules: Rules, ks: seq<Node>, g: Node -> seq<T>)
    ensures Bag(Sorted(rules, ks), g) == Bag(ks, g)
  {
    hide Insert, Bag;
    if ks != [] {
      var front, last := ks[..|ks| - 1], ks[|ks| - 1];
      BagSorted(rules, front, g);
      BagInsert(rules, last, Sorted(rules, front), g);
      BagAppend(front, [last], g);
      BagSingle(last, g);
      assert ks == front + [last];
      BagsAssociative(multiset(g(last)), Bag(front, g), multiset{});
    }
  }

  lemma BagSingle<T>(k: Node, g: Node -> seq<T>)
    ensures Bag([k], g) == multiset(g(k))
  {
    assert [k][1..] == [];
  }

  // ---------------------------------------------------------------- copying a template

  function CopyKids(ks: seq<Node>, state: Option<NodeState>): (r: seq<Node>)
    ensures |r| == |ks|
    decreases ks
  {
    if ks == [] then []
    else
      var k := ks[0];
      [k.(state := if state.Some? then state.value else k.state, isNew := false, kids := CopyKids(k.kids, state))]
      + CopyKids(ks[1..], state)
  }

  lemma {:induction false} CopyAt(ks: seq<Node>, state: Option<NodeState>, i: nat)
    requires i < |ks|
    ensures CopyKids(ks, state)[i]
            == ks[i].(state := if state.Some? then state.value else ks[i].state, isNew := false,
                      kids := CopyKids(ks[i].kids, state))
  {
    if i > 0 {
      CopyAt(ks[1..], state, i - 1);
    }
  }

  /** The instance merge makes from a template. */
  function NewInstance(tmpl: Node, name: string, set': bool): Node {
    Node(name, Block, "", "", "", if set' then Modified else Ready, false, tmpl.isEmpty, set', tmpl.sortName,
         CopyKids(tmpl.kids, None))
  }

  // ---------------------------------------------------------------- merge

  /** The children of a definition after merging the contents fs, and whether merge succeeded; a failed merge
      leaves what it had done so far.  With set' the values are only pending. */
  function MergeKids(ks: seq<Node>, fs: seq<File>, set': bool, rules: Rules): (seq<Node>, bool)
    decreases fs, 1
  {
    if fs == [] then (ks, true)
    else
      var (ks', ok) := MergeOne(ks, fs[0], set', rules);
      if ok then MergeKids(ks', fs[1..], set', rules) else (ks', false)
  }

  function MergeOne(ks: seq<Node>, f: File, set': bool, rules: Rules): (seq<Node>, bool)
    decreases f, 0
  {
    if HasTemplate(ks) then MergeInstance(ks, f, set', rules)
    else
      var j := Find(ks, f.name, 0);
      if j == |ks| || (f.nodeType == Item && !Fits(rules, ks[j].typ, f.value)) then (ks, false)
      else
        var d := if f.nodeType == Item then Assigned(ks[j], f.value, set') else ks[j];
        var (kids, ok) := MergeKids(d.kids, f.kids, set', rules);
        (ks[j := d.(kids := kids)], ok)
  }

  function Assigned(d: Node, value: string, set': bool): Node {
    d.(value := if set' then d.value else value, newValue := value, state := if set' then Modified else d.state)
  }

  function MergeInstance(ks: seq<Node>, f: File, set': bool, rules: Rules): (seq<Node>, bool)
    requires HasTemplate(ks)
    decreases f, 0, 0
  {
    if f.nodeType == Item || !Fits(rules, ks[0].typ, f.name) then (ks, false)
    else
      var j := if set' then FindInstance(ks, f.name, 1) else |ks|;
      if j < |ks| then
        var d := ks[j].(state := Modified, isNew := false);
        var (kids, ok) := MergeKids(d.kids, f.kids, set', rules);
        (ks[j := d.(kids := kids)], ok)
      else
        var d := NewInstance(ks[0], f.name, set');
        var (kids, ok) := MergeKids(d.kids, f.kids, set', rules);
        if !ok then (ks, false) else (WithInstance(ks, d.(kids := kids), rules), true)
  }

  /** Instances of a list (marked empty) stay in the order they came. */
  function WithInstance(ks: seq<Node>, k: Node, rules: Rules): seq<Node>
    requires HasTemplate(ks)
  {
    if k.isEmpty then ks + [k] else [ks[0]] + Sorted(rules, ks[1..] + [k])
  }

  /** The first instance with this name. */
  function FindInstance(ks: seq<Node>, name: string, from: nat): (i: nat)
    requires from <= |ks|
    ensures from <= i <= |ks| && (i < |ks| ==> ks[i].name == name)
    ensures forall j :: from <= j < i ==> ks[j].name != name
    decreases |ks| - from
  {
    if from == |ks| || ks[from].name == name then from else FindInstance(ks, name, from + 1)
  }

  // ---------------------------------------------------------------- validate

  function Validate(ks: seq<Node>, fs: seq<File>, rules: Rules): bool
    decreases fs, 1
  {
    fs == [] || (ValidateOne(ks, fs[0], rules) && Validate(ks, fs[1..], rules))
  }

  function ValidateOne(ks: seq<Node>, f: File, rules: Rules): bool
    decreases f, 0
  {
    if HasTemplate(ks) then f.nodeType == Block && Validate(CopyKids(ks[0].kids, None), f.kids, rules)
    else
      var j := Find(ks, f.name, 0);
      j < |ks| && (f.nodeType == Item ==> Fits(rules, ks[j].typ, f.value)) && Validate(ks[j].kids, f.kids, rules)
  }

  // ---------------------------------------------------------------- what both depend on

  /** The part of a definition that no merge changes: the template of a list, the named children of any other block. */
  datatype Skeleton = Listed(typ: string, inside: Skeleton) | Fixed(fields: seq<Field>)
  datatype Field = Field(name: string, typ: string, inside: Skeleton)

  function SkeletonOf(ks: seq<Node>): Skeleton
    decreases ks, 1
  {
    if HasTemplate(ks) then
      assert ks[0] in ks;
      Listed(ks[0].typ, SkeletonOf(ks[0].kids))
    else Fixed(FieldsOf(ks))
  }

  function FieldsOf(ks: seq<Node>): (r: seq<Field>)
    ensures |r| == |ks|
    decreases ks, 0
  {
    if ks == [] then [] else [Field(ks[0].name, ks[0].typ, SkeletonOf(ks[0].kids))] + FieldsOf(ks[1..])
  }

  lemma {:induction false} FieldAt(ks: seq<Node>, i: nat)
    requires i < |ks|
    ensures FieldsOf(ks)[i] == Field(ks[i].name, ks[i].typ, SkeletonOf(ks[i].kids))
  {
    if i > 0 {
      FieldAt(ks[1..], i - 1);
    }
  }

  function FindField(fields: seq<Field>, name: string, from: nat): (i: nat)
    requires from <= |fields|
    ensures from <= i <= |fields| && (i < |fields| ==> fields[i].name == name)
    ensures forall j :: from <= j < i ==> fields[j].name != name
    decreases |fields| - from
  {
    if from == |fields| || fields[from].name == name then from else FindField(fields, name, from + 1)
  }

  /** validate, as a question to the skeleton alone. */
  function Accepts(sk: Skeleton, fs: seq<File>, rules: Rules): bool
    decreases fs, 1
  {
    fs == [] || (AcceptsOne(sk, fs[0], rules) && Accepts(sk, fs[1..], rules))
  }

  function AcceptsOne(sk: Skeleton, f: File, rules: Rules): bool
    decreases f, 0
  {
    match sk
    case Listed(_, inside) => f.nodeType == Block && Accepts(inside, f.kids, rules)
    case Fixed(fields) =>
      var j := FindField(fields, f.name, 0);
      && j < |fields| && (f.nodeType == Item ==> Fits(rules, fields[j].typ, f.value))
      && Accepts(fields[j].inside, f.kids, rules)
  }

  /** What merge checks and validate does not: the names of instances. */
  function NamesFit(sk: Skeleton, fs: seq<File>, rules: Rules): bool
    decreases fs, 1
  {
    fs == [] || (NameFits(sk, fs[0], rules) && NamesFit(sk, fs[1..], rules))
  }

  function NameFits(sk: Skeleton, f: File, rules: Rules): bool
    decreases f, 0
  {
    match sk
    case Listed(typ, inside) => Fits(rules, typ, f.name) && NamesFit(inside, f.kids, rules)
    case Fixed(fields) =>
      var j := FindField(fields, f.name, 0);
      j < |fields| ==> NamesFit(fields[j].inside, f.kids, rules)
  }

  /** Instances have the shape of their template, at every depth. */
  predicate Conforms(ks: seq<Node>)
    decreases ks
  {
    && (forall i :: 0 < i < |ks| ==> !ks[i].isTemplate)
    && (HasTemplate(ks) ==> forall i :: 0 < i < |ks| ==> SkeletonOf(ks[i].kids) == SkeletonOf(ks[0].kids))
    && forall k | k in ks :: Conforms(k.kids)
  }

  lemma FindIsFindField(ks: seq<Node>, name: string, from: nat)
    requires from <= |ks| && (forall i :: 0 <= i < |ks| ==> !ks[i].isTemplate)
    ensures Find(ks, name, from) == FindField(FieldsOf(ks), name, from)
    decreases |ks| - from
  {
    if from < |ks| {
      FieldAt(ks, from);
      FindIsFindField(ks, name, from + 1);
    }
  }

  lemma {:induction false} CopyKeepsSkeleton(ks: seq<Node>, state: Option<NodeState>)
    ensures SkeletonOf(CopyKids(ks, state)) == SkeletonOf(ks) && FieldsOf(CopyKids(ks, state)) == FieldsOf(ks)
    decreases ks
  {
    if ks != [] {
      CopyKeepsSkeleton(ks[0].kids, state);
      CopyKeepsSkeleton(ks[1..], state);
      assert CopyKids(ks, state)[1..] == CopyKids(ks[1..], state);
    }
  }

  lemma {:induction false} CopyConforms(ks: seq<Node>, state: Option<NodeState>)
    requires Conforms(ks)
    ensures Conforms(CopyKids(ks, state))
    decreases ks
  {
    var c := CopyKids(ks, state);
    forall i | 0 <= i < |ks|
      ensures SkeletonOf(c[i].kids) == SkeletonOf(ks[i].kids) && Conforms(c[i].kids) &&
              c[i].isTemplate == ks[i].isTemplate
    {
      CopyAt(ks, state, i);
      CopyKeepsSkeleton(ks[i].kids, state);
      assert ks[i] in ks;
      CopyConforms(ks[i].kids, state);
    }
  }

  /** validate asks nothing but the skeleton. */
  lemma {:induction false} ValidateAsksSkeleton(ks: seq<Node>, fs: seq<File>, rules: Rules)
    requires Conforms(ks)
    ensures Validate(ks, fs, rules) == Accepts(SkeletonOf(ks), fs, rules)
    decreases fs, 1
  {
    if fs != [] {
      ValidateOneAsksSkeleton(ks, fs[0], rules);
      ValidateAsksSkeleton(ks, fs[1..], rules);
    }
  }

  lemma {:induction false} ValidateOneAsksSkeleton(ks: seq<Node>, f: File, rules: Rules)
    requires Conforms(ks)
    ensures ValidateOne(ks, f, rules) == AcceptsOne(SkeletonOf(ks), f, rules)
    decreases f, 0
  {
    if HasTemplate(ks) {
      assert ks[0] in ks;
      CopyConforms(ks[0].kids, None);
      CopyKeepsSkeleton(ks[0].kids, None);
      ValidateAsksSkeleton(CopyKids(ks[0].kids, None), f.kids, rules);
    } else {
      FindIsFindField(ks, f.name, 0);
      var j := Find(ks, f.name, 0);
      if j < |ks| {
        FieldAt(ks, j);
        assert ks[j] in ks;
        ValidateAsksSkeleton(ks[j].kids, f.kids, rules);
      }
    }
  }

  lemma UpdateKeepsShape(ks: seq<Node>, j: nat, k: Node)
    requires j < |ks| && Conforms(ks) && Conforms(k.kids) && !k.isTemplate && !ks[j].isTemplate
    requires k.name == ks[j].name && k.typ == ks[j].typ && SkeletonOf(k.kids) == SkeletonOf(ks[j].kids)
    ensures Conforms(ks[j := k]) && SkeletonOf(ks[j := k]) == SkeletonOf(ks)
  {
    hide FieldsOf;
    var ks' := ks[j := k];
    assert forall i :: 0 <= i < |ks| ==> SkeletonOf(ks'[i].kids) == SkeletonOf(ks[i].kids) by {
      hide SkeletonOf;
    }
    UpdateKeepsFields(ks, j, k);
  }

  lemma UpdateKeepsFields(ks: seq<Node>, j: nat, k: Node)
    requires j < |ks| && k.name == ks[j].name && k.typ == ks[j].typ && SkeletonOf(k.kids) == SkeletonOf(ks[j].kids)
    ensures FieldsOf(ks[j := k]) == FieldsOf(ks)
  {
    hide FieldsOf, SkeletonOf;
    forall i | 0 <= i < |ks| ensures FieldsOf(ks[j := k])[i] == FieldsOf(ks)[i] {
      FieldAt(ks, i);
      FieldAt(ks[j := k], i);
    }
  }

  /** An added instance keeps the template first.  A list, marked empty, keeps the order of its instances and takes it
      at the end; any other takes it where its order says (`SortedByNumber`, `SortedByName`). */
  lemma WithInstanceOrdered(ks: seq<Node>, k: Node, rules: Rules)
    requires HasTemplate(ks) && Orders(rules, ks[1..] + [k])
    ensures var r := WithInstance(ks, k, rules);
            && |r| == |ks| + 1 && r[0] == ks[0] && multiset(r[1..]) == multiset(ks[1..] + [k])
            && (k.isEmpty ==> r == ks + [k])
            && (!k.isEmpty ==> forall i, j :: 1 <= i < j < |r| ==> !Before(rules, r[j], r[i]))
  {
    hide Sorted, Orders, Before;
    var all := ks[1..] + [k];
    SortedOrders(rules, all);
    SortedPermutes(rules, all);
    assert (ks + [k])[1..] == all;
    var r := WithInstance(ks, k, rules);
    if !k.isEmpty {
      assert r[1..] == Sorted(rules, all);
    }
  }

  lemma WithInstanceConforms(ks: seq<Node>, k: Node, rules: Rules)
    requires HasTemplate(ks) && Conforms(ks) && Conforms(k.kids) && !k.isTemplate &&
             SkeletonOf(k.kids) == SkeletonOf(ks[0].kids)
    ensures Conforms(WithInstance(ks, k, rules)) && SkeletonOf(WithInstance(ks, k, rules)) == SkeletonOf(ks)
  {
    var ks', all := WithInstance(ks, k, rules), ks + [k];
    SortedPermutes(rules, ks[1..] + [k]);
    forall i | 0 < i < |ks'| ensures ks'[i] in ks[1..] + [k] {
      if !k.isEmpty {
        assert ks'[i] == Sorted(rules, ks[1..] + [k])[i - 1];
        assert ks'[i] in multiset(Sorted(rules, ks[1..] + [k]));
      }
    }
    forall i | 0 < i < |ks'|
      ensures !ks'[i].isTemplate && SkeletonOf(ks'[i].kids) == SkeletonOf(ks[0].kids) && Conforms(ks'[i].kids)
    {
      if ks'[i] != k {
        assert ks'[i] in ks;
        var j :| 0 < j < |ks| && ks[j] == ks'[i];
      }
    }
  }

  // ---------------------------------------------------------------- when merge succeeds

  /** merge succeeds exactly when the skeleton accepts the contents and every instance name fits its pattern, and
      keeps the skeleton.  With set' it may go into existing instances, which must then have the shape of their
      template. */
  lemma {:induction false} MergeSucceedsIff(ks: seq<Node>, fs: seq<File>, set': bool, rules: Rules)
    requires Conforms(ks)
    ensures var (ks', ok) := MergeKids(ks, fs, set', rules);
            && (ok <==> Accepts(SkeletonOf(ks), fs, rules) && NamesFit(SkeletonOf(ks), fs, rules))
            && Conforms(ks') && SkeletonOf(ks') == SkeletonOf(ks)
    decreases fs, 1
  {
    hide Conforms, SkeletonOf, MergeOne, AcceptsOne, NameFits;
    if fs != [] {
      MergeOneSucceedsIff(ks, fs[0], set', rules);
      MergeSucceedsIff(MergeOne(ks, fs[0], set', rules).0, fs[1..], set', rules);
    }
  }

  lemma {:induction false} MergeOneSucceedsIff(ks: seq<Node>, f: File, set': bool, rules: Rules)
    requires Conforms(ks)
    ensures var (ks', ok) := MergeOne(ks, f, set', rules);
            && (ok <==> AcceptsOne(SkeletonOf(ks), f, rules) && NameFits(SkeletonOf(ks), f, rules))
            && Conforms(ks') && SkeletonOf(ks') == SkeletonOf(ks)
    decreases f, 0
  {
    if HasTemplate(ks) {
      MergeInstanceSucceedsIff(ks, f, set', rules);
    } else {
      FindIsFindField(ks, f.name, 0);
      var j := Find(ks, f.name, 0);
      if j < |ks| {
        FieldAt(ks, j);
        assert ks[j] in ks;
        var d := if f.nodeType == Item then Assigned(ks[j], f.value, set') else ks[j];
        MergeSucceedsIff(d.kids, f.kids, set', rules);
        UpdateKeepsShape(ks, j, d.(kids := MergeKids(d.kids, f.kids, set', rules).0));
      }
    }
  }

  lemma {:induction false} MergeInstanceSucceedsIff(ks: seq<Node>, f: File, set': bool, rules: Rules)
    requires HasTemplate(ks) && Conforms(ks)
    ensures var (ks', ok) := MergeInstance(ks, f, set', rules);
            && (ok <==> AcceptsOne(SkeletonOf(ks), f, rules) && NameFits(SkeletonOf(ks), f, rules))
            && Conforms(ks') && SkeletonOf(ks') == SkeletonOf(ks)
    decreases f, 0, 0
  {
    hide MergeKids, WithInstance, CopyKids, Fits, Accepts, NamesFit;
    if f.nodeType == Block && Fits(rules, ks[0].typ, f.name) {
      var j := if set' then FindInstance(ks, f.name, 1) else |ks|;
      if j < |ks| {
        assert ks[j] in ks;
        var d := ks[j].(state := Modified, isNew := false);
        MergeSucceedsIff(d.kids, f.kids, set', rules);
        UpdateKeepsShape(ks, j, d.(kids := MergeKids(d.kids, f.kids, set', rules).0));
      } else {
        var d := NewInstance(ks[0], f.name, set');
        assert ks[0] in ks;
        CopyConforms(ks[0].kids, None);
        CopyKeepsSkeleton(ks[0].kids, None);
        MergeSucceedsIff(d.kids, f.kids, set', rules);
        WithInstanceConforms(ks, d.(kids := MergeKids(d.kids, f.kids, set', rules).0), rules);
      }
    }
  }

  /** merge and validate agree, up to the names of instances. */
  lemma MergeAgreesWithValidate(ks: seq<Node>, fs: seq<File>, set': bool, rules: Rules)
    requires Conforms(ks)
    ensures MergeKids(ks, fs, set', rules).1 <==> Validate(ks, fs, rules) && NamesFit(SkeletonOf(ks), fs, rules)
  {
    ValidateAsksSkeleton(ks, fs, rules);
    MergeSucceedsIff(ks, fs, set', rules);
  }

  // ---------------------------------------------------------------- what accepted contents look like

  /** p leads to a node of the contents: which child to take, at each step. */
  predicate InFile(fs: seq<File>, p: seq<nat>)
    decreases p
  {
    p != [] && p[0] < |fs| && (|p| > 1 ==> InFile(fs[p[0]].kids, p[1..]))
  }

  function FileAt(fs: seq<File>, p: seq<nat>): File
    requires InFile(fs, p)
    decreases p
  {
    if |p| == 1 then fs[p[0]] else FileAt(fs[p[0]].kids, p[1..])
  }

  /** The definition of the node at p: on its way down a list gives its template, any other block the child of that
      name. */
  function DefinitionOf(ks: seq<Node>, fs: seq<File>, p: seq<nat>): Option<Node>
    requires InFile(fs, p)
    decreases p
  {
    var f := fs[p[0]];
    var j := if HasTemplate(ks) then 0 else Find(ks, f.name, 0);
    if j == |ks| then None else if |p| == 1 then Some(ks[j]) else DefinitionOf(ks[j].kids, f.kids, p[1..])
  }

  predicate ContentFits(ks: seq<Node>, fs: seq<File>, rules: Rules, p: seq<nat>)
    requires InFile(fs, p)
  {
    var (f, d) := (FileAt(fs, p), DefinitionOf(ks, fs, p));
    && d.Some?
    && (f.nodeType == Item ==>
          !d.value.isTemplate && (rules.hasPattern(d.value.typ) ==> rules.matches(d.value.typ, f.value)))
  }

  predicate InstanceFits(ks: seq<Node>, fs: seq<File>, rules: Rules, p: seq<nat>)
    requires InFile(fs, p)
  {
    var (f, d) := (FileAt(fs, p), DefinitionOf(ks, fs, p));
    d.Some? && d.value.isTemplate && rules.hasPattern(d.value.typ) ==> rules.matches(d.value.typ, f.name)
  }

  /** validate accepts contents if and only if every node in them is defined, every item is defined as an item and no
      item's value misses the pattern of its type. */
  lemma ValidateMeans(ks: seq<Node>, fs: seq<File>, rules: Rules)
    requires Conforms(ks)
    ensures Validate(ks, fs, rules) <==>
            forall p | InFile(fs, p) ::
              var (f, d) := (FileAt(fs, p), DefinitionOf(ks, fs, p));
              && d.Some?
              && (f.nodeType == Item ==>
                    !d.value.isTemplate && (rules.hasPattern(d.value.typ) ==> rules.matches(d.value.typ, f.value)))
  {
    ValidateAsksSkeleton(ks, fs, rules);
    AcceptsMeans(ks, fs, rules);
    assert forall p | InFile(fs, p) ::
        var (f, d) := (FileAt(fs, p), DefinitionOf(ks, fs, p));
        ContentFits(ks, fs, rules, p) ==
        (&& d.Some?
         && (f.nodeType == Item ==>
               !d.value.isTemplate && (rules.hasPattern(d.value.typ) ==> rules.matches(d.value.typ, f.value))));
  }

  /** merge succeeds if and only if, besides, no instance has a name that misses the pattern of its template. */
  lemma MergeMeans(ks: seq<Node>, fs: seq<File>, set': bool, rules: Rules)
    requires Conforms(ks)
    ensures MergeKids(ks, fs, set', rules).1 <==>
            forall p | InFile(fs, p) ::
              var (f, d) := (FileAt(fs, p), DefinitionOf(ks, fs, p));
              && d.Some?
              && (f.nodeType == Item ==>
                    !d.value.isTemplate && (rules.hasPattern(d.value.typ) ==> rules.matches(d.value.typ, f.value)))
              && (d.value.isTemplate && rules.hasPattern(d.value.typ) ==> rules.matches(d.value.typ, f.name))
  {
    MergeSucceedsIff(ks, fs, set', rules);
    AcceptsMeans(ks, fs, rules);
    NamesFitMeans(ks, fs, rules);
    assert forall p | InFile(fs, p) ::
        var (f, d) := (FileAt(fs, p), DefinitionOf(ks, fs, p));
        (ContentFits(ks, fs, rules, p) && InstanceFits(ks, fs, rules, p)) ==
        (&& d.Some?
         && (f.nodeType == Item ==>
               !d.value.isTemplate && (rules.hasPattern(d.value.typ) ==> rules.matches(d.value.typ, f.value)))
         && (d.value.isTemplate && rules.hasPattern(d.value.typ) ==> rules.matches(d.value.typ, f.name)));
  }

  /** The nodes of the contents are the first, those inside it, and those of the rest. */
  lemma PathSplit(ks: seq<Node>, fs: seq<File>, p: seq<nat>)
    requires fs != [] && p != []
    ensures p[0] > 0 ==>
              var q := [p[0] - 1] + p[1..];
              && (InFile(fs, p) <==> InFile(fs[1..], q))
              && (InFile(fs, p) ==>
                    FileAt(fs, p) == FileAt(fs[1..], q) && DefinitionOf(ks, fs, p) == DefinitionOf(ks, fs[1..], q))
    ensures p[0] == 0 && |p| > 1 ==>
              var j := if HasTemplate(ks) then 0 else Find(ks, fs[0].name, 0);
              && (InFile(fs, p) <==> InFile(fs[0].kids, p[1..]))
              && (InFile(fs, p) && j < |ks| ==>
                    && FileAt(fs, p) == FileAt(fs[0].kids, p[1..])
                    && DefinitionOf(ks, fs, p) == DefinitionOf(ks[j].kids, fs[0].kids, p[1..]))
  {
    if p[0] > 0 {
      var q := [p[0] - 1] + p[1..];
      assert q[1..] == p[1..];
      assert p[0] < |fs| ==> fs[p[0]] == fs[1..][q[0]];
    }
  }

  /** The same, from the first node and the rest to the whole. */
  lemma PathBack(ks: seq<Node>, fs: seq<File>, q: seq<nat>)
    requires fs != [] && q != []
    ensures InFile(fs[1..], q) ==>
              var p := [q[0] + 1] + q[1..];
              && InFile(fs, p) && FileAt(fs, p) == FileAt(fs[1..], q)
              && DefinitionOf(ks, fs, p) == DefinitionOf(ks, fs[1..], q)
    ensures InFile(fs[0].kids, q) ==>
              var j := if HasTemplate(ks) then 0 else Find(ks, fs[0].name, 0);
              && InFile(fs, [0] + q)
              && (j < |ks| ==>
                    && FileAt(fs, [0] + q) == FileAt(fs[0].kids, q)
                    && DefinitionOf(ks, fs, [0] + q) == DefinitionOf(ks[j].kids, fs[0].kids, q))
  {
    var p := [q[0] + 1] + q[1..];
    PathSplit(ks, fs, p);
    assert [p[0] - 1] + p[1..] == q;
    PathSplit(ks, fs, [0] + q);
    assert ([0] + q)[1..] == q;
  }

  lemma {:induction false} AcceptsMeans(ks: seq<Node>, fs: seq<File>, rules: Rules)
    requires Conforms(ks)
    ensures Accepts(SkeletonOf(ks), fs, rules) <==> forall p | InFile(fs, p) :: ContentFits(ks, fs, rules, p)
    decreases fs
  {
    hide Conforms, SkeletonOf, AcceptsOne;
    if fs != [] {
      var f, rest := fs[0], fs[1..];
      AcceptsMeans(ks, rest, rules);
      AcceptsOneMeans(ks, fs, rules);
      var j := if HasTemplate(ks) then 0 else Find(ks, f.name, 0);
      if j < |ks| {
        ChildConforms(ks, j);
        AcceptsMeans(ks[j].kids, f.kids, rules);
      }
      if Accepts(SkeletonOf(ks), fs, rules) {
        forall p | InFile(fs, p) ensures ContentFits(ks, fs, rules, p) {
          PathSplit(ks, fs, p);
          assert |p| == 1 && p[0] == 0 ==> p == [0];
        }
      } else if !Accepts(SkeletonOf(ks), rest, rules) {
        var q :| InFile(rest, q) && !ContentFits(ks, rest, rules, q);
        PathBack(ks, fs, q);
        assert !ContentFits(ks, fs, rules, [q[0] + 1] + q[1..]);
      } else if ContentFits(ks, fs, rules, [0]) {
        var q :| InFile(f.kids, q) && !ContentFits(ks[j].kids, f.kids, rules, q);
        PathBack(ks, fs, q);
        assert !ContentFits(ks, fs, rules, [0] + q);
      }
    }
  }

  lemma ChildConforms(ks: seq<Node>, j: nat)
    requires Conforms(ks) && j < |ks|
    ensures Conforms(ks[j].kids)
  {
    assert ks[j] in ks;
  }

  lemma AcceptsOneMeans(ks: seq<Node>, fs: seq<File>, rules: Rules)
    requires Conforms(ks) && fs != []
    ensures InFile(fs, [0])
    ensures var j := if HasTemplate(ks) then 0 else Find(ks, fs[0].name, 0);
            && (ContentFits(ks, fs, rules, [0]) ==> j < |ks|)
            && (AcceptsOne(SkeletonOf(ks), fs[0], rules) <==>
                  ContentFits(ks, fs, rules, [0]) && Accepts(SkeletonOf(ks[j].kids), fs[0].kids, rules))
            && (NameFits(SkeletonOf(ks), fs[0], rules) <==>
                  InstanceFits(ks, fs, rules, [0])
                  && (j < |ks| ==> NamesFit(SkeletonOf(ks[j].kids), fs[0].kids, rules)))
  {
    if !HasTemplate(ks) {
      FindIsFindField(ks, fs[0].name, 0);
      var j := Find(ks, fs[0].name, 0);
      if j < |ks| {
        FieldAt(ks, j);
      }
    }
  }

  lemma {:induction false} NamesFitMeans(ks: seq<Node>, fs: seq<File>, rules: Rules)
    requires Conforms(ks)
    ensures NamesFit(SkeletonOf(ks), fs, rules) <==> forall p | InFile(fs, p) :: InstanceFits(ks, fs, rules, p)
    decreases fs
  {
    hide Conforms, SkeletonOf, NameFits;
    if fs != [] {
      var f, rest := fs[0], fs[1..];
      NamesFitMeans(ks, rest, rules);
      AcceptsOneMeans(ks, fs, rules);
      var j := if HasTemplate(ks) then 0 else Find(ks, f.name, 0);
      if j < |ks| {
        ChildConforms(ks, j);
        NamesFitMeans(ks[j].kids, f.kids, rules);
      }
      if NamesFit(SkeletonOf(ks), fs, rules) {
        forall p | InFile(fs, p) ensures InstanceFits(ks, fs, rules, p) {
          PathSplit(ks, fs, p);
          assert |p| == 1 && p[0] == 0 ==> p == [0];
        }
      } else if !NamesFit(SkeletonOf(ks), rest, rules) {
        var q :| InFile(rest, q) && !InstanceFits(ks, rest, rules, q);
        PathBack(ks, fs, q);
        assert !InstanceFits(ks, fs, rules, [q[0] + 1] + q[1..]);
      } else if InstanceFits(ks, fs, rules, [0]) {
        var q :| InFile(f.kids, q) && !InstanceFits(ks[j].kids, f.kids, rules, q);
        PathBack(ks, fs, q);
        assert !InstanceFits(ks, fs, rules, [0] + q);
      }
    }
  }
}
