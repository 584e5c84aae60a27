/** The contents a client sees: which paths are blocks and which are items, with their values. A whole update, both
    passes and the clean-up included, does to them exactly what writing the listed changes in order does
    (src/config/config_r14p.cpp:187-269). */
module ConfigContents {
  import opened ConfigTree
  import opened ConfigPaths
  import opened ConfigChanges

  datatype Content = Folder | Leaf(value: string)

  type Contents = imap<Path, Content>

  ghost function ContentsOf(v: Nodes): Contents {
    imap p: Path | p in v :: if v[p].nodeType == Item then Leaf(v[p].value) else Folder
  }

  function Final(c: Change): string {
    if c.state == Deleted then "" else c.value
  }

  /** Writing a change: an item, there or to be, takes the value, empty for a deletion; a block is made if missing, and
      a deletion of a block takes its whole subtree; missing blocks above are made; nothing else changes. */
  ghost function Written(m: Contents, c: Change): Contents {
    if c.path == [] then m
    else if (if c.path in m then m[c.path] != Folder else c.nodeType == Item) then
      imap p: Path | p in m || (p != [] && p <= c.path) ::
        if p == c.path then Leaf(Final(c)) else if p in m then m[p] else Folder
    else
      imap p: Path | (p in m || (p != [] && p <= c.path)) && (c.state == Deleted ==> !(c.path <= p)) ::
        if p in m then m[p] else Folder
  }

  ghost function WrittenAll(m: Contents, cs: seq<Change>): Contents {
    if cs == [] then m else Written(WrittenAll(m, cs[..|cs| - 1]), cs[|cs| - 1])
  }

  /** The apply loop over the nodes writes the changes into the contents. */
  lemma {:induction false} AppliedWrites(v: Nodes, cs: seq<Change>, root: Root)
    ensures ContentsOf(AppliedAll(v, cs, root)) == WrittenAll(ContentsOf(v), cs)
  {
    if cs != [] {
      AppliedWrites(v, cs[..|cs| - 1], root);
      OneWritten(AppliedAll(v, cs[..|cs| - 1], root), cs[|cs| - 1], root);
    }
  }

  lemma OneWritten(v: Nodes, c: Change, root: Root)
    ensures ContentsOf(Applied(v, c, root)) == Written(ContentsOf(v), c)
  {
    hide Created;
    if c.path != [] {
      MadeContents(v, c, root);
      var w, m := Created(v, c, root), ContentsOf(v);
      if w[c.path].nodeType == Item {
        ItemWritten(w, m, c);
      } else if c.state == Deleted {
        BlockWritten(w, m, c);
      }
    }
  }

  /** What creating a path does to the contents. */
  ghost function Made(m: Contents, c: Change): Contents {
    imap p: Path | p in m || (p != [] && p <= c.path) ::
      if p in m then m[p] else if p == c.path && c.nodeType == Item then Leaf("") else Folder
  }

  lemma MadeContents(v: Nodes, c: Change, root: Root)
    ensures ContentsOf(Created(v, c, root)) == Made(ContentsOf(v), c)
    ensures c.path != [] ==> c.path in Created(v, c, root)
  {
    hide NearestIn;
  }

  lemma ItemWritten(w: Nodes, m: Contents, c: Change)
    requires c.path != [] && ContentsOf(w) == Made(m, c) && c.path in w && w[c.path].nodeType == Item
    ensures ContentsOf(w[c.path := w[c.path].(value := Final(c))]) == Written(m, c)
  {
    var a, b := ContentsOf(w[c.path := w[c.path].(value := Final(c))]), Written(m, c);
    assert Made(m, c)[c.path].Leaf?;
    forall p
      ensures p in a <==> p in b
      ensures p in a ==> a[p] == b[p]
    {
      assert p in w <==> p in Made(m, c);
      assert p in w ==> ContentsOf(w)[p] == Made(m, c)[p];
    }
  }

  lemma BlockWritten(w: Nodes, m: Contents, c: Change)
    requires c.path != [] && c.state == Deleted
    requires ContentsOf(w) == Made(m, c) && c.path in w && w[c.path].nodeType == Block
    ensures ContentsOf(imap p: Path | p in w && !(c.path <= p) :: w[p]) == Written(m, c)
  {
    var a, b := ContentsOf(imap p: Path | p in w && !(c.path <= p) :: w[p]), Written(m, c);
    assert Made(m, c)[c.path] == Folder;
    forall p
      ensures p in a <==> p in b
      ensures p in a ==> a[p] == b[p]
    {
      assert p in w <==> p in Made(m, c);
      assert p in w ==> ContentsOf(w)[p] == Made(m, c)[p];
    }
  }

  /** The same paths and kinds, and the same values but for items in `open`. */
  ghost predicate Alike(m: Contents, n: Contents, open: iset<Path>) {
    && (forall p :: p in m <==> p in n)
    && forall p :: p in m ==> m[p] == n[p] || (m[p].Leaf? && n[p].Leaf? && p in open)
  }

  /** Writing makes listed items alike, whatever they held. */
  lemma {:induction false} WritingSettles(m: Contents, n: Contents, cs: seq<Change>, open: iset<Path>)
    requires Alike(m, n, open) && [] !in m
    ensures [] !in WrittenAll(m, cs)
    ensures Alike(WrittenAll(m, cs), WrittenAll(n, cs), iset p | p in open && Times(cs, p) == 0)
  {
    if cs != [] {
      var c, init := cs[|cs| - 1], cs[..|cs| - 1];
      WritingSettles(m, n, init, open);
      OneSettles(WrittenAll(m, init), WrittenAll(n, init), c, iset p | p in open && Times(init, p) == 0,
                 iset p | p in open && Times(cs, p) == 0);
    }
  }

  lemma OneSettles(m: Contents, n: Contents, c: Change, open: iset<Path>, left: iset<Path>)
    requires Alike(m, n, open) && [] !in m
    requires forall p :: p in open && p != c.path ==> p in left
    ensures [] !in Written(m, c)
    ensures Alike(Written(m, c), Written(n, c), left)
  {
    assert c.path in m ==> c.path in n && (m[c.path] == Folder <==> n[c.path] == Folder);
  }

  /** The value of the last change listed for p, or `value` when there is none. */
  function LastValue(cs: seq<Change>, p: Path, value: string): string {
    if cs == [] then value
    else if cs[|cs| - 1].path == p then Final(cs[|cs| - 1])
    else LastValue(cs[..|cs| - 1], p, value)
  }

  /** An item there after the writing holds the value of the last change listed for it. */
  lemma {:induction false} HoldsLast(m: Contents, cs: seq<Change>, p: Path)
    requires [] !in m && p in WrittenAll(m, cs) && WrittenAll(m, cs)[p].Leaf?
    ensures WrittenAll(m, cs)[p].value == LastValue(cs, p, if p in m && m[p].Leaf? then m[p].value else "")
  {
    if cs != [] {
      var init := cs[..|cs| - 1];
      WritingSettles(m, m, init, iset{});
      if cs[|cs| - 1].path != p {
        HoldsLast(m, init, p);
      }
    }
  }

  // ---------------------------------------------------------------- the passes and the whole update

  lemma {:induction false} StampIsLast(l: Local, cs: seq<Change>, p: Path)
    requires l.nodeType == Item
    ensures Stamped(l, cs, p).value == if l.handler.None? then l.value else LastValue(cs, p, l.value)
    ensures Times(cs, p) == 0 ==> Stamped(l, cs, p) == l
  {
    if cs != [] {
      StampIsLast(l, cs[..|cs| - 1], p);
      StampedKeeps(l, cs[..|cs| - 1], p);
    }
  }

  lemma {:induction false} SameLast(v: Nodes, cs: seq<Change>, root: Root, p: Path, value: string)
    ensures LastValue(ChangesAfter(v, cs, root), p, value) == LastValue(cs, p, value)
  {
    if cs != [] {
      var init := cs[..|cs| - 1];
      SameLast(v, init, root, p, value);
      assert ChangesAfter(v, cs, root)[..|cs| - 1] == ChangesAfter(v, init, root);
    }
  }

  lemma {:induction false} LastOr(cs: seq<Change>, p: Path, a: string, b: string)
    ensures LastValue(cs, p, LastValue(cs, p, a)) == LastValue(cs, p, a)
    ensures Times(cs, p) > 0 ==> LastValue(cs, p, a) == LastValue(cs, p, b)
    ensures Times(cs, p) == 0 ==> LastValue(cs, p, a) == a
  {
    if cs != [] {
      LastOr(cs[..|cs| - 1], p, a, b);
      LastOr(cs[..|cs| - 1], p, LastValue(cs, p, a), a);
    }
  }

  /** The first pass may change the values of listed items, and nothing else of the contents. */
  lemma PassAlike(v: Nodes, cs: seq<Change>)
    ensures Alike(ContentsOf(Passed(v, cs)), ContentsOf(v), iset p | Times(cs, p) > 0)
  {
    var m, n := ContentsOf(Passed(v, cs)), ContentsOf(v);
    forall p | p in m ensures m[p] == n[p] || (m[p].Leaf? && n[p].Leaf? && Times(cs, p) > 0) {
      StampedKeeps(v[p], cs, p);
      if v[p].nodeType == Item {
        StampIsLast(v[p], cs, p);
      }
    }
  }

  /** The whole update: first pass, changes applied, second pass, clean-up. */
  ghost function Updated(v: Nodes, cs: seq<Change>, root: Root): Nodes {
    var after := ChangesAfter(Passed(v, cs), cs, root);
    Closed(Passed(BeforeSecond(v, cs, root), after), after)
  }

  /** The second pass and the clean-up leave contents alone in which every listed item holds its last value. */
  lemma SecondPassKeeps(w: Nodes, cs: seq<Change>)
    requires forall p :: p in w && w[p].nodeType == Item ==> w[p].value == LastValue(cs, p, w[p].value)
    ensures ContentsOf(Closed(Passed(w, cs), cs)) == ContentsOf(w)
  {
    var m := ContentsOf(Closed(Passed(w, cs), cs));
    forall p | p in w ensures m[p] == ContentsOf(w)[p] {
      StampedKeeps(w[p], cs, p);
      if w[p].nodeType == Item {
        StampIsLast(w[p], cs, p);
      }
    }
  }

  /** After an update the contents are the old ones with the changes written in list order, for every list. */
  lemma UpdateWrites(v: Nodes, cs: seq<Change>, root: Root)
    requires PrefixClosed(v)
    ensures ContentsOf(Updated(v, cs, root)) == WrittenAll(ContentsOf(v), cs)
  {
    hide Passed, AppliedAll, ChangesAfter, WrittenAll, Closed;
    var u, w := Passed(v, cs), BeforeSecond(v, cs, root);
    PassAlike(v, cs);
    PassedKeeps(v, cs);
    WritingSettles(ContentsOf(u), ContentsOf(v), cs, iset p | Times(cs, p) > 0);
    AppliedWrites(u, cs, root);
    assert ContentsOf(w) == WrittenAll(ContentsOf(v), cs);
    var after := ChangesAfter(u, cs, root);
    forall p | p in w && w[p].nodeType == Item ensures w[p].value == LastValue(after, p, w[p].value) {
      var was := if p in v && v[p].nodeType == Item then v[p].value else "";
      assert ContentsOf(w)[p] == Leaf(w[p].value);
      HoldsLast(ContentsOf(v), cs, p);
      SameLast(u, cs, root, p, w[p].value);
      LastOr(cs, p, was, "");
    }
    SecondPassKeeps(w, after);
  }

  /** After an update no node is marked executed, and every listed node that is there is READY and no longer new. */
  lemma UpdateClears(v: Nodes, cs: seq<Change>, root: Root, p: Path)
    requires PrefixClosed(v) && NoneExecuted(v) && p in Updated(v, cs, root)
    ensures var n := Updated(v, cs, root)[p]; !n.executed && (Times(cs, p) > 0 ==> n.state == Ready && !n.isNew)
  {
    var u, w := Passed(v, cs), BeforeSecond(v, cs, root);
    var after := ChangesAfter(u, cs, root);
    AfterListed(u, cs, root, p);
    PassedKeeps(v, cs);
    if Times(cs, p) == 0 {
      if p in u && !(exists c :: c in cs && Erases(u, c, p)) {
        NotErasedStays(u, cs, root, p);
      } else {
        FreshNotExecuted(u, cs, root, p);
      }
      StampedKeeps(w[p], after, p);
    }
  }

  lemma {:induction false} AfterListed(v: Nodes, cs: seq<Change>, root: Root, p: Path)
    ensures Times(ChangesAfter(v, cs, root), p) == Times(cs, p)
  {
    if cs != [] {
      AfterListed(v, cs[..|cs| - 1], root, p);
      assert ChangesAfter(v, cs, root)[..|cs| - 1] == ChangesAfter(v, cs[..|cs| - 1], root);
    }
  }
}
