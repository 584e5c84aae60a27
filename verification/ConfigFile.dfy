/** The configuration file: what show_config prints, what the grammar's contents rules parse
    (src/config/config.cpp:1003-1205, src/config/pminkParser.c:910-1081 and the rules it calls), and that the one
    undoes the other.  Tokens only: the lexer is not modelled. */
module ConfigFile {
  import opened Wrappers
  import opened ConfigTree
  import opened ConfigMerge
  import opened ConfigTransaction

  datatype Token = Identifier(text: string) | Number(text: string) | CString(text: string) | LBrace | RBrace | Ellipsis

  predicate IsNumber(s: string) {
    s != "" && forall c :: c in s ==> '0' <= c <= '9'
  }

  function NameToken(name: string): Token {
    if IsNumber(name) then Number(name) else Identifier(name)
  }

  // ---------------------------------------------------------------- printing

  /** The size show_config computes to decide whether a block is worth printing. */
  function PrintSize(ks: seq<Node>, isEmpty: bool, committed: bool): nat
    decreases ks, 1
  {
    (if isEmpty then 1 else 0) + SizeEach(ks, committed)
  }

  function SizeEach(ks: seq<Node>, committed: bool): nat
    decreases ks, 0
  {
    if ks == [] then 0 else SizeOf(ks[0], committed) + SizeEach(ks[1..], committed)
  }

  function SizeOf(k: Node, committed: bool): nat
    decreases k, 2
  {
    if Skipped(k, committed) then 0
    else if k.nodeType == Block then PrintSize(k.kids, k.isEmpty, committed)
    else |PrintValue(k, committed)|
  }

  /** Templates are not printed; of uncommitted data either the new blocks or the deleted nodes are left out. */
  predicate Skipped(k: Node, committed: bool) {
    k.isTemplate || if k.nodeType == Block then (if committed then k.isNew else k.state == Deleted)
                    else (k.newValue == "" && k.state != Deleted) || (!committed && k.state == Deleted)
  }

  function PrintValue(k: Node, committed: bool): string {
    if committed then k.value else k.newValue
  }

  function Print(ks: seq<Node>, committed: bool): seq<Token>
    decreases ks, 1
  {
    if ks == [] then [] else PrintNode(ks[0], committed) + Print(ks[1..], committed)
  }

  function PrintNode(k: Node, committed: bool): seq<Token>
    decreases k, 0
  {
    if Skipped(k, committed) then []
    else if k.nodeType == Block then
      if PrintSize(k.kids, k.isEmpty, committed) == 0 then []
      else if k.isEmpty then [NameToken(k.name)] + Print(k.kids, committed) + [LBrace, RBrace]
      else [NameToken(k.name), LBrace] + Print(k.kids, committed) + [RBrace]
    else if PrintValue(k, committed) == "" then []
    else [NameToken(k.name), CString(PrintValue(k, committed))]
  }

  /** The contents a clean configuration prints. */
  function FileOf(ks: seq<Node>): seq<File>
    decreases ks
  {
    if ks == [] then [] else FileOfNode(ks[0]) + FileOf(ks[1..])
  }

  function FileOfNode(k: Node): seq<File>
    decreases k
  {
    if k.isTemplate then []
    else if k.nodeType == Item then (if k.value == "" then [] else [File(k.name, Item, k.value, [])])
    else if !k.isEmpty && FileOf(k.kids) == [] then []
    else [File(k.name, Block, "", FileOf(k.kids))]
  }

  function Tokens(fs: seq<File>): seq<Token>
    decreases fs, 1
  {
    if fs == [] then [] else TokensOf(fs[0]) + Tokens(fs[1..])
  }

  function TokensOf(f: File): seq<Token>
    decreases f, 0
  {
    if f.nodeType == Item then [NameToken(f.name), CString(f.value)]
    else [NameToken(f.name), LBrace] + Tokens(f.kids) + [RBrace]
  }

  /** Clean, and blocks marked empty hold nothing to print. */
  ghost predicate Printable(ks: seq<Node>)
    decreases ks
  {
    forall k | k in ks && !k.isTemplate ::
      && k.state == Ready && !k.isNew && (k.nodeType == Item ==> k.newValue == k.value)
      && (k.isEmpty && k.nodeType == Block ==> FileOf(k.kids) == []) && Printable(k.kids)
  }

  lemma {:induction false} SizeIsFile(ks: seq<Node>, committed: bool)
    requires Printable(ks)
    ensures SizeEach(ks, committed) == 0 <==> FileOf(ks) == []
    decreases ks
  {
    if ks != [] {
      assert ks[0] in ks;
      if !ks[0].isTemplate {
        SizeIsFile(ks[0].kids, committed);
        if ks[0].nodeType == Block {
          SizeOfBlock(ks[0], committed);
        }
      }
      SizeIsFile(ks[1..], committed);
    }
  }

  lemma SizeOfBlock(k: Node, committed: bool)
    requires k.nodeType == Block && !Skipped(k, committed)
    ensures SizeOf(k, committed) == (if k.isEmpty then 1 else 0) + SizeEach(k.kids, committed)
  {
  }

  /** The printer writes the tokens of the contents. */
  lemma {:induction false} PrintIsFile(ks: seq<Node>, committed: bool)
    requires Printable(ks)
    ensures Print(ks, committed) == Tokens(FileOf(ks))
    decreases ks, 1
  {
    hide PrintNode, FileOfNode, TokensOf;
    if ks != [] {
      PrintNodeIsFile(ks, ks[0], committed);
      PrintIsFile(ks[1..], committed);
      TokensAppend(FileOfNode(ks[0]), FileOf(ks[1..]));
    }
  }

  lemma {:induction false} PrintNodeIsFile(ks: seq<Node>, k: Node, committed: bool)
    requires Printable(ks) && k in ks
    ensures PrintNode(k, committed) == Tokens(FileOfNode(k))
    decreases ks, 0
  {
    if !k.isTemplate {
      PrintIsFile(k.kids, committed);
      SizeIsFile(k.kids, committed);
      if FileOfNode(k) != [] {
        TokensSingle(FileOfNode(k)[0]);
        assert FileOfNode(k) == [FileOfNode(k)[0]];
        assert [NameToken(k.name)] + [] + [LBrace, RBrace] == [NameToken(k.name), LBrace] + [] + [RBrace];
      }
    }
  }

  lemma TokensSingle(f: File)
    ensures Tokens([f]) == TokensOf(f)
  {
    assert [f][1..] == [] && TokensOf(f) + [] == TokensOf(f);
  }

  lemma {:induction false} TokensAppend(a: seq<File>, b: seq<File>)
    ensures Tokens(a + b) == Tokens(a) + Tokens(b)
  {
    hide TokensOf;
    if a == [] {
      assert a + b == b;
    } else {
      TokensAppend(a[1..], b);
      assert (a + b)[0] == a[0] && (a + b)[1..] == a[1..] + b;
      Associative(TokensOf(a[0]), Tokens(a[1..]), Tokens(b));
    }
  }

  // ---------------------------------------------------------------- printing with changes pending

  /** Blocks marked empty hold no items. */
  predicate EmptyHoldNone(ks: seq<Node>)
    decreases ks
  {
    forall k | k in ks && !k.isTemplate ::
      (k.isEmpty && k.nodeType == Block ==> NoItems(k.kids)) && EmptyHoldNone(k.kids)
  }

  predicate NoItems(ks: seq<Node>)
    decreases ks
  {
    forall k | k in ks && !k.isTemplate :: k.nodeType == Block && !k.isEmpty && NoItems(k.kids)
  }

  /** An item that was given the empty value, neither committed nor discarded since, in a block that is not new. */
  predicate Emptied(ks: seq<Node>)
    decreases ks
  {
    exists k | k in ks :: EmptiedAt(k)
  }

  predicate EmptiedAt(k: Node)
    decreases k, 0
  {
    && !k.isTemplate
    && if k.nodeType == Item then k.state == Modified && k.newValue == "" && k.value != ""
       else !k.isNew && Emptied(k.kids)
  }

  lemma EmptiedSplit(ks: seq<Node>)
    ensures Emptied(ks) <==> ks != [] && (EmptiedAt(ks[0]) || Emptied(ks[1..]))
  {
    hide EmptiedAt;
    assert ks != [] ==> forall k :: k in ks <==> k == ks[0] || k in ks[1..];
  }

  /** What is there once the pending changes are discarded, or once they are committed. */
  function Resolved(ks: seq<Node>, discard: bool): seq<Node> {
    if discard then DiscardKids(ks) else CommitKids(ks, false)
  }

  function ResolvedNode(k: Node, discard: bool): (r: seq<Node>)
    ensures |r| <= 1
  {
    if discard then DiscardNode(k) else CommitNode(k, false)
  }

  lemma {:induction false} FileOfAppend(a: seq<Node>, b: seq<Node>)
    ensures FileOf(a + b) == FileOf(a) + FileOf(b)
  {
    hide FileOfNode;
    if a == [] {
      assert a + b == b;
    } else {
      FileOfAppend(a[1..], b);
      assert (a + b)[0] == a[0] && (a + b)[1..] == a[1..] + b;
      Associative(FileOfNode(a[0]), FileOf(a[1..]), FileOf(b));
    }
  }

  lemma ResolvedStep(ks: seq<Node>, discard: bool)
    requires ks != []
    ensures FileOf(Resolved(ks, discard)) == FileOf(ResolvedNode(ks[0], discard)) + FileOf(Resolved(ks[1..], discard))
  {
    hide FileOf, CommitNode, DiscardNode;
    FileOfAppend(ResolvedNode(ks[0], discard), Resolved(ks[1..], discard));
  }

  /** What one node leaves in the file. */
  lemma ResolvedFile(k: Node, discard: bool)
    requires NodeInScope(k)
    ensures var fs := FileOf(ResolvedNode(k, discard));
            if k.isTemplate then fs == []
            else if k.nodeType == Item then
              var value := if discard ||
                k.state == Ready then k.value else if k.state == Modified then k.newValue else "";
              fs == if value == "" then [] else [File(k.name, Item, value, [])]
            else if (if discard then k.isNew else k.state == Deleted) then fs == []
            else
              fs == if !k.isEmpty && FileOf(Resolved(k.kids, discard)) == [] then []
                    else [File(k.name, Block, "", FileOf(Resolved(k.kids, discard)))]
  {
    hide CommitKids, DiscardKids;
    var r := ResolvedNode(k, discard);
    if r != [] {
      assert r == [r[0]] && r[1..] == [];
      assert FileOf(r) == FileOfNode(r[0]) + FileOf(r[1..]) == FileOfNode(r[0]) by {
        hide FileOfNode;
        assert FileOf(r[1..]) == [];
      }
    }
  }

  lemma HoldNoneRest(ks: seq<Node>)
    requires ks != []
    ensures EmptyHoldNone(ks) ==>
              EmptyHoldNone(ks[1..])
              && (!ks[0].isTemplate ==>
                    EmptyHoldNone(ks[0].kids) && (ks[0].isEmpty && ks[0].nodeType == Block ==> NoItems(ks[0].kids)))
    ensures NoItems(ks) ==>
              NoItems(ks[1..])
              && (!ks[0].isTemplate ==> ks[0].nodeType == Block && !ks[0].isEmpty && NoItems(ks[0].kids))
  {
    assert ks[0] in ks;
  }

  lemma {:induction false} NothingInside(ks: seq<Node>, committed: bool)
    requires NoItems(ks) && InScope(ks)
    ensures FileOf(Resolved(ks, committed)) == [] && SizeEach(ks, committed) == 0 && Print(ks, committed) == []
    ensures !Emptied(ks)
    decreases ks
  {
    hide FileOf, InScope, NoItems, Emptied, Resolved, ResolvedNode;
    EmptiedSplit(ks);
    if ks != [] {
      InScopeRest(ks);
      HoldNoneRest(ks);
      NothingInside(ks[1..], committed);
      if !ks[0].isTemplate {
        NothingInside(ks[0].kids, committed);
        if !Skipped(ks[0], committed) {
          SizeOfBlock(ks[0], committed);
        }
      }
      ResolvedStep(ks, committed);
      ResolvedFile(ks[0], committed);
    } else {
      NothingLeft(committed);
    }
  }

  lemma NothingLeft(discard: bool)
    ensures FileOf(Resolved([], discard)) == []
  {
  }

  /** The printer shows what a commit would leave, or what a discard would; the latter if no item has been given the
      empty value. */
  lemma {:induction false} PrintResolved(ks: seq<Node>, committed: bool)
    requires InScope(ks) && EmptyHoldNone(ks) && (committed ==> !Emptied(ks))
    ensures Print(ks, committed) == Tokens(FileOf(Resolved(ks, committed)))
    ensures SizeEach(ks, committed) == 0 <==> FileOf(Resolved(ks, committed)) == []
    decreases ks, 1
  {
    hide FileOf, InScope, EmptyHoldNone, NoItems, Emptied, EmptiedAt, Resolved, ResolvedNode, PrintNode, TokensOf,
         Skipped;
    EmptiedSplit(ks);
    if ks != [] {
      InScopeRest(ks);
      HoldNoneRest(ks);
      PrintResolved(ks[1..], committed);
      PrintNodeResolved(ks, ks[0], committed);
      ResolvedStep(ks, committed);
      TokensAppend(FileOf(ResolvedNode(ks[0], committed)), FileOf(Resolved(ks[1..], committed)));
    } else {
      NothingLeft(committed);
    }
  }

  lemma {:induction false} PrintNodeResolved(ks: seq<Node>, k: Node, committed: bool)
    requires k in ks && NodeInScope(k) && (committed ==> !EmptiedAt(k))
    requires !k.isTemplate ==> EmptyHoldNone(k.kids) && (k.isEmpty && k.nodeType == Block ==> NoItems(k.kids))
    ensures PrintNode(k, committed) == Tokens(FileOf(ResolvedNode(k, committed)))
    ensures SizeOf(k, committed) == 0 <==> FileOf(ResolvedNode(k, committed)) == []
    decreases ks, 0
  {
    hide FileOf, Resolved, ResolvedNode, SizeEach, Print, InScope, EmptyHoldNone, NoItems, Emptied;
    ResolvedFile(k, committed);
    var fs := FileOf(ResolvedNode(k, committed));
    if fs != [] {
      TokensSingle(fs[0]);
      assert fs == [fs[0]];
    }
    if !k.isTemplate && k.nodeType == Block && !Skipped(k, committed) {
      PrintResolved(k.kids, committed);
      if k.isEmpty {
        NothingInside(k.kids, committed);
        assert [NameToken(k.name)] + [] + [LBrace, RBrace] == [NameToken(k.name), LBrace] + [] + [RBrace];
      }
    }
  }

  /** Of what a discard would leave, the printer never shows more, and less if an item was given the empty value. */
  lemma {:induction false} PrintsLess(ks: seq<Node>)
    requires InScope(ks) && EmptyHoldNone(ks)
    ensures |Print(ks, true)| <= |Tokens(FileOf(Resolved(ks, true)))|
    ensures Emptied(ks) ==> |Print(ks, true)| < |Tokens(FileOf(Resolved(ks, true)))|
    ensures FileOf(Resolved(ks, true)) == [] ==> SizeEach(ks, true) == 0
    decreases ks, 1
  {
    hide FileOf, InScope, EmptyHoldNone, NoItems, Emptied, EmptiedAt, Resolved, ResolvedNode, PrintNode, TokensOf,
         SizeOf;
    EmptiedSplit(ks);
    if ks != [] {
      InScopeRest(ks);
      HoldNoneRest(ks);
      PrintsLess(ks[1..]);
      PrintsLessOfNode(ks, ks[0]);
      ResolvedStep(ks, true);
      TokensAppend(FileOf(ResolvedNode(ks[0], true)), FileOf(Resolved(ks[1..], true)));
    }
  }

  lemma {:induction false} PrintsLessOfNode(ks: seq<Node>, k: Node)
    requires k in ks && NodeInScope(k)
    requires !k.isTemplate ==> EmptyHoldNone(k.kids) && (k.isEmpty && k.nodeType == Block ==> NoItems(k.kids))
    ensures |PrintNode(k, true)| <= |Tokens(FileOf(ResolvedNode(k, true)))|
    ensures EmptiedAt(k) ==> |PrintNode(k, true)| < |Tokens(FileOf(ResolvedNode(k, true)))|
    ensures FileOf(ResolvedNode(k, true)) == [] ==> SizeOf(k, true) == 0
    decreases ks, 0
  {
    hide FileOf, Resolved, ResolvedNode, SizeEach, Print, InScope, EmptyHoldNone, NoItems, Emptied;
    ResolvedFile(k, true);
    var fs := FileOf(ResolvedNode(k, true));
    if fs != [] {
      TokensSingle(fs[0]);
      assert fs == [fs[0]];
    }
    if !k.isTemplate && k.nodeType == Block && !Skipped(k, true) {
      PrintsLess(k.kids);
      if k.isEmpty {
        NothingInside(k.kids, true);
      }
    }
  }

  /** Printing with what is not committed shows the file a commit would leave, whatever is pending. */
  lemma PrintShowsPending(ks: seq<Node>)
    requires InScope(ks) && EmptyHoldNone(ks)
    ensures Print(ks, false) == Tokens(FileOf(CommitKids(ks, false)))
  {
    PrintResolved(ks, false);
  }

  /** Printing without it, as for a rollback file, shows the file a discard would leave if and only if no item has been
      given the empty value: the printer skips such an item, though its old value is still the committed one. */
  lemma PrintShowsCommittedIff(ks: seq<Node>)
    requires InScope(ks) && EmptyHoldNone(ks)
    ensures Print(ks, true) == Tokens(FileOf(DiscardKids(ks))) <==> !Emptied(ks)
  {
    PrintsLess(ks);
    if !Emptied(ks) {
      PrintResolved(ks, true);
    }
  }

  /** A block with an item that holds "x" and has been given the empty value prints nothing, where a discard would leave
      a file with the block and the item. */
  lemma PrintMissesEmptied()
    ensures var item := Node("a", Item, "", "x", "", Modified, false, false, false, None, []);
            var ks := [Node("b", Block, "", "", "", Ready, false, false, false, None, [item])];
            && Print(ks, true) == []
            && Print(DiscardKids(ks), true) ==
               [Identifier("b"), LBrace, Identifier("a"), CString("x"), RBrace]
  {
    var item := Node("a", Item, "", "x", "", Modified, false, false, false, None, []);
    var block := Node("b", Block, "", "", "", Ready, false, false, false, None, [item]);
    assert SizeEach([item], true) == 0;
    var held := item.(state := Ready, newValue := "x");
    assert DiscardKids([item]) == [held];
    DiscardSingle(block);
    assert DiscardNode(block) == [block.(kids := [held])];
    PrintOfOne(held, block.(kids := [held]));
    assert "a"[0] in "a" && "b"[0] in "b" && !IsNumber("a") && !IsNumber("b");
  }

  /** One block with one item, printed. */
  lemma PrintOfOne(item: Node, block: Node)
    requires item.nodeType == Item && !item.isTemplate && item.value == item.newValue != "" && item.state == Ready
    requires block.nodeType == Block && !block.isTemplate && !block.isEmpty && !block.isNew && block.kids == [item]
    ensures Print([block], true) ==
            [NameToken(block.name), LBrace, NameToken(item.name), CString(item.value), RBrace]
  {
    assert SizeEach([item], true) == |item.value| + SizeEach([item][1..], true);
    assert Print([item], true) == PrintNode(item, true) + Print([item][1..], true) == PrintNode(item, true);
    assert PrintNode(block, true) == [NameToken(block.name), LBrace] + PrintNode(item, true) + [RBrace];
    assert Print([block], true) == PrintNode(block, true) + Print([block][1..], true);
  }

  // ---------------------------------------------------------------- parsing

  datatype Result = Parsed(files: seq<File>, rest: seq<Token>) | Failed

  predicate Starts(t: Token) {
    t.Identifier? || t.Number? || t.Ellipsis?
  }

  /** Descriptions after a type. */
  function AfterStrings(ts: seq<Token>): (r: seq<Token>)
    ensures |r| <= |ts| && (r != [] ==> !r[0].CString?)
  {
    if ts != [] && ts[0].CString? then AfterStrings(ts[1..]) else ts
  }

  /** configDef*: as many as there are. */
  function ParseDefs(ts: seq<Token>): (r: Result)
    ensures r.Parsed? ==> |r.rest| <= |ts|
    decreases |ts|, 1
  {
    if ts == [] || !Starts(ts[0]) then Parsed([], ts)
    else
      match ParseDef(ts)
      case Failed => Failed
      case Parsed(one, rest) =>
        match ParseDefs(rest)
        case Failed => Failed
        case Parsed(more, rest') => Parsed(one + more, rest')
  }

  /** configDef: a block, or else an item. */
  function ParseDef(ts: seq<Token>): (r: Result)
    requires ts != [] && Starts(ts[0])
    ensures r.Parsed? ==> |r.rest| < |ts| && |r.files| == 1
    decreases |ts|, 0
  {
    if ts[0].Ellipsis? then Parsed([File("...", Item, "", [])], ts[1..])
    else if |ts| > 1 && ts[1].LBrace? then ParseBlock(ts[0].text, ts[2..])
    else if ts[0].Identifier? && |ts| > 1 && ts[1].CString? then
      var rest := AfterStrings(ts[2..]);
      var typed := if rest != [] && rest[0].LBrace? then ParseBlock(ts[0].text, rest[1..]) else Failed;
      if typed.Parsed? then typed else Parsed([File(ts[0].text, Item, ts[1].text, [])], rest)
    else Failed
  }

  /** The inside of a block and its closing brace. */
  function ParseBlock(name: string, ts: seq<Token>): (r: Result)
    ensures r.Parsed? ==> |r.rest| < |ts| && |r.files| == 1
    decreases |ts|, 2
  {
    var inside := ParseDefs(ts);
    if inside.Parsed? && inside.rest != [] && inside.rest[0].RBrace? then
      Parsed([File(name, Block, "", inside.files)], inside.rest[1..])
    else Failed
  }

  /** Items need a name that is no number: a number starts a block. */
  ghost predicate Lexable(fs: seq<File>)
    decreases fs
  {
    forall f | f in fs ::
      && (f.nodeType == Item ==> !IsNumber(f.name) && f.kids == [])
      && (f.nodeType == Block ==> f.value == "") && Lexable(f.kids)
  }

  /** Parsing the tokens of some contents gives the contents back. */
  lemma {:induction false} ParseUndoesPrint(fs: seq<File>, after: seq<Token>)
    requires Lexable(fs) && (after == [] || after[0].RBrace?)
    ensures ParseDefs(Tokens(fs) + after) == Parsed(fs, after)
    decreases fs, 1
  {
    hide ParseDef, ParseDefs, Tokens, TokensOf, IsNumber;
    if fs == [] {
      NoTokens(after);
      ParseEnds(after);
    } else {
      var more := Tokens(fs[1..]) + after;
      ParseUndoesPrint(fs[1..], after);
      NextToken(fs[1..], after);
      ParseUndoesOne(fs, fs[0], more);
      FirstTokens(fs, after);
      ParseStep(TokensOf(fs[0]) + more, fs[0], more);
      assert fs == [fs[0]] + fs[1..];
    }
  }

  lemma NoTokens(after: seq<Token>)
    ensures Tokens([]) + after == after
  {
  }

  lemma FirstTokens(fs: seq<File>, after: seq<Token>)
    requires fs != []
    ensures Tokens(fs) + after == TokensOf(fs[0]) + (Tokens(fs[1..]) + after)
  {
    hide TokensOf;
    Associative(TokensOf(fs[0]), Tokens(fs[1..]), after);
  }

  lemma ParseStep(ts: seq<Token>, f: File, more: seq<Token>)
    requires ts != [] && Starts(ts[0]) && ParseDef(ts) == Parsed([f], more)
    ensures ParseDefs(ts) == Following([f], ParseDefs(more))
  {
    hide ParseDef;
  }

  /** A result with these files in front. */
  function Following(fs: seq<File>, r: Result): Result {
    match r
    case Failed => Failed
    case Parsed(more, rest) => Parsed(fs + more, rest)
  }

  lemma FollowingTwice(a: seq<File>, b: seq<File>, r: Result)
    ensures Following(a, Following(b, r)) == Following(a + b, r)
  {
    if r.Parsed? {
      Associative(a, b, r.files);
    }
  }

  lemma FollowingNone(none: seq<File>, r: Result)
    requires none == []
    ensures Following(none, r) == r
  {
    assert r.Parsed? ==> none + r.files == r.files;
  }

  lemma ParseFails(ts: seq<Token>)
    requires ts != [] && Starts(ts[0]) && ParseDef(ts).Failed?
    ensures ParseDefs(ts) == Failed
  {
    hide ParseDef;
  }

  lemma ParseEnds(ts: seq<Token>)
    requires ts == [] || !Starts(ts[0])
    ensures ParseDefs(ts) == Parsed([], ts)
  {
  }

  lemma {:induction false} ParseUndoesOne(fs: seq<File>, f: File, more: seq<Token>)
    requires Lexable(fs) && f in fs && (more == [] || more[0].RBrace? || Starts(more[0]))
    ensures var ts := TokensOf(f) + more; ts != [] && Starts(ts[0]) && ParseDef(ts) == Parsed([f], more)
    decreases fs, 0
  {
    hide ParseDef;
    if f.nodeType == Item {
      ParseItem(f, more);
    } else {
      ParseUndoesPrint(f.kids, [RBrace] + more);
      ParseOneBlock(f, Tokens(f.kids) + ([RBrace] + more), more);
      assert TokensOf(f) + more == [NameToken(f.name), LBrace] + (Tokens(f.kids) + ([RBrace] + more));
    }
  }

  lemma NextToken(fs: seq<File>, after: seq<Token>)
    requires after == [] || after[0].RBrace?
    ensures var ts := Tokens(fs) + after; ts == [] || ts[0].RBrace? || Starts(ts[0])
  {
  }

  lemma ParseItem(f: File, more: seq<Token>)
    requires f.nodeType == Item && !IsNumber(f.name) && f.kids == []
    requires more == [] || more[0].RBrace? || Starts(more[0])
    ensures var ts := [NameToken(f.name), CString(f.value)] + more; Starts(ts[0]) && ParseDef(ts) == Parsed([f], more)
  {
    var ts := [NameToken(f.name), CString(f.value)] + more;
    assert ts[2..] == more && AfterStrings(more) == more;
  }

  lemma ParseOneBlock(f: File, inside: seq<Token>, more: seq<Token>)
    requires f.nodeType == Block && f.value == "" && ParseDefs(inside) == Parsed(f.kids, [RBrace] + more)
    ensures var ts := [NameToken(f.name), LBrace] + inside; Starts(ts[0]) && ParseDef(ts) == Parsed([f], more)
  {
    var ts := [NameToken(f.name), LBrace] + inside;
    assert ts[2..] == inside && ([RBrace] + more)[1..] == more;
  }

  // ---------------------------------------------------------------- the parser itself

  class Parser {
    const tokens: seq<Token>
    var index: nat

    constructor (tokens: seq<Token>)
      ensures this.tokens == tokens && index == 0
    {
      this.tokens, index := tokens, 0;
    }

    predicate Valid()
      reads this
    {
      index <= |tokens|
    }

    /** What the look-ahead has not passed yet. */
    function Rest(): seq<Token>
      requires Valid()
      reads this
    {
      tokens[index..]
    }

    /** configFileDefinition, and the loop inside a block: tokens it cannot start a node with end it. */
    method ConfigDefs() returns (ok: bool, files: seq<File>)
      requires Valid()
      modifies this
      ensures Valid() && ok == old(ParseDefs(Rest())).Parsed?
      ensures ok ==> ParseDefs(old(Rest())) == Parsed(files, Rest())
      decreases |tokens| - index, 1
    {
      hide ParseDefs, ParseDef;
      ok, files := true, [];
      ghost var all := ParseDefs(Rest());
      FollowingNone([], all);
      while index < |tokens| && Starts(tokens[index])
        invariant Valid() && ok
        invariant all == Following(files, ParseDefs(Rest()))
        decreases |tokens| - index
      {
        ghost var here, had := Rest(), files;
        var def;
        ok, def := ConfigDef();
        if !ok {
          ParseFails(here);
          return;
        }
        files := files + [def];
        ParseStep(here, def, Rest());
        FollowingTwice(had, [def], ParseDefs(Rest()));
      }
      ParseEnds(Rest());
      assert files + [] == files;
    }

    /** configDef: tries a block first and goes back to an item. */
    method ConfigDef() returns (ok: bool, def: File)
      requires Valid() && index < |tokens| && Starts(tokens[index])
      modifies this
      ensures Valid() && ok == old(ParseDef(Rest())).Parsed?
      ensures ok ==> ParseDef(old(Rest())) == Parsed([def], Rest()) && index > old(index)
      decreases |tokens| - index, 0
    {
      hide AfterStrings;
      var name := tokens[index];
      ok, def := true, File("...", Item, "", []);
      if name.Ellipsis? {
        index := index + 1;
        return;
      }
      if index + 1 < |tokens| && tokens[index + 1].LBrace? {
        index := index + 2;
        ok, def := ConfigBlock(name.text);
        return;
      }
      if !(name.Identifier? && index + 1 < |tokens| && tokens[index + 1].CString?) {
        return false, def;
      }
      var value := tokens[index + 1];
      index := index + 2;
      SkipStrings();
      var mark := index;
      if index < |tokens| && tokens[index].LBrace? {
        index := index + 1;
        ok, def := ConfigBlock(name.text);
        if ok {
          return;
        }
      }
      index := mark;
      ok, def := true, File(name.text, Item, value.text, []);
    }

    /** The descriptions after a type. */
    method SkipStrings()
      requires Valid()
      modifies this
      ensures Valid() && Rest() == AfterStrings(old(Rest())) && index >= old(index)
    {
      ghost var after := AfterStrings(Rest());
      while index < |tokens| && tokens[index].CString?
        invariant Valid() && index >= old(index) && AfterStrings(Rest()) == after
      {
        index := index + 1;
      }
    }

    method ConfigBlock(name: string) returns (ok: bool, def: File)
      requires Valid()
      modifies this
      ensures Valid() && ok == old(ParseBlock(name, Rest())).Parsed?
      ensures ok ==> ParseBlock(name, old(Rest())) == Parsed([def], Rest()) && index > old(index)
      decreases |tokens| - index, 2
    {
      var files;
      def := File(name, Block, "", []);
      ok, files := ConfigDefs();
      if !ok || index == |tokens| || !tokens[index].RBrace? {
        return false, def;
      }
      index := index + 1;
      def := File(name, Block, "", files);
    }
  }
}
