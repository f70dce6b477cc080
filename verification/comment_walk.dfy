/** The pre-order walk over the syntax tree that records, for every declaration
    node, each of its documentation-comment ranges. */
module CommentWalk {
  import opened Optional
  import opened Seqs
  import opened Syntax
  import opened CommentRanges

  /** TSDoc's `TextRange`: a span `[pos, end)` of the buffer it was cut from. */
  datatype TextRange = TextRange(buffer: string, pos: nat, end: nat)

  /** `IFoundComment`: the node that owns a comment and the comment's text range. */
  datatype FoundComment = FoundComment(compilerNode: Node, textRange: TextRange)

  /** The record pushed for one comment range `c` of `node`
      (`TextRange.fromStringRange(buffer, c.pos, c.end)`). */
  function RecordFor(node: Node, text: string, c: CommentRange): FoundComment {
    FoundComment(node, TextRange(text, c.pos, c.end))
  }

  /** The records of one node, one per comment range, in the order of the ranges:
      each carries `node`, the file's text, and one of the ranges exactly. */
  function RecordsFor(node: Node, text: string, cs: seq<CommentRange>): (r: seq<FoundComment>)
    ensures |r| == |cs|
    ensures forall f :: f in r ==>
      && f.compilerNode == node
      && f.textRange.buffer == text
      && CommentRange(f.textRange.pos, f.textRange.end) in cs
  {
    if |cs| == 0 then [] else [RecordFor(node, text, cs[0])] + RecordsFor(node, text, cs[1..])
  }

  /** One record per range: record `i` carries range `i`. */
  lemma {:induction false} RecordsForIndex(node: Node, text: string, cs: seq<CommentRange>, i: nat)
    requires i < |cs|
    ensures |RecordsFor(node, text, cs)| == |cs|
    ensures RecordsFor(node, text, cs)[i] == RecordFor(node, text, cs[i])
    decreases |cs|
  {
    if i > 0 {
      RecordsForIndex(node, text, cs[1..], i - 1);
    } else if |cs| > 1 {
      RecordsForIndex(node, text, cs[1..], 0);
    }
  }

  /** Recording a run of ranges and then one more range is recording the longer run. */
  lemma {:induction false} RecordsForSnoc(node: Node, text: string, cs: seq<CommentRange>, c: CommentRange)
    ensures RecordsFor(node, text, cs + [c]) == RecordsFor(node, text, cs) + [RecordFor(node, text, c)]
    decreases |cs|
  {
    if |cs| > 0 {
      assert (cs + [c])[1..] == cs[1..] + [c];
      RecordsForSnoc(node, text, cs[1..], c);
    }
  }

  /** A record the walk may legitimately produce: its node is a declaration and its
      range is, exactly, one of that node's documentation-comment ranges. */
  ghost predicate IsRecordOf(f: FoundComment, text: string, scan: Scanner) {
    && IsDeclarationKind(f.compilerNode.kind)
    && f.textRange.buffer == text
    && CommentRange(f.textRange.pos, f.textRange.end) in GetJSDocCommentRanges(f.compilerNode, text, scan)
  }

  /** The records a single node contributes: none unless it is a declaration. */
  function OwnRecords(node: Node, text: string, scan: Scanner): seq<FoundComment> {
    if IsDeclarationKind(node.kind) then RecordsFor(node, text, GetJSDocCommentRanges(node, text, scan))
    else []
  }

  /** The nodes of a tree in pre-order: a node, then each child's subtree in turn. */
  function PreOrder(node: Node): seq<Node>
    decreases node, 1
  {
    [node] + PreOrderAll(node.children)
  }

  /** The pre-order listings of a sequence of trees, concatenated. */
  function PreOrderAll(ns: seq<Node>): seq<Node>
    decreases ns, 0
  {
    if |ns| == 0 then [] else PreOrder(ns[0]) + PreOrderAll(ns[1..])
  }

  /** The walk as a pure function: what `walkCompilerAstAndFindComments` appends
      to its accumulator for the tree rooted at `node`. */
  function Walk(node: Node, text: string, scan: Scanner): seq<FoundComment>
    decreases node, 1
  {
    OwnRecords(node, text, scan) + WalkChildren(node.children, text, scan)
  }

  /** The walk over the children of one node (`node.forEachChild`), in order. */
  function WalkChildren(ns: seq<Node>, text: string, scan: Scanner): seq<FoundComment>
    decreases ns, 0
  {
    if |ns| == 0 then [] else Walk(ns[0], text, scan) + WalkChildren(ns[1..], text, scan)
  }

  /** The records of the nodes `ns`, each node's own records in the order of `ns`. */
  function FlatRecords(ns: seq<Node>, text: string, scan: Scanner): seq<FoundComment> {
    if |ns| == 0 then [] else OwnRecords(ns[0], text, scan) + FlatRecords(ns[1..], text, scan)
  }

  lemma {:induction false} FlatRecordsAppend(a: seq<Node>, b: seq<Node>, text: string, scan: Scanner)
    ensures FlatRecords(a + b, text, scan) == FlatRecords(a, text, scan) + FlatRecords(b, text, scan)
    decreases |a|
  {
    if |a| == 0 {
      assert a + b == b;
    } else {
      assert (a + b)[0] == a[0];
      assert (a + b)[1..] == a[1..] + b;
      FlatRecordsAppend(a[1..], b, text, scan);
      var own := OwnRecords(a[0], text, scan);
      calc {
        FlatRecords(a + b, text, scan);
        own + FlatRecords(a[1..] + b, text, scan);
        own + (FlatRecords(a[1..], text, scan) + FlatRecords(b, text, scan));
      }
    }
  }

  /** The walk visits the tree in pre-order: its result is the own records of
      each node, taken in the pre-order listing of the tree. */
  lemma {:induction false} WalkIsPreOrder(node: Node, text: string, scan: Scanner)
    ensures Walk(node, text, scan) == FlatRecords(PreOrder(node), text, scan)
    decreases node, 1
  {
    WalkChildrenIsPreOrder(node.children, text, scan);
    FlatRecordsAppend([node], PreOrderAll(node.children), text, scan);
    assert FlatRecords([node], text, scan) == OwnRecords(node, text, scan) + FlatRecords([], text, scan);
  }

  lemma {:induction false} WalkChildrenIsPreOrder(ns: seq<Node>, text: string, scan: Scanner)
    ensures WalkChildren(ns, text, scan) == FlatRecords(PreOrderAll(ns), text, scan)
    decreases ns, 0
  {
    if |ns| > 0 {
      WalkIsPreOrder(ns[0], text, scan);
      WalkChildrenIsPreOrder(ns[1..], text, scan);
      FlatRecordsAppend(PreOrder(ns[0]), PreOrderAll(ns[1..]), text, scan);
    }
  }

  /** Every own record of a node listed in `ns` is among the records of `ns`. */
  lemma {:induction false} FlatRecordsContains(ns: seq<Node>, n: Node, f: FoundComment, text: string, scan: Scanner)
    requires n in ns
    requires f in OwnRecords(n, text, scan)
    ensures f in FlatRecords(ns, text, scan)
    decreases |ns|
  {
    if ns[0] != n {
      FlatRecordsContains(ns[1..], n, f, text, scan);
    }
  }

  /** Every record of `ns` is an own record of one of the nodes of `ns`. */
  lemma {:induction false} FlatRecordsMember(ns: seq<Node>, f: FoundComment, text: string, scan: Scanner)
    returns (n: Node)
    requires f in FlatRecords(ns, text, scan)
    ensures n in ns && f in OwnRecords(n, text, scan)
    decreases |ns|
  {
    if f in OwnRecords(ns[0], text, scan) {
      n := ns[0];
    } else {
      n := FlatRecordsMember(ns[1..], f, text, scan);
    }
  }

  /** The walk invents nothing: every record it makes belongs to a node of the tree,
      that node is a declaration, and the record's range is exactly one of the
      ranges gathered for that node. */
  lemma WalkSound(root: Node, f: FoundComment, text: string, scan: Scanner)
    requires f in Walk(root, text, scan)
    ensures f.compilerNode in PreOrder(root)
    ensures IsRecordOf(f, text, scan)
  {
    WalkIsPreOrder(root, text, scan);
    var n := FlatRecordsMember(PreOrder(root), f, text, scan);
  }

  /** The walk misses nothing: every documentation-comment range of every
      declaration node in the tree is recorded, with that node as its owner. */
  lemma WalkComplete(root: Node, n: Node, c: CommentRange, text: string, scan: Scanner)
    requires n in PreOrder(root)
    requires IsDeclarationKind(n.kind)
    requires c in GetJSDocCommentRanges(n, text, scan)
    ensures RecordFor(n, text, c) in Walk(root, text, scan)
  {
    var cs := GetJSDocCommentRanges(n, text, scan);
    var i :| 0 <= i < |cs| && cs[i] == c;
    RecordsForIndex(n, text, cs, i);
    FlatRecordsContains(PreOrder(root), n, RecordFor(n, text, c), text, scan);
    WalkIsPreOrder(root, text, scan);
  }

  /** The walk over consecutive runs of children is the concatenation of the walks. */
  lemma {:induction false} WalkChildrenAppend(a: seq<Node>, b: seq<Node>, text: string, scan: Scanner)
    ensures WalkChildren(a + b, text, scan) == WalkChildren(a, text, scan) + WalkChildren(b, text, scan)
    decreases |a|
  {
    if |a| == 0 {
      assert a + b == b;
    } else {
      assert (a + b)[0] == a[0];
      assert (a + b)[1..] == a[1..] + b;
      WalkChildrenAppend(a[1..], b, text, scan);
      var w := Walk(a[0], text, scan);
      calc {
        WalkChildren(a + b, text, scan);
        w + WalkChildren(a[1..] + b, text, scan);
        w + (WalkChildren(a[1..], text, scan) + WalkChildren(b, text, scan));
      }
    }
  }

  /** Walking one more child appends that child's records. */
  lemma WalkChildrenSnoc(ns: seq<Node>, n: Node, text: string, scan: Scanner)
    ensures WalkChildren(ns + [n], text, scan) == WalkChildren(ns, text, scan) + Walk(n, text, scan)
  {
    WalkChildrenAppend(ns, [n], text, scan);
    var w := Walk(n, text, scan);
    assert [n][1..] == [];
    calc {
      WalkChildren([n], text, scan);
      w + WalkChildren([], text, scan);
      w;
    }
  }

  /** A node's own records come first, then its children's subtrees strictly in
      child order: the records of child `i` sit between those of the children
      before it and those of the children after it. */
  lemma NodeBeforeDescendants(node: Node, i: nat, text: string, scan: Scanner)
    requires i < |node.children|
    ensures Walk(node, text, scan) ==
      OwnRecords(node, text, scan)
      + WalkChildren(node.children[..i], text, scan)
      + Walk(node.children[i], text, scan)
      + WalkChildren(node.children[i + 1..], text, scan)
  {
    var cs := node.children;
    var tail := [cs[i]] + cs[i + 1..];
    assert cs == cs[..i] + tail;
    assert tail[0] == cs[i] && tail[1..] == cs[i + 1..];
    WalkChildrenAppend(cs[..i], tail, text, scan);
    var own := OwnRecords(node, text, scan);
    var before := WalkChildren(cs[..i], text, scan);
    var mid := Walk(cs[i], text, scan);
    var after := WalkChildren(cs[i + 1..], text, scan);
    calc {
      Walk(node, text, scan);
      own + WalkChildren(cs, text, scan);
      own + (before + WalkChildren(tail, text, scan));
      own + (before + (mid + after));
      own + before + mid + after;
    }
  }

  /** `ParenthesizedExpression` is one of the kinds whose trailing comments are
      gathered, yet it is no declaration kind, so in the walk it never owns a comment. */
  lemma ParenthesizedExpressionOwnsNothing(node: Node, text: string, scan: Scanner)
    requires node.kind == ParenthesizedExpression
    ensures node.kind in TrailingKinds
    ensures OwnRecords(node, text, scan) == []
  {
  }

  /** A modifier keyword such as `public` starts where its method does, so the
      scanner finds the method's comments at the keyword as well. The classifier
      keeps the keyword out: the walk records the method's comments once, all
      owned by the method. */
  lemma ModifierKeywordOwnsNothing(pos: nat, text: string, scan: Scanner)
    ensures var keyword := Node(PublicKeyword, pos, []);
      var decl := Node(MethodDeclaration, pos, [keyword]);
      && GetJSDocCommentRanges(keyword, text, scan) == GetJSDocCommentRanges(decl, text, scan)
      && OwnRecords(keyword, text, scan) == []
      && Walk(decl, text, scan) == RecordsFor(decl, text, GetJSDocCommentRanges(decl, text, scan))
  {
    var keyword := Node(PublicKeyword, pos, []);
    assert Walk(keyword, text, scan) == [];
    assert [keyword][1..] == [];
  }

  /** The loop that pushes one record per comment range of `node` onto the
      accumulator, in the order of the ranges. */
  method PushRecords(node: Node, text: string, comments: seq<CommentRange>, foundComments: seq<FoundComment>)
    returns (result: seq<FoundComment>)
    ensures result == foundComments + RecordsFor(node, text, comments)
  {
    result := foundComments;
    for i := 0 to |comments|
      invariant result == foundComments + RecordsFor(node, text, comments[..i])
    {
      RecordsForSnoc(node, text, comments[..i], comments[i]);
      PrefixSnoc(comments, i);
      result := result + [FoundComment(node, TextRange(text, comments[i].pos, comments[i].end))];
    }
    assert comments[..|comments|] == comments;
  }

  /** `walkCompilerAstAndFindComments`: pushes the records of the tree rooted at
      `node` onto `foundComments`. The accumulator is only ever appended to: the
      result is the old entries, untouched, followed by the walk's records. */
  method WalkCompilerAstAndFindComments(node: Node, text: string, scan: Scanner, foundComments: seq<FoundComment>)
    returns (result: seq<FoundComment>)
    ensures result == foundComments + Walk(node, text, scan)
    decreases node
  {
    result := foundComments;
    if IsDeclarationKind(node.kind) {
      var comments := GetJSDocCommentRanges(node, text, scan);
      result := PushRecords(node, text, comments, result);
    }
    ghost var prefix := foundComments + OwnRecords(node, text, scan);
    assert result == prefix;
    for j := 0 to |node.children|
      invariant result == prefix + WalkChildren(node.children[..j], text, scan)
    {
      var child := node.children[j];
      ghost var done := WalkChildren(node.children[..j], text, scan);
      result := WalkCompilerAstAndFindComments(child, text, scan, result);
      assert result == prefix + WalkChildren(node.children[..j + 1], text, scan) by {
        assert result == prefix + (done + Walk(child, text, scan));
        WalkChildrenSnoc(node.children[..j], child, text, scan);
        PrefixSnoc(node.children, j);
      }
    }
    assert result == foundComments + Walk(node, text, scan) by {
      assert node.children[..|node.children|] == node.children;
    }
  }

  /** The walk does not remove repeats: a comment that the scanner reports both as
      trailing and as leading at the start of an arrow function whose parameter
      starts at the same offset is recorded four times. */
  lemma WalkDoesNotDeduplicate(text: string, scan: Scanner)
    requires text == "/** d */x => x"
    requires scan.leading(text, 0) == Present([CommentRange(0, 8)])
    requires scan.trailing(text, 0) == Present([CommentRange(0, 8)])
    ensures
      var doc := CommentRange(0, 8);
      var param := Node(Parameter, 0, []);
      var arrow := Node(ArrowFunction, 0, [param]);
      Walk(arrow, text, scan)
        == [RecordFor(arrow, text, doc), RecordFor(arrow, text, doc),
            RecordFor(param, text, doc), RecordFor(param, text, doc)]
  {
    var doc := CommentRange(0, 8);
    var param := Node(Parameter, 0, []);
    var arrow := Node(ArrowFunction, 0, [param]);
    assert IsJSDocStart(text, 0);
    assert FilterJSDoc(text, [doc]) == [doc] by {
      assert [doc][1..] == [];
    }
    assert GetJSDocCommentRanges(param, text, scan) == [doc, doc];
    assert GetJSDocCommentRanges(arrow, text, scan) == [doc, doc];
    assert RecordsFor(param, text, [doc, doc]) == [RecordFor(param, text, doc), RecordFor(param, text, doc)] by {
      assert [doc, doc][1..] == [doc];
      assert [doc][1..] == [];
    }
    assert RecordsFor(arrow, text, [doc, doc]) == [RecordFor(arrow, text, doc), RecordFor(arrow, text, doc)] by {
      assert [doc, doc][1..] == [doc];
      assert [doc][1..] == [];
    }
    assert Walk(param, text, scan) == OwnRecords(param, text, scan);
    assert WalkChildren([param], text, scan) == Walk(param, text, scan) by {
      assert [param][1..] == [];
    }
  }
}
