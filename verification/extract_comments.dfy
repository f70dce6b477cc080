/** `parse`: walk a source file's tree and turn every documentation comment found
    into the rendered text of its summary section, in the order found. */
module ExtractComments {
  import opened Optional
  import opened Syntax
  import opened CommentRanges
  import opened CommentWalk
  import opened Formatter
  import opened Seqs

  /** JavaScript's `s.substring(start, end)` for non-negative arguments: both are
      clamped to the length of `s`, and swapped when `start` exceeds `end`. */
  function Substring(s: string, start: nat, end: nat): (r: string)
    ensures start <= end <= |s| ==> r == s[start..end]
    ensures end <= start <= |s| ==> r == s[end..start]
    ensures |r| <= |s|
  {
    var a := if start < |s| then start else |s|;
    var b := if end < |s| then end else |s|;
    if a <= b then s[a..b] else s[b..a]
  }

  /** The order of the arguments of `substring` does not matter. */
  lemma SubstringSymmetric(s: string, start: nat, end: nat)
    ensures Substring(s, start, end) == Substring(s, end, start)
  {
  }

  /** `TextRange.toString()`: the text the range spans in its buffer. */
  function TextOf(range: TextRange): string {
    Substring(range.buffer, range.pos, range.end)
  }

  /** `comments(source)`: TSDoc parses `source` (`summaryOf`, whose internals are not
      modelled, yields the summary section of the resulting doc comment), and the
      summary section is rendered. */
  function Comments(source: string, summaryOf: string -> DocNode): (r: string)
    ensures r == Flatten(Excerpts(summaryOf(source)))
  {
    RenderIsExcerptConcat(summaryOf(source));
    Render(summaryOf(source))
  }

  /** The rendered summary of each found comment, one per comment, in order. */
  function Summaries(found: seq<FoundComment>, summaryOf: string -> DocNode): (r: seq<string>)
    ensures |r| == |found|
    ensures forall i :: 0 <= i < |found| ==> r[i] == Comments(TextOf(found[i].textRange), summaryOf)
  {
    if |found| == 0 then []
    else [Comments(TextOf(found[0].textRange), summaryOf)] + Summaries(found[1..], summaryOf)
  }

  /** `parse`: one rendered summary per comment found by the walk from the root of the
      source file (whose full text is `text`), in the order the walk found them. */
  function Parse(root: Node, text: string, scan: Scanner, summaryOf: string -> DocNode): (r: seq<string>)
    ensures |r| == |Walk(root, text, scan)|
    ensures forall i :: 0 <= i < |r| ==>
      r[i] == Comments(TextOf(Walk(root, text, scan)[i].textRange), summaryOf)
  {
    Summaries(Walk(root, text, scan), summaryOf)
  }

  /** The summaries come out in source order: those of a node's comments precede
      those of its descendants, and sibling subtrees follow one another. */
  lemma ParseFollowsPreOrder(root: Node, text: string, scan: Scanner, summaryOf: string -> DocNode)
    ensures Parse(root, text, scan, summaryOf) == Summaries(FlatRecords(PreOrder(root), text, scan), summaryOf)
  {
    WalkIsPreOrder(root, text, scan);
  }

  /** No comment found means no output, and each comment found yields output. */
  lemma ParseEmptyIffNoComments(root: Node, text: string, scan: Scanner, summaryOf: string -> DocNode)
    ensures Parse(root, text, scan, summaryOf) == [] <==> Walk(root, text, scan) == []
  {
  }

  /** A file whose only comment candidate is the empty documentation comment in
      front of a function yields no output at all. */
  lemma EmptyDocCommentYieldsNothing(text: string, scan: Scanner, summaryOf: string -> DocNode)
    requires text == "/**/function f() {}"
    requires scan.leading(text, 0) == Present([CommentRange(0, 4)])
    ensures Parse(Node(SourceFile, 0, [Node(FunctionDeclaration, 0, [])]), text, scan, summaryOf) == []
  {
    var f := Node(FunctionDeclaration, 0, []);
    assert !IsJSDocStart(text, 0);
    assert FilterJSDoc(text, [CommentRange(0, 4)]) == [] by {
      assert [CommentRange(0, 4)][1..] == [];
    }
    assert GetJSDocCommentRanges(f, text, scan) == [];
    assert Walk(f, text, scan) == [];
    assert WalkChildren([f], text, scan) == [] by {
      assert [f][1..] == [];
    }
  }
}
