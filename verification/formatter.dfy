/** `Formatter`: flattening a TSDoc document tree into plain text. */
module Formatter {
  import opened Seqs

  /** TSDoc's `DocNode`, reduced to what the renderer distinguishes. */
  datatype DocNode =
    | Absent                                           // a missing node (`undefined`)
    | Excerpt(content: string, children: seq<DocNode>) // a `DocExcerpt`, carrying source text
    | Composite(children: seq<DocNode>)                // any other kind of node

  /** `renderDocNode` as a pure function. */
  function Render(d: DocNode): string
    decreases d, 1
  {
    match d
    case Absent => ""
    case Excerpt(content, children) => content + RenderAll(children)
    case Composite(children) => RenderAll(children)
  }

  /** `renderDocNodes` as a pure function: the renders of `ds`, concatenated. */
  function RenderAll(ds: seq<DocNode>): string
    decreases ds, 0
  {
    if |ds| == 0 then "" else Render(ds[0]) + RenderAll(ds[1..])
  }

  /** The contents of the excerpts of a tree, in depth-first pre-order. */
  function Excerpts(d: DocNode): seq<string>
    decreases d, 1
  {
    match d
    case Absent => []
    case Excerpt(content, children) => [content] + ExcerptsAll(children)
    case Composite(children) => ExcerptsAll(children)
  }

  /** The excerpt contents of a sequence of trees, one tree after the other. */
  function ExcerptsAll(ds: seq<DocNode>): seq<string>
    decreases ds, 0
  {
    if |ds| == 0 then [] else Excerpts(ds[0]) + ExcerptsAll(ds[1..])
  }

  /** Rendering a sequence is a monoid homomorphism: the empty sequence renders to
      the empty string and rendering distributes over concatenation. */
  lemma {:induction false} RenderAllAppend(a: seq<DocNode>, b: seq<DocNode>)
    ensures RenderAll([]) == ""
    ensures RenderAll(a + b) == RenderAll(a) + RenderAll(b)
    decreases |a|
  {
    if |a| == 0 {
      assert a + b == b;
    } else {
      assert (a + b)[0] == a[0];
      assert (a + b)[1..] == a[1..] + b;
      RenderAllAppend(a[1..], b);
      var head := Render(a[0]);
      calc {
        RenderAll(a + b);
        head + RenderAll(a[1..] + b);
        head + (RenderAll(a[1..]) + RenderAll(b));
      }
    }
  }

  /** The render of a tree is the concatenation of its excerpts' contents taken in
      depth-first pre-order: an excerpt's own text precedes its children's, and
      nodes other than excerpts add no text of their own. */
  lemma {:induction false} RenderIsExcerptConcat(d: DocNode)
    ensures Render(d) == Flatten(Excerpts(d))
    decreases d, 1
  {
    match d
    case Absent =>
    case Excerpt(content, children) =>
      RenderAllIsExcerptConcat(children);
      FlattenAppend([content], ExcerptsAll(children));
      assert Flatten([content]) == content + Flatten([]);
    case Composite(children) =>
      RenderAllIsExcerptConcat(children);
  }

  lemma {:induction false} RenderAllIsExcerptConcat(ds: seq<DocNode>)
    ensures RenderAll(ds) == Flatten(ExcerptsAll(ds))
    decreases ds, 0
  {
    if |ds| > 0 {
      RenderIsExcerptConcat(ds[0]);
      RenderAllIsExcerptConcat(ds[1..]);
      FlattenAppend(Excerpts(ds[0]), ExcerptsAll(ds[1..]));
    }
  }

  /** A tree without excerpts, an absent node included, renders to the empty string. */
  lemma RenderWithoutExcerpts(d: DocNode)
    requires Excerpts(d) == []
    ensures Render(d) == ""
  {
    RenderIsExcerptConcat(d);
  }

  /** `Formatter.renderDocNode`: the excerpt's content, if the node is an excerpt,
      then each child's render appended in turn. */
  method RenderDocNode(docNode: DocNode) returns (result: string)
    ensures result == Render(docNode)
    decreases docNode
  {
    result := "";
    if !docNode.Absent? {
      if docNode.Excerpt? {
        result := result + docNode.content;
      }
      ghost var own := result;
      var children := docNode.children;
      for i := 0 to |children|
        invariant result == own + RenderAll(children[..i])
      {
        var childText := RenderDocNode(children[i]);
        ghost var done := RenderAll(children[..i]);
        result := result + childText;
        assert result == own + RenderAll(children[..i + 1]) by {
          assert result == own + (done + Render(children[i]));
          RenderAllSnoc(children[..i], children[i]);
          PrefixSnoc(children, i);
        }
      }
      assert children[..|children|] == children;
    }
  }

  /** `Formatter.renderDocNodes`: the renders of the nodes appended in order. */
  method RenderDocNodes(docNodes: seq<DocNode>) returns (result: string)
    ensures result == RenderAll(docNodes)
  {
    result := "";
    for i := 0 to |docNodes|
      invariant result == RenderAll(docNodes[..i])
    {
      var text := RenderDocNode(docNodes[i]);
      ghost var done := RenderAll(docNodes[..i]);
      result := result + text;
      assert result == RenderAll(docNodes[..i + 1]) by {
        RenderAllSnoc(docNodes[..i], docNodes[i]);
        PrefixSnoc(docNodes, i);
      }
    }
    assert docNodes[..|docNodes|] == docNodes;
  }

  /** Rendering one more node appends its render. */
  lemma RenderAllSnoc(ds: seq<DocNode>, d: DocNode)
    ensures RenderAll(ds + [d]) == RenderAll(ds) + Render(d)
  {
    RenderAllAppend(ds, [d]);
    assert [d][1..] == [];
    calc {
      RenderAll([d]);
      Render(d) + RenderAll([]);
      Render(d);
    }
  }
}
