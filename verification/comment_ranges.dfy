/** Gathering the documentation-comment ranges of one syntax node: ask the
    compiler's scanner for the comments around the node's start and keep the
    ones that open with the documentation sigil (slash, star, star). */
module CommentRanges {
  import opened Optional
  import opened Seqs
  import opened Syntax

  /** A comment span `[pos, end)` of the file's text, as the scanner reports it. */
  datatype CommentRange = CommentRange(pos: nat, end: nat)

  /** The compiler's comment scanner, whose internals are not modelled: given the
      file's text and an offset, it reports the comments before (leading) or after
      (trailing) that offset, or nothing at all (`undefined`). */
  datatype Scanner = Scanner(
    leading: (string, nat) -> Option<seq<CommentRange>>,
    trailing: (string, nat) -> Option<seq<CommentRange>>)

  /** `text.charCodeAt(i)` compared with a character: the character at `i`, or
      `Missing` (`NaN`, which equals no character code) when `i` is outside the
      text. Offsets count the characters of `string`, that is Unicode scalar values,
      where JavaScript counts UTF-16 code units; the scanner is taken to report its
      offsets in the same units. */
  function CharAt(text: string, i: int): (r: Option<char>)
    ensures r.Present? <==> 0 <= i < |text|
    ensures r.Present? ==> r.value == text[i]
  {
    if 0 <= i < |text| then Present(text[i]) else Missing
  }

  /** The sigil test applied to a comment starting at `pos`: its second and third
      characters are `*` and its fourth is not `/` (a missing fourth character passes). */
  predicate IsJSDocStart(text: string, pos: nat) {
    && CharAt(text, pos + 1) == Present('*')
    && CharAt(text, pos + 2) == Present('*')
    && CharAt(text, pos + 3) != Present('/')
  }

  /** The sigil test in terms of the text alone: `**` at offsets `pos+1` and `pos+2`,
      and either the text ends there or the next character is not `/`. */
  lemma JSDocStartCharacterized(text: string, pos: nat)
    ensures IsJSDocStart(text, pos) <==>
      && pos + 3 <= |text|
      && text[pos + 1..pos + 3] == "**"
      && (pos + 3 == |text| || text[pos + 3] != '/')
  {
  }

  // The boundary cases of the sigil: a documentation comment is kept; the empty
  // documentation comment, an ordinary block comment and a line comment are
  // dropped; a comment cut off right after its sigil is kept.
  lemma SigilExamples()
    ensures IsJSDocStart("/** x */", 0)
    ensures !IsJSDocStart("/**/", 0)
    ensures !IsJSDocStart("/* x */", 0)
    ensures !IsJSDocStart("//* x", 0)
    ensures IsJSDocStart("/**", 0)
  {
  }

  /** `Array.prototype.filter` with the sigil test. */
  function FilterJSDoc(text: string, cs: seq<CommentRange>): seq<CommentRange> {
    if |cs| == 0 then []
    else
      var rest := FilterJSDoc(text, cs[1..]);
      if IsJSDocStart(text, cs[0].pos) then [cs[0]] + rest else rest
  }

  /** The filter keeps exactly the ranges that pass the sigil test, each as often as
      it occurs, and in their original order: the result is the subsequence of `cs`
      made of the passing ranges. */
  lemma {:induction false} FilterJSDocKeepsExactly(text: string, cs: seq<CommentRange>)
    ensures forall c :: c in FilterJSDoc(text, cs) <==> c in cs && IsJSDocStart(text, c.pos)
    ensures forall c :: multiset(FilterJSDoc(text, cs))[c]
                        == (if IsJSDocStart(text, c.pos) then multiset(cs)[c] else 0)
    ensures IsSubsequence(FilterJSDoc(text, cs), cs)
    decreases |cs|
  {
    if |cs| > 0 {
      FilterJSDocKeepsExactly(text, cs[1..]);
      assert cs == [cs[0]] + cs[1..];
    }
  }

  /** Filtering distributes over concatenation, so the kept ranges of `a` come
      before the kept ranges of `b`. */
  lemma {:induction false} FilterAppend(text: string, a: seq<CommentRange>, b: seq<CommentRange>)
    ensures FilterJSDoc(text, a + b) == FilterJSDoc(text, a) + FilterJSDoc(text, b)
    decreases |a|
  {
    if |a| == 0 {
      assert a + b == b;
    } else {
      assert (a + b)[0] == a[0];
      assert (a + b)[1..] == a[1..] + b;
      FilterAppend(text, a[1..], b);
    }
  }

  /** The five kinds for which trailing comments are gathered as well. */
  const TrailingKinds: set<SyntaxKind> :=
    {Parameter, TypeParameter, FunctionExpression, ArrowFunction, ParenthesizedExpression}

  /** The `switch` on the node's kind that decides whether trailing comments are asked for. */
  function GathersTrailing(kind: SyntaxKind): (r: bool)
    ensures r <==> kind in TrailingKinds
  {
    match kind
    case Parameter | TypeParameter | FunctionExpression | ArrowFunction | ParenthesizedExpression => true
    case _ => false
  }

  /** The trailing candidates: the scanner's trailing comments at the node's start
      for the kinds of `TrailingKinds`, nothing for the others. */
  function TrailingCandidates(node: Node, text: string, scan: Scanner): seq<CommentRange> {
    if GathersTrailing(node.kind) then scan.trailing(text, node.pos).ValueOr([]) else []
  }

  /** The leading candidates: the scanner's leading comments at the node's start. */
  function LeadingCandidates(node: Node, text: string, scan: Scanner): seq<CommentRange> {
    scan.leading(text, node.pos).ValueOr([])
  }

  /** `getJSDocCommentRanges`: the trailing candidates followed by the leading ones,
      keeping only those that pass the sigil test. The kept trailing ranges come
      before the kept leading ones, and for a kind outside `TrailingKinds` only
      leading ranges are considered. */
  function GetJSDocCommentRanges(node: Node, text: string, scan: Scanner): (r: seq<CommentRange>)
    ensures r == FilterJSDoc(text, TrailingCandidates(node, text, scan))
               + FilterJSDoc(text, LeadingCandidates(node, text, scan))
    ensures node.kind !in TrailingKinds ==> r == FilterJSDoc(text, LeadingCandidates(node, text, scan))
  {
    var trailing := TrailingCandidates(node, text, scan);
    var leading := LeadingCandidates(node, text, scan);
    FilterAppend(text, trailing, leading);
    FilterJSDoc(text, trailing + leading)
  }

  /** The gathered ranges are an order-preserving subsequence of the trailing
      candidates followed by the leading ones; a candidate is among them exactly
      when it passes the sigil test, and then as often as it is a candidate, so no
      range is invented and none is dropped or merged. */
  lemma GetJSDocCommentRangesSound(node: Node, text: string, scan: Scanner)
    ensures var r := GetJSDocCommentRanges(node, text, scan);
      var candidates := TrailingCandidates(node, text, scan) + LeadingCandidates(node, text, scan);
      && IsSubsequence(r, candidates)
      && (forall c :: c in r <==> c in candidates && IsJSDocStart(text, c.pos))
      && (forall c :: multiset(r)[c] == (if IsJSDocStart(text, c.pos) then multiset(candidates)[c] else 0))
  {
    FilterJSDocKeepsExactly(text, TrailingCandidates(node, text, scan) + LeadingCandidates(node, text, scan));
  }

  /** For every kind outside `TrailingKinds` the scanner's trailing comments play
      no part: two scanners that agree on leading comments give the same ranges. */
  lemma TrailingIgnoredOutsideTrailingKinds(node: Node, text: string, s1: Scanner, s2: Scanner)
    requires node.kind !in TrailingKinds
    requires s1.leading(text, node.pos) == s2.leading(text, node.pos)
    ensures GetJSDocCommentRanges(node, text, s1) == GetJSDocCommentRanges(node, text, s2)
  {
  }
}
