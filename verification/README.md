# Documentation-comment extraction, modelled in Dafny

This project models the hand-written core of `code-posts`'s comment discovery
(`src/extract-comments.ts`). That core has four parts:

- **Declaration classifier** (`isDeclarationKind`). A fixed set of 33 TypeScript syntax
  kinds that may own a documentation comment.
- **Range gathering** (`getJSDocCommentRanges`). For a node, it asks the compiler's
  scanner for the comment ranges at the node's start. Trailing ranges come first, but
  only for five kinds. Leading ranges follow. It then keeps only the ranges whose text
  opens with the doc-comment sigil: slash, star, star, and not the empty doc comment.
- **Comment walk** (`walkCompilerAstAndFindComments`). A pre-order walk over the syntax
  tree. For every declaration node it appends one record (node plus text range) per
  gathered range to an accumulator.
- **Renderer** (`Formatter.renderDocNode` / `renderDocNodes`). A depth-first flattening
  of a TSDoc document tree into the text of its excerpts.

`parse` ties these together: one rendered summary per found comment, in the order the
comments were found.

The model is functional:

- The syntax tree is a datatype `Node(kind, pos, children)`.
- The document tree is a datatype `DocNode`, which has an `Absent` case for `undefined`.
- The walk and the renderer are recursive pure functions. Each is paired with a method
  that mirrors the source's imperative loop, and the method is proved equal to the
  function.
- Two foreign libraries are modelled as function-valued parameters, because their
  internals are not visible:
  - The compiler's `getLeadingCommentRanges` / `getTrailingCommentRanges` are the
    fields of the `Scanner` datatype. They return `Option<seq<CommentRange>>`, where
    `Missing` stands for `undefined`, so the source's `|| []` is `ValueOr([])`.
  - TSDoc's parse of a comment into its summary section is the `summaryOf` parameter.

Modules: `Optional`, `Seqs` (shared sequence facts), `Syntax`, `CommentRanges`,
`CommentWalk`, `Formatter`, `ExtractComments`.

Facts about the code that the model makes explicit:

- The code does not deduplicate comment ranges. The comment at
  src/extract-comments.ts:118-119 says that the kind filter is what keeps a comment from
  being found twice, as for a method and its `public` keyword
  (`CommentWalk.ModifierKeywordOwnsNothing`). Yet a range that the scanner reports both
  as trailing and as leading is recorded twice, and so is a range reported at two
  declaration nodes with the same start, such as an arrow function and its first
  parameter (`CommentWalk.WalkDoesNotDeduplicate`).
- The classifier at src/extract-comments.ts:44-80 names 33 kinds.
- `comments` always renders the summary section of the parsed comment
  (src/extract-comments.ts:30-42), never another section.
- When nothing is found, `parse` writes a log line and returns the empty list.

## Model

| member | source | states |
|---|---|---|
| `Syntax.ClassifierExactly` | src/extract-comments.ts:44-80 | the classifier holds for a kind exactly when it is one of the 33 listed declaration kinds, and is false for every other kind |
| `Syntax.IsDeclarationKind` | src/extract-comments.ts:44-80 | `ParenthesizedExpression` is not a declaration kind, and neither is any kind the code never names (`OtherKind`) |
| `CommentRanges.CharAt` | src/extract-comments.ts:99-101 | `charCodeAt` yields a character exactly when the offset lies inside the text, and then the character at that offset; outside the text it yields `NaN` (`Missing`), which equals no character |
| `CommentRanges.JSDocStartCharacterized` | src/extract-comments.ts:96-102 | a range at `pos` passes the sigil test iff the text has `**` at `pos+1..pos+3` and either ends at `pos+3` or has no `/` there. An out-of-range `charCodeAt` fails the `*` tests but passes the `!== '/'` test |
| `CommentRanges.SigilExamples` | src/extract-comments.ts:96-102 | the doc comment `/** x */` is kept; `/**/`, `/* x */` and `//* x` are dropped; a text cut off right after `/**` is kept |
| `CommentRanges.FilterJSDocKeepsExactly` | src/extract-comments.ts:97-102 | the filter keeps a range iff it passes the sigil test, keeps it as often as it occurs, and returns a subsequence of its input in the original order |
| `CommentRanges.FilterAppend` | src/extract-comments.ts:97-102 | filtering distributes over concatenation, so kept ranges from an earlier block precede those from a later block |
| `CommentRanges.GathersTrailing` | src/extract-comments.ts:85-93 | trailing ranges are asked for exactly for `Parameter`, `TypeParameter`, `FunctionExpression`, `ArrowFunction` and `ParenthesizedExpression` |
| `CommentRanges.GetJSDocCommentRanges` | src/extract-comments.ts:82-103 | the result is the kept trailing ranges followed by the kept leading ranges; for every other kind it is the kept leading ranges alone |
| `CommentRanges.GetJSDocCommentRangesSound` | src/extract-comments.ts:83-102 | the result is an order-preserving subsequence of trailing-then-leading candidates. A candidate is in it iff it passes the sigil test, and then exactly as often as it is a candidate, so nothing is invented, dropped or merged |
| `CommentRanges.TrailingIgnoredOutsideTrailingKinds` | src/extract-comments.ts:85-94 | for a kind outside the five, the trailing scanner plays no part: scanners that agree on leading comments give the same ranges |
| `CommentWalk.RecordsFor` | src/extract-comments.ts:132-137 | one record per range; each record carries the node, the file's text, and exactly one of the ranges |
| `CommentWalk.RecordsForIndex` | src/extract-comments.ts:132-137 | record `i` carries range `i`, so the records follow the order of the ranges |
| `CommentWalk.PushRecords` | src/extract-comments.ts:132-137 | the push loop appends exactly the node's records, in range order, after the existing entries |
| `CommentWalk.WalkSound` | src/extract-comments.ts:120-137 | every record's node lies in the walked tree and is of a declaration kind, and its `[pos, end)` is exactly one of the ranges gathered for that node |
| `CommentWalk.WalkComplete` | src/extract-comments.ts:120-141 | every gathered range of every declaration node in the tree is recorded, with that node as owner |
| `CommentWalk.WalkIsPreOrder` | src/extract-comments.ts:110-142 | the walk's records are each node's own records, taken in the pre-order listing of the tree |
| `CommentWalk.WalkChildrenIsPreOrder` | src/extract-comments.ts:141 | walking a node's children one after another gives their records in the pre-order listing of the children's subtrees |
| `CommentWalk.WalkChildrenAppend` | src/extract-comments.ts:141 | children are visited in order: the walk over two runs of children is the first run's records followed by the second's |
| `CommentWalk.NodeBeforeDescendants` | src/extract-comments.ts:120-141 | a node's own records come before all records of its descendants, and child `i`'s records sit between those of earlier and later children |
| `CommentWalk.ParenthesizedExpressionOwnsNothing` | src/extract-comments.ts:85-94 | `ParenthesizedExpression` gathers trailing ranges, but it is not a declaration kind, so in the walk it never owns a record |
| `CommentWalk.ModifierKeywordOwnsNothing` | src/extract-comments.ts:118-141 | a `public` keyword starting where its method starts is offered the same comments as the method, but the classifier excludes it, so the walk over the method records the method's comments once each, all owned by the method |
| `CommentWalk.WalkCompilerAstAndFindComments` | src/extract-comments.ts:110-142 | the accumulator is append-only: the result is the old entries, unchanged and in place, followed by the walk's records for the tree |
| `CommentWalk.WalkDoesNotDeduplicate` | src/extract-comments.ts:118-141 | the walk does not remove repeats. If a comment is reported as trailing and leading at an arrow function and at its parameter, all at one offset, it is recorded four times |
| `Formatter.RenderIsExcerptConcat` | src/extract-comments.ts:8-19 | a rendered node is the concatenation of its excerpts' contents in depth-first pre-order. An excerpt's own text precedes its children's text; an absent or non-excerpt node adds no text of its own |
| `Formatter.RenderAllIsExcerptConcat` | src/extract-comments.ts:21-27 | a sequence of nodes renders to the concatenation, in order, of the excerpt contents of each node |
| `Formatter.RenderAllAppend` | src/extract-comments.ts:21-27 | `renderDocNodes([])` is empty, and `renderDocNodes(a+b)` equals `renderDocNodes(a)` followed by `renderDocNodes(b)` |
| `Formatter.RenderWithoutExcerpts` | src/extract-comments.ts:8-19 | a tree without excerpts renders to the empty string; this includes an absent node |
| `Formatter.RenderDocNode` | src/extract-comments.ts:8-19 | the imperative renderer with its `+=` loop computes the depth-first flattening |
| `Formatter.RenderDocNodes` | src/extract-comments.ts:21-27 | the imperative loop over a node list computes the concatenation of the nodes' renders |
| `ExtractComments.Substring` | src/extract-comments.ts:200 | a range's text is the buffer slice `[pos, end)` when the range is in bounds, and it is never longer than the buffer. The swap of reversed bounds is JavaScript `substring` behaviour on ranges that the program itself rejects at src/extract-comments.ts:135 |
| `ExtractComments.SubstringSymmetric` | src/extract-comments.ts:200 | JavaScript `substring` does not depend on the order of its two bounds. For the program this matters only on paper, since a range with `end < pos` is rejected at src/extract-comments.ts:135 |
| `ExtractComments.Comments` | src/extract-comments.ts:30-42 | `comments(source)` renders the summary section that TSDoc parses out of `source` (`summaryOf(source)`), so its text is that section's excerpt contents concatenated in depth-first order |
| `ExtractComments.Summaries` | src/extract-comments.ts:200 | one rendered summary per found comment; entry `i` is the summary of comment `i`'s text |
| `ExtractComments.Parse` | src/extract-comments.ts:195-201 | `parse` returns exactly one string per found comment, in found order, each being the render of the summary of that comment's text |
| `ExtractComments.ParseFollowsPreOrder` | src/extract-comments.ts:195-200 | `parse`'s output follows source order: node by node in pre-order, each node's comments in gathering order |
| `ExtractComments.ParseEmptyIffNoComments` | src/extract-comments.ts:196-200 | `parse` returns the empty list exactly when the walk found no comment |
| `ExtractComments.EmptyDocCommentYieldsNothing` | src/extract-comments.ts:195-200 | a file whose only candidate is an empty doc comment in front of a function produces no output |

## Left out

- The TypeScript compiler (`getSourceFile`, `createProgram`, `getCompilerOptions`, semantic diagnostics in src/typescript-compiler.ts) is a foreign library. The root node and the file's full text are parameters. The error thrown when the source file cannot be retrieved is not modelled.
- The scanner's `getLeadingCommentRanges` / `getTrailingCommentRanges` are foreign. They are arbitrary total functions held in `Scanner`. A comment range's `kind` and `hasTrailingNewLine` are unused by the code and are omitted.
- `ts.SyntaxKind` numeric values are not modelled. Kinds the code never names are folded into `OtherKind(code)`; only `SourceFile` and `PublicKeyword` are kept by name, for the examples.
- TSDoc is foreign. This covers `TSDocParser.parseString` / `parseRange`, `TSDocConfiguration`, tag definitions, tag grammar, multiplicity and modifier lifting. `comments(source)` is modelled as rendering `summaryOf(source)`, where `summaryOf` is an uninterpreted parameter.
- Offsets (`charCodeAt`, the scanner's `pos`/`end`, `substring`) count the characters of Dafny's `string`, which are Unicode scalar values, where JavaScript counts UTF-16 code units. The `Scanner` is taken to report offsets in these units. A character outside the Basic Multilingual Plane therefore has length 1 here and 2 in JavaScript, and lone surrogates cannot be written. The sigil test compares only ASCII characters, so its verdict at a given offset is unaffected.
- TSDoc's `TextRange` bounds validation is library code and is not modelled. It throws when a range falls outside its buffer or when `end < pos`, so `TextRange.fromStringRange` at src/extract-comments.ts:135 rejects such ranges before `toString` is reached. A range's text is modelled as JavaScript `substring` of the buffer, which clamps out-of-range bounds and swaps reversed ones; on such ranges the model yields text where the program throws.
- `parseTSDoc` is not modelled. Its only call site is commented out, and it only configures TSDoc and logs.
- Console output is not modelled. This covers the `lines` dump in `comments`, the "No code comments were found" line in `parse`, and the unused `foundCommentsSuffix` / `indent` strings of the walk.
- `async` in `parse` is left out. It only wraps the result in a promise.
- Deduplication of comment ranges is absent from the code, so no distinctness of ranges is claimed.
- src/code-posts.ts is I/O and concurrency plumbing and is not part of this model. It covers file discovery, reading and writing files, markdown conversion and `Promise.all`.
