# Blog export converter, modelled in Dafny

`src/index.ts` is a batch script that turns saved HTML blog posts into one
JSON file. Around its file-system plumbing sits a small, pure converter, and
this project models that converter over already-parsed input. It covers:

- `decodeHtml`, which decodes the first `&#x27;` of a string;
- `slugify`, which derives a URL slug from a post title;
- the content-block loop, which turns the direct children of
  `.post-content-body` into text blocks and image galleries and aborts on
  anything else;
- the `split("/").pop()` basename idiom;
- picking the first JSON-LD record typed `Article`, plus the two "missing
  piece" errors;
- the field mapping that builds a `Post`;
- the `.html`/`_` file filter;
- the newest-first date sort.

Modules, one per file:

| file | module | contents |
|---|---|---|
| `wrappers.dfy` | `Wrappers` | `Option` and `Result` |
| `strings.dfy` | `Strings` | JavaScript string primitives: `indexOf`, `replace` with a string pattern (first occurrence only), `startsWith`, `endsWith`, and `split("/").pop()` as `Basename` |
| `lex.dfy` | `Lex` | plain lexicographic order on strings: a strict total order |
| `html_entity.dfy` | `HtmlEntity` | `decodeHtml` |
| `slug.dfy` | `Slug` | the five steps of `slugify`, each with its properties |
| `slug_examples.dfy` | `SlugExamples` | two titles worked through `Slugify` |
| `content.dfy` | `Content` | the parsed `Node` tree, content blocks, conversion errors and the block loop |
| `posts.dfy` | `Posts` | JSON-LD records, per-file conversion, `Post` assembly |
| `batch.dfy` | `Batch` | file filter, conversion of all files, the sort, the whole export |

Design choices:

- Errors are values. Where the script throws, the model returns
  `Failure(e)` with a `ConvertError`:
  - `MissingMetadata(path)` when no record is typed `Article`;
  - `MissingContentBody(path)` when there is no `.post-content-body`;
  - `UnconvertibleNode(node)` for any other direct child;
  - `MissingImageSource(img)` for an `img` without `src`. In the script, `getAttribute("src")` returns `undefined` there, and `.split` throws.
- Reading and parsing a file is a parameter of the export: `read: string -> SourceDocument`.
- Two cases follow the code rather than a natural reading of what `slugify` is for:
  - The apostrophe is deleted before hyphenation.
  - Only the first `ä`, `ö`, `ü`, `ß` and `'` are replaced.

  So `"Müller's Café"` slugifies to `"muellers-caf"`, not `"mueller-s-cafe"`
  (`SlugExamples.MuellersCafe`), and `"Bücher über"` slugifies to
  `"buecher-ber"` (`SlugExamples.SecondUmlautDropped`).

## Model

| member | source | states |
|---|---|---|
| `Strings.IndexOf` | src/index.ts:25 | the result is the leftmost index where the pattern occurs, or none when it occurs nowhere |
| `Strings.ReplaceFirst` | src/index.ts:25 | `replace` with a string pattern: without an occurrence the string is unchanged; otherwise exactly the leftmost occurrence is replaced and the text around it is kept |
| `Strings.Basename` | src/index.ts:72 | `split("/").pop()`: the result has no `/`, is a suffix of the path, and is preceded by a `/` whenever it is shorter than the path |
| `Strings.BasenameUnique` | src/index.ts:72 | any string with those three properties is the basename, so the contract determines the result completely |
| `Strings.BasenameOfJoin` | src/index.ts:106 | `dir + "/" + name` with a `/`-free `name` yields `name` |
| `Strings.BasenameIdempotent` | src/index.ts:106 | taking the basename twice gives the same result as taking it once |
| `HtmlEntity.DecodeHtml` | src/index.ts:24-26 | a string without `&#x27;` is unchanged; otherwise the result is 5 characters shorter, agrees before the first occurrence, has `'` there, and keeps everything after it |
| `HtmlEntity.DecodesOnlyFirst` | src/index.ts:25 | example: `It&#x27;s Anna&#x27;s` decodes to `It's Anna&#x27;s`, so the second entity stays encoded (the general case is `DecodeHtml`'s contract) |
| `HtmlEntity.DecodesOneApostrophe` | src/index.ts:64 | `It&#x27;s great` decodes to `It's great` |
| `Slug.Lowercase` | src/index.ts:94 | lower-casing keeps the length; position by position, an upper-case letter becomes the character `0x20` above it and every other character stays as it is; no upper-case letter remains |
| `Slug.Transliterate` | src/index.ts:95-98 | the four first-occurrence replacements; stated through `Strings.ReplaceFirst`, `Slug.PrepareKeepsPlain` and the worked titles |
| `Slug.Prepare` | src/index.ts:94-99 | lower-casing, transliteration and deletion of the first `'`; stated through `Slug.PrepareKeepsPlain` and `Slug.SlugKeepsAlnums` |
| `Slug.PrepareKeepsPlain` | src/index.ts:94-99 | a title without upper-case letters, `ä`, `ö`, `ü`, `ß` and `'` passes the first six steps unchanged |
| `Slug.DropNonAlnum` | src/index.ts:100 | skipping a run of separators: everything skipped lies outside `[a-z0-9]`, and what is left is empty or starts with a letter or digit |
| `Slug.DropNonAlnumSuffix` | src/index.ts:100 | what is left after skipping the separators is a suffix of the input |
| `Slug.Hyphenate` | src/index.ts:100 | `replace(/[^a-z0-9]+/g, "-")`: the result is empty exactly when the input is, and starts with `-` exactly when the input starts outside `[a-z0-9]`; the full contract is in the lemmas below |
| `Slug.HyphenateShape` | src/index.ts:100 | after replacing every run of characters outside `[a-z0-9]` with `-`, only `[a-z0-9-]` remain and no two `-` are adjacent |
| `Slug.HyphenateKeepsAlnums` | src/index.ts:100 | hyphenation keeps the letters and digits, in order |
| `Slug.HyphenateFixedPoints` | src/index.ts:100 | hyphenation leaves a string unchanged exactly when the string uses only `[a-z0-9-]` and has no `--` |
| `Slug.HyphenateSeparator` | src/index.ts:100 | a non-empty run of separators in front of a word becomes a single `-` |
| `Slug.HyphenateAlnumPrefix` | src/index.ts:100 | a leading run of letters and digits passes through unchanged |
| `Slug.TrimStart` | src/index.ts:101 | the `^-+` half: the result is a suffix of the input, everything removed is `-`, and it does not start with `-` |
| `Slug.TrimEnd` | src/index.ts:101 | the `-+$` half: the result is a prefix of the input, everything removed is `-`, and it does not end with `-` |
| `Slug.TrimHyphens` | src/index.ts:101 | the result is a contiguous piece of the input with only `-` before and after it, and it neither starts nor ends with `-`; so exactly the leading and the trailing run of `-` are removed |
| `Slug.TrimHyphensKeepsAlnums` | src/index.ts:101 | trimming keeps every letter and digit, in order |
| `Slug.Slugify` | src/index.ts:92-101 | every slug uses only `[a-z0-9-]`, has no `--`, and neither starts nor ends with `-` |
| `Slug.SlugKeepsAlnums` | src/index.ts:92-101 | the slug holds exactly the letters and digits of the lower-cased, transliterated title, in order |
| `Slug.SlugifyFixedPoints` | src/index.ts:92-101 | `slugify` leaves a string unchanged exactly when the string is already a slug |
| `Slug.SlugifyIdempotent` | src/index.ts:92-101 | `slugify(slugify(x)) == slugify(x)` |
| `SlugExamples.MuellersCafe` | src/index.ts:92-101 | `"Müller's Café"` becomes `"muellers-caf"` |
| `SlugExamples.SecondUmlautDropped` | src/index.ts:95-100 | `"Bücher über"` becomes `"buecher-ber"`: the second `ü` acts as a separator |
| `Content.Imgs` | src/index.ts:69 | `querySelectorAll("img")` below a node yields only `img` elements |
| `Content.ImgsFindsAll` | src/index.ts:69 | a node is in the search result exactly when it is an `img` element lying below the searched nodes |
| `Content.ImgsOfNode` | src/index.ts:69 | searching one node lists that node if it is an `img`, then the `img` elements nested in it; with `Content.ImgsAppend` this makes the result the document-order listing of the `img` elements, each exactly once |
| `Content.ImgsAppend` | src/index.ts:69 | the search visits siblings in order: images under `a + b` are those under `a`, then those under `b` |
| `Content.SourceName` | src/index.ts:72 | the name taken from an `img` never contains `/` |
| `Content.ImageNames` | src/index.ts:70-73 | every failure is a missing `src`; success and the names are stated by the next two lemmas |
| `Content.ImageNamesSucceed` | src/index.ts:69-73 | names are found exactly when every `img` has a `src`; there is one name per image, in order, each the basename of that image's `src` and free of `/` |
| `Content.ImageNamesFail` | src/index.ts:72 | a failure names the first `img` without a `src` |
| `Content.FigureGallery` | src/index.ts:68-77 | a `figure` becomes an `ImageGallery` with one entry per descendant `img`, in document order; each entry is the `/`-free basename of its `src`; the conversion fails exactly when some `img` lacks a `src` |
| `Content.ConvertElement` | src/index.ts:60-82 | one direct child element: a `p` becomes the text block `DecodeHtml(text)`, whose meaning is `HtmlEntity.DecodeHtml`'s contract; a `figure` becomes an image gallery, stated by `Content.FigureGallery`; anything else fails, stated by `Content.UnknownTagAborts` |
| `Content.ExtractBlocks` | src/index.ts:56-83 | the `forEach` over the content body's children; stated by the next three lemmas |
| `Content.ExtractBlocksSucceeds` | src/index.ts:56-79 | extraction succeeds exactly when every element child converts; block `k` is then the conversion of element child `k`, so text nodes add nothing and the block count equals the element count |
| `Content.ExtractBlocksFails` | src/index.ts:57-83 | a failed extraction reports the error of the first element child that does not convert |
| `Content.ExtractBlocksSpec` | src/index.ts:56-83 | both halves of the loop's contract together |
| `Content.ExtractBlocksAppend` | src/index.ts:57-83 | extracting from consecutive runs of children composes: the first failure wins, and otherwise the block lists concatenate |
| `Content.TextNodeSkipped` | src/index.ts:58 | inserting a text node anywhere among the children changes nothing |
| `Content.UnknownTagAborts` | src/index.ts:81-82 | a direct child whose raw tag is neither `p` nor `figure` makes the whole extraction fail, with no partial list |
| `Content.DivAborts` | src/index.ts:81-82 | a `div` after a paragraph aborts with `UnconvertibleNode` for that `div` |
| `Content.ParagraphDecoded` | src/index.ts:58-65 | a text node followed by `<p>It&#x27;s great</p>` yields the single block `It's great` |
| `Posts.FindArticle` | src/index.ts:42-45 | `.find` over the parsed records; stated by `Posts.FindArticleSpec` |
| `Posts.FindArticleSpec` | src/index.ts:42-45 | the search finds nothing exactly when no record has `@type` `Article`, and otherwise finds the first such record |
| `Posts.ConvertFile` | src/index.ts:38-88 | the per-file callback; stated by `Posts.ConvertFileSpec` |
| `Posts.ConvertFileSpec` | src/index.ts:38-88 | a file converts exactly when it has an `Article` record and a content body whose blocks all convert. The result pairs the first `Article` record with those blocks. The metadata check comes first, then the body check, then the block loop. The two missing-piece errors name the path under `data/blog` |
| `Posts.AssemblePost` | src/index.ts:103-118 | the post's title and description are decoded; its slug is the slugified title and is a slug; its image is the basename of `image.url` and has no `/`; its date and content pass through |
| `Posts.PostImageIsFileName` | src/index.ts:106 | an image URL `dir/name` gives the post image `name` |
| `Posts.PostSlugIsFixedPoint` | src/index.ts:105 | slugifying a post's slug again changes nothing |
| `Batch.SourceFiles` | src/index.ts:32-34 | a name is kept exactly when it ends with `.html` and does not start with `_` |
| `Batch.SourceFilesAppend` | src/index.ts:32-34 | filtering commutes with concatenation, so kept names stay in listing order |
| `Batch.SourceFilesSingle` | src/index.ts:33 | filtering a one-name listing keeps the name exactly when it passes the test |
| `Batch.SourceFilesIdempotent` | src/index.ts:32-34 | filtering twice changes nothing |
| `Batch.ConvertAll` | src/index.ts:36-90 | `Promise.all` over the per-file callbacks; stated by the next two lemmas |
| `Batch.ConvertAllSucceeds` | src/index.ts:36-90 | converting all files succeeds exactly when every file converts; the results are then in listing order |
| `Batch.ConvertAllFails` | src/index.ts:36-90 | a failed run reports the error of one of the files |
| `Batch.AssembleAll` | src/index.ts:103-118 | one post per conversion, at the same position, each built by `Posts.AssemblePost`; their well-formedness is stated by `Batch.ExportPosts` |
| `Batch.Insert` | src/index.ts:119 | inserting into a newest-first list keeps it newest first and adds exactly that post |
| `Batch.SortNewestFirst` | src/index.ts:119 | the sorted list is newest first and is a permutation of the input |
| `Batch.InsertKeepsDateOrder` | src/index.ts:119 | an inserted post goes ahead of existing posts of its date |
| `Batch.SortIsStable` | src/index.ts:119 | posts with the same date keep their listing order |
| `Batch.SortSwapsPair` | src/index.ts:119 | two posts listed oldest first come out newest first |
| `Batch.JuneBeforeJanuary` | src/index.ts:119 | a `2024-01-01` post listed before a `2024-06-01` post is exported after it |
| `Batch.ExportPosts` | src/index.ts:31-119 | the export succeeds exactly when every source file converts. Its posts are then newest first, one per source file, a permutation of the assembled conversions, each with a well-formed slug and a `/`-free image. A failed export reports the error of one of the source files |
| `Lex.LessIsLessAt` | src/index.ts:119 | the recursive order agrees with the textbook definition: a proper prefix, or a smaller character at the first difference |
| `Lex.LessIrreflexive` | src/index.ts:119 | no date sorts before itself |
| `Lex.LessTransitive` | src/index.ts:119 | the order is transitive |
| `Lex.LessAsymmetric` | src/index.ts:119 | the order is asymmetric |
| `Lex.LessTotal` | src/index.ts:119 | any two different dates are ordered one way or the other |
| `Lex.IsoDatesOrder` | src/index.ts:119 | `2024-01-01` sorts before `2024-06-01` and not after it |

## Left out

- File-system I/O (`readdir`, `readFile`, `writeFile`, `copyFile`, `rimraf`) and the asset-copy loop at src/index.ts:126-143. They have no logic to state. Reading and parsing a file is the `read` parameter of `Batch.ExportPosts`.
- `node-html-parser` and its `querySelector`/`querySelectorAll` semantics. The content body arrives as its child nodes, or as nothing when no `.post-content-body` exists.
- The `img` search is modelled as a pre-order walk that matches the raw tag `img` case-sensitively.
- Only text and element nodes are modelled. The parser drops comments by default. A comment node would fall through to the abort at src/index.ts:81-82.
- `JSON.parse` and `JSON.stringify`. JSON-LD records arrive parsed and reduced to the fields the script reads.
- A record lacking `headline`, `image.url`, `datePublished` or `description`, or holding a non-string there, is not modelled. Every field is a string.
- `Batch.ConvertAllFails`: states only that the error is one of the files' errors. `Promise.all` rejects with whichever conversion fails first in time, which depends on I/O scheduling. The function itself returns the first failure in listing order.
- `Slug.Lowercase`: `toLowerCase` is modelled for ASCII `A`-`Z` and the Latin-1 capitals U+00C0..U+00DE except U+00D7. Every other character is left as is, which is the identity on `[a-z0-9-]`. Full Unicode case mapping, including one-to-many mappings, is not modelled.
- `Lex.Less`: `localeCompare` is modelled as plain lexicographic order by character code. This order is chronological for ISO 8601 dates, the only strings the script compares.
- `Batch.SortNewestFirst`: modelled as a stable insertion sort, matching the stability of `Array.prototype.sort`. The run time of the engine's sort is not modelled.
- `console.log` diagnostics (src/index.ts:81, 124, 127, 145).
- Slug uniqueness across posts is not enforced by the script, so it is not stated.
