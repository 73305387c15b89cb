# VoidUi file upload and docs navigation, modelled in Dafny

This project models three small pieces of logic from the VoidUi documentation site and
component registry.

- **`FileUpload` component** (`registry/ui/file-upload.tsx`). The component stages files a
  user picks or drops. Each candidate is checked against a size limit (`maxSizeMB`) and an
  `accept` pattern list. Accepted files replace the staged list, or are appended to it when
  `multiple` is set. Entries can be removed by index. A drag-over flag follows the drag events.
  The module `FileUploadUi` holds a class `FileUpload` with the fields `files` and `dragOver`.
  Its methods are `ProcessFiles`, `HandleDrop`, `HandleChange`, `HandleDragOver`,
  `HandleDragLeave` and `RemoveFile`. The `onError`/`onFileSelect` callbacks become results:
  the list of errors in call order, and the batch handed to `onFileSelect` (`None` when it is
  not called). The accept matcher `IsFileTypeAccepted` is a pure predicate. One
  `processFiles` call is also specified as a pure function `Process`, and the methods are
  proved equal to it.
- **Sidebar grouping** (`app/docs/layout.tsx`, `getSidebarItems`). Docs are grouped by the
  first `/`-segment of their slug. The module `DocsLayout` has the method `GetSidebarItems`,
  which folds the docs into a dictionary plus its insertion order, as the `reduce` does. It is
  proved equal to the reference definition `Sidebar`, and the grouping properties are proved
  about `Sidebar`.
- **Doc pages** (`components/doc-page.tsx`). The module `DocPages` covers slug resolution with
  the `"getting-started"` default, first-match lookup, metadata and the static route
  parameters. For a doc whose slug has no empty segment (no leading, trailing or doubled
  `/`), it proves that the doc's static parameters resolve to its slug. They then render that
  doc, or the first earlier doc with the same slug. Parameters of other slugs are normalised:
  `"a/"` and `"/a"` both resolve to `"a"`.

`Strings` models the JavaScript string operations the code relies on: `split`, `join`,
`trim`, `toLowerCase`, `startsWith`, `endsWith`, `indexOf` and `replace`. `Content` holds the
`Doc` record, and `Wrappers` holds `Option`.

Points where the code behaves differently from what its names suggest. The model follows
the code in each case.

- The code lower-cases only the file name, not the pattern, so `.PNG` never matches by
  extension (`UpperCaseExtensionFallsThrough`).
- A name without a dot gets `"." + name` as its extension. The file `png` is therefore
  accepted by `.png` (`NoDotExtension`).
- Every pattern falls back to exact MIME equality, including a wildcard or extension
  pattern that failed.
- The family wildcard rewrites only the first `/*` of the pattern (`String.replace`).
- An empty `accept` string is falsy, so it switches the type check off.

## Model

| member | source | states |
|---|---|---|
| `FileUploadUi.Extension` | registry/ui/file-upload.tsx:81 | definition of `"." + name.split(".").pop().toLowerCase()`; its properties are in `ExtensionIsLastSegment`, `NoDotExtension` and `ExtensionOfDottedName` |
| `FileUploadUi.AcceptPatterns` | registry/ui/file-upload.tsx:79 | definition of `accept.split(",").map(trim)`; its properties are in `SinglePattern`, `TrailingCommaAcceptsUntyped` and `Strings.TrimShape` |
| `FileUploadUi.PatternMatches` | registry/ui/file-upload.tsx:84-88 | definition of the callback passed to `some`; characterised by `WildcardAcceptsAll`, `FamilyWildcard`, `ExtensionPattern`, `UpperCaseExtensionFallsThrough` and `EmptyPatternMatchesUntyped` |
| `FileUploadUi.IsFileTypeAccepted` | registry/ui/file-upload.tsx:78-89 | definition: some trimmed pattern matches (`AnyPatternMatches` gives the quantified form) |
| `FileUploadUi.AnyPatternMatches` | registry/ui/file-upload.tsx:83-89 | `some` over the trimmed patterns is true iff some pattern at some index matches |
| `FileUploadUi.WildcardAcceptsAll` | registry/ui/file-upload.tsx:84 | an accept list holding `*` or `*/*` accepts every file |
| `FileUploadUi.FamilyWildcard` | registry/ui/file-upload.tsx:85-86 | `X/*`, where X contains no `/*`, is not `*` and does not start with `.`, matches iff the MIME type starts with `X/` or equals the pattern itself |
| `FileUploadUi.ExtensionPattern` | registry/ui/file-upload.tsx:87-88 | a pattern starting with `.` and not ending in `/*` matches iff the file's extension equals it or, falling through, the MIME type equals it |
| `FileUploadUi.UpperCaseExtensionFallsThrough` | registry/ui/file-upload.tsx:81-88 | a pattern starting with `.`, not ending in `/*` and holding an upper-case letter matches only a file whose MIME type is that exact string |
| `FileUploadUi.NoDotExtension` | registry/ui/file-upload.tsx:81 | a name with no dot has `"." +` the lower-cased whole name as its extension |
| `FileUploadUi.ExtensionIsLastSegment` | registry/ui/file-upload.tsx:81 | the extension is `"."` plus the lower-cased text after the name's last dot (the whole name when it has no dot), and holds no further dot |
| `FileUploadUi.ExtensionOfDottedName` | registry/ui/file-upload.tsx:81 | for any `stem`, dots included, and a dot-free `ext`, the extension of `stem.ext` is `.` plus the lower-cased `ext` ("photo.final.PNG" gives ".png") |
| `FileUploadUi.EmptyPatternMatchesUntyped` | registry/ui/file-upload.tsx:84-88 | the empty pattern matches exactly the files whose MIME type is empty |
| `FileUploadUi.TrailingCommaAcceptsUntyped` | registry/ui/file-upload.tsx:79-88 | appending a comma to any accept string makes it accept every file with an empty MIME type |
| `FileUploadUi.SinglePattern` | registry/ui/file-upload.tsx:79 | an accept string with no comma and no surrounding whitespace is a one-pattern list |
| `FileUploadUi.ImageFamilyExample` | registry/ui/file-upload.tsx:85-86 | `image/*` accepts an `image/png` file and rejects a `text/plain` one |
| `FileUploadUi.PngExtensionExample` | registry/ui/file-upload.tsx:81-88 | `.png` accepts `photo.PNG` and rejects `photo.jpg` of type `image/jpeg` |
| `FileUploadUi.SizeLimit` | registry/ui/file-upload.tsx:48 | definition of `maxSizeBytes`, with `None` for `Infinity`; its properties are in `SizeLimitBoundary` and `Verdict` |
| `FileUploadUi.Oversized` | registry/ui/file-upload.tsx:57 | definition of `file.size > maxSizeBytes`; stated as an iff in `Verdict` |
| `FileUploadUi.ChecksType` | registry/ui/file-upload.tsx:64 | definition of the falsy test on `accept`; stated as an iff in `Verdict` |
| `FileUploadUi.Verdict` | registry/ui/file-upload.tsx:57-67 | size error iff `maxSizeMB` is present and non-zero and size > maxSizeMB·1048576; the size check wins over the type check; type error iff not oversized, `accept` non-empty and no pattern matches; every error names the file, and a size error carries the configured `maxSizeMB` |
| `FileUploadUi.SizeLimitBoundary` | registry/ui/file-upload.tsx:48-57 | a file exactly at the limit passes (strict `>`); an absent or 0 limit lets every size through |
| `FileUploadUi.Batch` | registry/ui/file-upload.tsx:54-70 | reference definition of `newFiles`; its properties are in `BatchAppend`, `BatchSound`, `BatchComplete` and `BatchErrorsPartition` |
| `FileUploadUi.Errors` | registry/ui/file-upload.tsx:54-67 | reference definition of the `onError` calls; its properties are in `ErrorsAppend`, `ErrorsSound` and `BatchErrorsPartition` |
| `FileUploadUi.BatchAppend` | registry/ui/file-upload.tsx:54-70 | the accepted batch of `a + b` is the batch of `a` then the batch of `b` (candidate order kept) |
| `FileUploadUi.ErrorsAppend` | registry/ui/file-upload.tsx:54-67 | the errors of `a + b` are those of `a` then those of `b` (candidate order kept) |
| `FileUploadUi.BatchSound` | registry/ui/file-upload.tsx:54-70 | every batch member is a candidate that passed validation, so a rejected file never reaches the batch |
| `FileUploadUi.BatchComplete` | registry/ui/file-upload.tsx:54-70 | every candidate that passes validation is in the batch |
| `FileUploadUi.ErrorsSound` | registry/ui/file-upload.tsx:54-67 | every error is the verdict on some candidate and names that candidate |
| `FileUploadUi.BatchErrorsPartition` | registry/ui/file-upload.tsx:54-69 | batch size plus error count equals the number of candidates: one outcome per candidate |
| `FileUploadUi.ValidateCandidates` | registry/ui/file-upload.tsx:54-70 | the `forEach` loop yields exactly the batch and the error list of the candidates |
| `FileUploadUi.Considered` | registry/ui/file-upload.tsx:52 | definition of `filesToProcess`; its effect is stated by `SingleSelectionIgnoresRest` and the outcome count of `Process` |
| `FileUploadUi.Process` | registry/ui/file-upload.tsx:44-76 | null/empty input changes nothing and reports nothing; `onFileSelect` only gets a non-empty batch of validated candidates; list becomes prev++batch (multiple) or batch, unchanged when no batch; one outcome per considered candidate; single mode keeps at most one file |
| `FileUploadUi.ProcessOutcome` | registry/ui/file-upload.tsx:44-76 | for a non-empty list, the errors are exactly the verdicts on the rejected considered candidates in order, the selection is exactly the batch, and every valid considered candidate is selected |
| `FileUploadUi.SingleSelectionIgnoresRest` | registry/ui/file-upload.tsx:52-55 | with `multiple` off, candidates after the first are dropped with no error |
| `FileUploadUi.SingleSelectionReplaces` | registry/ui/file-upload.tsx:72-75 | with `multiple` off, selecting A then B leaves [B] |
| `FileUploadUi.MultipleSelectionAccumulates` | registry/ui/file-upload.tsx:72-75 | with `multiple` on, selecting [A] then [B] leaves prev++[A, B], and each `onFileSelect` gets only its own batch |
| `FileUploadUi.OversizedRejectedEveryTime` | registry/ui/file-upload.tsx:57-62 | an oversized file yields one size error per submission and never changes the list |
| `FileUploadUi.PairOutcome` | registry/ui/file-upload.tsx:54-70 | an accepted then a rejected candidate give the batch [accepted] and one error for the rejected one |
| `FileUploadUi.MixedBatch` | registry/ui/file-upload.tsx:54-75 | with `multiple` on, [accepted, rejected] appends the accepted file, selects it alone and reports one error |
| `FileUploadUi.SizeLimitExample` | registry/ui/file-upload.tsx:48-62 | a 6 MB file under a 5 MB limit gives "File <name> exceeds the maximum size of 5MB" and no change |
| `FileUploadUi.Decimal` | registry/ui/file-upload.tsx:59 | how the template literal prints a whole `maxSizeMB`: a non-empty string of decimal digits, with a leading `0` only for 0 itself; `DecimalValue` proves the digits denote the number |
| `FileUploadUi.DecimalValue` | registry/ui/file-upload.tsx:59 | the digits `Decimal` prints denote exactly the given number |
| `FileUploadUi.ErrorMessage` | registry/ui/file-upload.tsx:58-65 | every `onError` text begins "File <name> " |
| `FileUploadUi.WithoutIndex` | registry/ui/file-upload.tsx:105 | definition of `filter((_, i) => i !== index)`; its meaning is stated by `WithoutIndexRemovesOne` |
| `FileUploadUi.WithoutIndexRemovesOne` | registry/ui/file-upload.tsx:104-106 | the index filter removes exactly the element at the index, keeps the rest in order, and is the identity out of range |
| `FileUploadUi.FileUpload.constructor` | registry/ui/file-upload.tsx:40-41 | the list starts empty and the drag flag false |
| `FileUploadUi.FileUpload.ProcessFiles` | registry/ui/file-upload.tsx:44-76 | new list, errors and selection equal `Process` of the old list; single mode keeps at most one file |
| `FileUploadUi.FileUpload.HandleDrop` | registry/ui/file-upload.tsx:92-96 | the drag flag ends false and the dropped files are processed as by `Process` |
| `FileUploadUi.FileUpload.HandleChange` | registry/ui/file-upload.tsx:98-102 | the chosen files are processed as by `Process` |
| `FileUploadUi.FileUpload.HandleDragOver` | registry/ui/file-upload.tsx:170-173 | the drag flag becomes true and the list is untouched |
| `FileUploadUi.FileUpload.HandleDragLeave` | registry/ui/file-upload.tsx:174 | the drag flag becomes false and nothing is processed |
| `FileUploadUi.FileUpload.RemoveFile` | registry/ui/file-upload.tsx:104-106 | the list loses exactly the entry at the index (order kept), and is unchanged for an out-of-range index |
| `Strings.Split` | registry/ui/file-upload.tsx:79 | JavaScript `split` by one character; at least one piece; its meaning is stated by `SplitJoin`, `SplitPiecesFree`, `SplitHead` and `SplitManyIffSep` |
| `Strings.IsJsWhitespace` | registry/ui/file-upload.tsx:79 | definition of the characters `trim` removes: JavaScript's WhiteSpace and LineTerminator code points |
| `Strings.Trim` | registry/ui/file-upload.tsx:79 | definition of `trim`; its meaning is stated by `TrimShape` |
| `Strings.MiddleShape` | registry/ui/file-upload.tsx:79 | dropping leading whitespace, then trailing whitespace, leaves a middle part of the string with whitespace on both sides of it and none at its ends |
| `Strings.TrimShape` | registry/ui/file-upload.tsx:79 | `trim` keeps a contiguous middle part with no whitespace at either end and drops only whitespace |
| `Strings.ToLower` | registry/ui/file-upload.tsx:81 | lower-casing keeps the length and maps each character |
| `Strings.SplitTrailingSep` | registry/ui/file-upload.tsx:79 | a trailing separator adds exactly one empty last piece |
| `Strings.StartsWith` | registry/ui/file-upload.tsx:85-87 | definition of `startsWith`: the string begins with the prefix |
| `Strings.EndsWith` | registry/ui/file-upload.tsx:85 | definition of `endsWith`: the string ends with the suffix |
| `Strings.IndexOf` | registry/ui/file-upload.tsx:85 | `indexOf` from position 0; its meaning is stated by `IndexOfFrom` |
| `Strings.IndexOfFrom` | registry/ui/file-upload.tsx:85 | the first occurrence of the pattern (used by `replace`), or none at all |
| `Strings.ReplaceFirst` | registry/ui/file-upload.tsx:85 | definition of `replace` with a string pattern: only the first occurrence is rewritten; used in `FamilyWildcard` |
| `DocsLayout.Category` | app/docs/layout.tsx:13 | definition of `category`, the first split piece; its meaning is stated by `CategoryIsLeadingSegment` |
| `DocsLayout.HasRest` | app/docs/layout.tsx:20 | definition of `rest.length > 0`; its meaning is stated by `CategoryIsLeadingSegment` |
| `DocsLayout.CategoryIsLeadingSegment` | app/docs/layout.tsx:13-20 | the category is the text before the first `/`; a doc has further segments iff its slug holds a `/` |
| `Strings.SplitManyIffSep` | app/docs/layout.tsx:13-20 | `split` gives more than one piece iff the separator occurs |
| `Strings.SplitLast` | registry/ui/file-upload.tsx:81 | the last piece of a split (`pop()`) is the suffix after the last separator, or the whole string when there is none |
| `Strings.SplitHead` | app/docs/layout.tsx:13 | the first piece of a split is the text before the first separator |
| `DocsLayout.Categories` | app/docs/layout.tsx:12-18 | the dictionary keys in insertion order are distinct and non-empty |
| `DocsLayout.ItemsIn` | app/docs/layout.tsx:16-25 | reference definition of `acc[category]`; its properties are in `ItemsMembership`, `ItemsAppend` and `NotListedNoItems` |
| `DocsLayout.Listed` | app/docs/layout.tsx:14 | definition of the `!category` early return: a doc with an empty category adds nothing |
| `DocsLayout.ItemFor` | app/docs/layout.tsx:21-24 | definition of the pushed item: the doc's title and `"/docs/" + slugAsParams` |
| `DocsLayout.Sections` | app/docs/layout.tsx:30-33 | definition of `Object.entries(...).map(...)`: one section per key, in key order, holding that key's items; counted by `TotalItemsSections` |
| `DocsLayout.Sidebar` | app/docs/layout.tsx:12-33 | reference definition of the result: one section per category, in `Categories` order; its properties are in `SidebarItemCount` and the lemmas above |
| `DocsLayout.PrefixStep` | app/docs/layout.tsx:12-28 | one step of the `reduce`: the new doc's category is added if new and non-empty, and its item is appended to that category when it has further segments |
| `DocsLayout.GetSidebarItems` | app/docs/layout.tsx:11-34 | the `reduce` plus `Object.entries` yields exactly `Sidebar(docs)` |
| `DocsLayout.CategoriesMembership` | app/docs/layout.tsx:13-18 | a category appears iff it is non-empty and some doc has it, even a doc adding no item |
| `DocsLayout.CategoriesPrefix` | app/docs/layout.tsx:12-33 | categories of any prefix of the docs are a prefix of all categories: order of first appearance |
| `DocsLayout.NotListedNoItems` | app/docs/layout.tsx:16-25 | a category no doc has holds no items |
| `DocsLayout.ItemsMembership` | app/docs/layout.tsx:20-25 | an item is in category c iff some doc with category c and a `/` in its slug yields it (title, `"/docs/" + slug`) |
| `DocsLayout.ItemsAppend` | app/docs/layout.tsx:12-25 | items of `a + b` are items of `a` then items of `b`: doc order kept |
| `DocsLayout.TotalItemsSections` | app/docs/layout.tsx:30-33 | the item total of the sections is the sum of the per-category item counts |
| `DocsLayout.SidebarItemCount` | app/docs/layout.tsx:12-33 | the total number of items equals the number of docs with a non-empty category and a `/`: nothing duplicated or lost |
| `DocPages.ResolveSlug` | components/doc-page.tsx:13 | the resolved slug is never empty; it equals the joined segments whenever they join to something non-empty, and is "getting-started" when the array is missing or joins to "" |
| `DocPages.DefaultSlugCases` | components/doc-page.tsx:13 | a missing array, `[]` and `[""]` resolve to "getting-started"; `["", ""]` resolves to "/" |
| `DocPages.FindIndexFrom` | components/doc-page.tsx:14 | the first index whose slug matches, or none if no doc matches |
| `DocPages.FindIndex` | components/doc-page.tsx:14 | `find` from the first doc; its meaning is stated by `FindIndexFrom` |
| `DocPages.DocPage` | components/doc-page.tsx:12-18 | not found iff no doc has the resolved slug; otherwise the first doc with that slug |
| `DocPages.GenerateMetadata` | components/doc-page.tsx:37-54 | empty iff the page is not found; otherwise the doc's title and description, repeated under openGraph with type "article" |
| `DocPages.NonEmpty` | components/doc-page.tsx:60 | `filter(Boolean)`: a string is kept iff it is a non-empty member of the input; the identity on lists without empty strings |
| `DocPages.NonEmptyAppend` | components/doc-page.tsx:60 | filtering keeps order: the kept strings of `a + b` are those of `a`, then those of `b` |
| `DocPages.Segments` | components/doc-page.tsx:60 | every static segment is non-empty and free of `/` |
| `DocPages.GenerateStaticParams` | components/doc-page.tsx:58-62 | one entry per doc, in doc order: entry i is `Segments` of doc i's slug, a list of non-empty `/`-free segments |
| `Strings.Join` | components/doc-page.tsx:13 | JavaScript `join` with a one-character separator; its meaning is stated by `SplitJoin` and `JoinSplit` |
| `Strings.SplitJoin` | components/doc-page.tsx:60 | joining the pieces of a split gives back the string |
| `Strings.JoinSplit` | components/doc-page.tsx:13 | splitting a join of separator-free pieces gives back the pieces |
| `DocPages.SegmentsRoundTrip` | components/doc-page.tsx:58-61 | for a slug with no empty segment, joining its segments with `/` gives the slug back |
| `DocPages.SegmentsNormalize` | components/doc-page.tsx:60 | segments are a normal form: segments of the join of segments are the same segments |
| `DocPages.StaticParamsResolve` | components/doc-page.tsx:58-61 | resolving a doc's static params (well-formed slug) renders that doc or the first earlier doc with the same slug |
| `DocPages.EmptySegmentsRouteToDefault` | components/doc-page.tsx:13 | a doc whose slug has no non-empty segment gets params that resolve to "getting-started" instead |

## Left out

- Rendering is not modelled: JSX, `variantClasses`, `sizeClasses`, `renderLabel`, the "N file(s) selected" text and class merging (registry/ui/file-upload.tsx:108-229). It is presentational.
- React and DOM plumbing is not modelled: `useState`, `useRef`, `forwardRef`, the click on the hidden input, resetting the input's value in `handleChange`, and `preventDefault`. `setFiles(prev => ...)` becomes a direct field assignment, since each handler makes one update.
- Browser `File`/`FileList` objects become `FileRec` records and `Option<seq<FileRec>>`. The `if (!file) return;` guard (line 55) has no counterpart: a `FileList` holds no null entries, and `filesArray[0]` exists once the length check has passed.
- FileUploadUi.SizeLimit: `maxSizeMB` is a whole number of megabytes (`Option<nat>`). Fractional or negative JavaScript numbers, `NaN` and `Infinity` are not modelled.
- FileUploadUi.ErrorMessage: the limit is printed as a whole number in decimal; JavaScript's rendering of fractional numbers is not modelled.
- FileUploadUi.Decimal: always prints plain digits, whereas JavaScript switches to exponent form (`1e+21`) at 10^21 and above.
- FileUploadUi.FileUpload.Valid: `multiple`, `accept` and `maxSizeMB` are props that a parent may change between renders while `files` persists. The model fixes them for the component's lifetime (`const props`). The "single mode keeps at most one file" invariant of `Process` and `ProcessFiles` holds only under that assumption: switching `multiple` from true to false leaves every staged file in place.
- Absent `onError`/`onFileSelect` callbacks are not modelled separately. The results are returned either way, and a caller without the callback ignores them.
- Strings.ToLower: maps only ASCII `A`-`Z`, while JavaScript's `toLowerCase` is full Unicode case mapping. A non-ASCII capital in a file name is not lower-cased in the model.
- Strings are sequences of Unicode scalar values, whereas JavaScript strings are UTF-16 code units. Names with surrogate pairs may behave differently.
- DocsLayout.GetSidebarItems: `Object.entries` puts integer-like keys (such as "2024") first, in numeric order. The model keeps plain insertion order and assumes no category is integer-like.
- DocsLayout.GetSidebarItems: a category named after an `Object.prototype` property (`constructor`, `__proto__`, ...) finds `acc[category]` already set in JavaScript, and the later `push` fails. The model treats every category as an ordinary key.
- `notFound()` becomes the value `NotFound`. The `Mdx` body and the `Metadata` object types are not modelled. A `Doc` carries only `slugAsParams`, `title` and `description`. The content-layer configuration and `types/contentlayer.d.ts` are not part of this model.
- `app/layout.tsx`, `next.config.js` and `next-contentlayer2.config.js` have no logic and are left out. The page in `app/docs/[[...slug]]/page.tsx` only forwards to `DocPage`.
