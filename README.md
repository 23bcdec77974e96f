# emojify, modelled in Dafny

emojify replaces emoji with Twemoji `<img>` tags. `New` builds a `Twemoji`
value. It starts from defaults: the official jsDelivr CDN, SVG images and the
class `emoji`. It applies the options in turn (`WithCDN`, `WithClass`,
`WithAttrs`, `WithFormat`) and then loads the catalog of asset file names.

- **Loading.** Each name such as `1f426-200d-2b1b.svg` is split at its dashes
  into hexadecimal code points. These give the emoji's text. From the text the
  loader builds an `<img>` template node and renders it to markup. The entry
  then goes into two places: an index of entries bucketed by their first code
  point, and the text/markup pairs of a string replacer.
- **`replaceEmojis`.** It scans one text node's code points. At each
  non-ASCII code point not inside an earlier match, it takes the first entry
  of that code point's bucket whose text is a prefix of the rest. It then
  builds a `<span>`. The span's children are the text runs between matches
  and copies of the matched entries' templates.
- **`replaceTextNodes`.** It walks an HTML tree and hands every text node to
  `replaceEmojis`. The resulting span replaces the node through
  `replaceChild`, which re-links the parent's and siblings' pointers.

The project has seven modules:

- `Results`: option and result types.
- `Emoji` (emoji.go): the settings, the options, parsing the file names, the
  template node and the loader.
  - `Twemoji` is a class. Its fields are assigned by the options and by
    `load`.
  - `load` is a loop method, proved equal to one pass (`Build`) over the
    catalog.
- `Dom`: HTML nodes as a table of records.
  - `Doc` is a class holding one content record and one link record for each
    node. A node pointer is a position in the table.
  - A ghost `Shape` describes the tree hanging below a node. `Linked` says the
    parent, child and sibling links spell that tree out. `Abs` reads the tree
    back as a value.
- `Matching`: what `replaceEmojis` computes, on plain values.
  - `Hits` gives the matches taken.
  - `Pieces` gives the span's children.
  - `Scan` gives the whole result.
- `Html`: `replaceEmojis` as a method over the table. Its scan loop is proved
  to build exactly the span that `Scan` describes.
- `Splice`: the pointer assignments of `replaceChild`, as functions of the
  table.
- `Rewrite`: `replaceChild` and `replaceTextNodes` as methods.
  - `RewriteKid` states, on tree values, what the walk makes of a node.
  - The walk is proved to leave the table holding that tree, still linked.

Four things are parameters of the model:

- The catalog (`twemojiFiles`, the generated file list) is the `files`
  argument of `Load` and `New`.
- `html.Render` is the `render` argument. It may fail.
- A `WithAttrs` hook is a function value.
- The index given to `replaceEmojis` is the `nodes` field that `load` fills.

## Model

| member | source | states |
|---|---|---|
| Emoji.Dir | emoji.go:166-174 | `svg/` for SVG, `72x72/` for PNG, and `/` exactly when the format is neither; every result ends in a slash |
| Emoji.CdnRoot | emoji.go:125-127 | the href is kept, or gets one slash appended, and the slash is added exactly when the href is non-empty and does not already end in one; a non-empty result ends in a slash; the result is empty only for an empty href |
| Emoji.CdnRootIdempotent | emoji.go:124-131 | normalising a CDN root twice is the same as normalising it once |
| Emoji.WithCDN | emoji.go:124-131 | the option sets the CDN field to the href or the href plus `/`, and the slash is added exactly when it was missing from a non-empty href |
| Emoji.Applied | emoji.go:128-156 | applying an option sets the field it names to its value and leaves the other three fields unchanged |
| Emoji.Configure | emoji.go:48-50 | after the options are applied in order, the last option's value holds for the field it names |
| Emoji.LastWins | emoji.go:48-50 | after all options are applied, an option's value stands when no later option sets the same field |
| Emoji.Unset | emoji.go:42-50 | a field that no option sets keeps its default from the struct literal |
| Emoji.HexDigit | emoji.go:66 | a character is a hexadecimal digit of either case exactly when it has a digit value, and that value is below 16: `c - '0'` for `0`-`9`, `c - 'a' + 10` for `a`-`f`, `c - 'A' + 10` for `A`-`F` |
| Emoji.Digits | emoji.go:66 | when the digit loop succeeds, every remaining character is a hex digit and the value is at least what was read so far; a syntax error means some remaining character is not a hex digit |
| Emoji.ParseHex | emoji.go:66-69 | every failure of the base-16 parse is a number error that carries the offending text |
| Emoji.DigitsMeaning | emoji.go:66 | the digit loop succeeds exactly when all the remaining characters are hex digits and the value stays below 2^64; it then returns that value |
| Emoji.ParseHexMeaning | emoji.go:66 | the parse succeeds exactly when the text is an optionally signed, non-empty hex numeral whose value lies in the signed 64-bit range; the result is that value |
| Emoji.ToRune | emoji.go:70 | the conversion to `rune` wraps to 32 bits: the result is in the int32 range, is congruent to the input modulo 2^32, and is the input itself when the input is in range |
| Emoji.RuneChar | emoji.go:73 | a valid scalar value becomes that character; any other rune becomes U+FFFD |
| Emoji.TextOf | emoji.go:73 | the text has one character per rune, the i-th being that rune's character |
| Emoji.Head | emoji.go:86 | the first code point of a non-empty text |
| Emoji.Ext | emoji.go:61 | the extension is a suffix of the name; a non-empty extension starts with the last dot and has no dot or slash after it; it is empty only when every dot is followed by a slash |
| Emoji.Stem | emoji.go:62 | the stem followed by the extension gives back the file name |
| Emoji.Split | emoji.go:63 | at least one part; the parts contain no separator and, joined with the separator, give back the text |
| Emoji.JoinInjective | emoji.go:63 | two separator-free part lists that join to the same text are equal |
| Emoji.SplitJoin | emoji.go:63 | splitting a join of separator-free parts returns exactly those parts |
| Emoji.StemOf | emoji.go:61-62 | for a stem followed by a well-formed extension, the extension and the stem are recovered exactly |
| Emoji.NameRoundTrip | emoji.go:61-63 | a file name built from dash-free parts and an extension splits back into those parts |
| Emoji.RunesOf | emoji.go:64-71 | succeeds exactly when every part parses; on success it gives one rune per part, each part's parsed value wrapped to int32; on failure it gives the error of the first part that does not parse |
| Emoji.RunesOfFails | emoji.go:65-69 | once a prefix of the parts has failed, the whole list fails with the same error |
| Emoji.ParseRunes | emoji.go:64-71 | the loop over the parts returns at the first failing part, and its result is `RunesOf` of the parts |
| Emoji.AssetName | emoji.go:97-99 | the asset name keeps its length; it is unchanged unless the format is PNG; for PNG the last three characters become `png` and everything before them is kept |
| Emoji.Node | emoji.go:95-117 | the template is an element node named `img` |
| Emoji.NodeAttrs | emoji.go:100-115 | with no hook, the attributes are draggable=false, the class, src = CDN + format directory + asset name, width and height 72, alt = the emoji, in that order; with a hook, they are whatever the hook returns for the emoji and those six defaults |
| Emoji.CrowName | emoji_test.go:20-22 | the crow emoji's asset name splits into `1f426`, `200d` and `2b1b` |
| Emoji.CrowHex | emoji_test.go:20-22 | each of the crow's parts parses to its code point |
| Emoji.CrowRunes | emoji_test.go:20-22 | the crow's parts give the runes U+1F426, U+200D and U+2B1B |
| Emoji.CrowText | emoji_test.go:20-22 | the crow's runes spell the crow emoji |
| Emoji.CrowSrc | emoji_test.go:20-22 | with the defaults the crow's `src` is the official CDN + `svg/1f426-200d-2b1b.svg`; with PNG it is the official CDN + `72x72/1f426-200d-2b1b.png` |
| Emoji.MakeItem | emoji.go:61-83 | a catalog entry, when made, records the file name as its image, has one code point per dash-separated part, and has an `img` element as its node |
| Emoji.MakeItemMeaning | emoji.go:61-83 | a part that does not parse makes the entry fail with a number error; a made entry's i-th code point is the i-th part's rune, its node is the template for its text and file name, and its markup is what rendering that node gave |
| Emoji.Build | emoji.go:60-90 | the pass makes at most one entry per file, and it ends without an error exactly when it made an entry for every file |
| Emoji.BuildMeaning | emoji.go:60-90 | one pass over the catalog: the entries made are those of the files before the first failure, in order; there is no error exactly when every file was made; otherwise the error is the failure of the file right after the made ones |
| Emoji.BuildUnique | emoji.go:60-90 | any entries and error meeting that description are exactly the pass's result |
| Emoji.KeyVals | emoji.go:58-84 | the replacer's arguments are two per entry, the entry's text followed by its markup, in catalog order |
| Emoji.Add | emoji.go:86-89 | the index's keys become the old keys plus the entry's first code point |
| Emoji.Bucket | emoji.go:86-89 | bucketing keeps every key the index had and gives every entry's first code point a bucket |
| Emoji.Filter | emoji.go:86-89 | the entries kept for a code point are no more than the catalog's, and each starts with that code point |
| Emoji.BucketFilter | emoji.go:86-89 | after the entries are bucketed, each bucket is the old bucket followed by the entries with that first code point, in catalog order; a key is present exactly when it was before or some entry starts with it |
| Emoji.FilterMembers | emoji.go:86-89 | an entry belongs to a code point's bucket exactly when it is in the catalog and its text starts with that code point |
| Emoji.FilterJoin | emoji.go:86-89 | bucketing two runs of entries in sequence gives each bucket the first run's entries, then the second's |
| Emoji.Twemoji.constructor | emoji.go:42-47 | a fresh value has the default settings, an empty index and no replacer |
| Emoji.Twemoji.Apply | emoji.go:48-50 | applying an option changes the settings as `Applied` says and leaves the index and the replacer alone |
| Emoji.Twemoji.Entry | emoji.go:61-83 | making one entry from the current settings yields `MakeItem` of them |
| Emoji.Twemoji.Load | emoji.go:57-93 | the error is the pass's error; the index gains the entries made before it, bucketed in catalog order; the replacer is the entries' text/markup list after a complete pass, and is left as it was after a failure |
| Emoji.New | emoji.go:41-55 | the settings are the defaults with the options applied in order; the index and the replacer are those of one pass over the catalog, starting from an empty index and no replacer |
| Dom.Doc.NewNode | html.go:34-38 | a fresh node is added at the end of the table with the given content and no links; nothing else changes |
| Dom.Doc.AppendChild | html.go:41-44 | the link table becomes the one where the child is hung last under the parent |
| Dom.AppendLinked | html.go:43 | appending a detached, disjoint, linked tree as the last child keeps the parent's tree linked, with the new child at the end |
| Dom.AppendAbs | html.go:43 | the parent's tree value gains the appended child's tree as its last child |
| Dom.Appended | html.go:43 | the child's parent link is the parent and its previous sibling the old last child; the parent's last child is the child, and its first child too when it had none; the old last child's next sibling is the child; every other record is unchanged |
| Matching.FirstPrefix | html.go:58-59 | the first position in the bucket whose text is a prefix of the rest; no earlier entry is a prefix; none exactly when no entry is |
| Matching.Blocked | html.go:50-53 | a position is passed over exactly when its code point is ASCII or it lies before the end of the last match (the `skip != 0` test adds nothing) |
| Matching.EligibleMeaning | html.go:50-59 | a position can start a match exactly when its code point is not ASCII, has a bucket, and some entry of that bucket starts the rest of the text |
| Matching.Hits | html.go:49-75 | the scan from a position takes at most one match per remaining code point |
| Matching.Emitted | html.go:58-73 | each match emits its image and at most one text run before it |
| Matching.Scan | html.go:32-87 | no span exactly when the scan takes no match |
| Matching.HitsSound | html.go:49-75 | every match taken starts at an eligible position (non-ASCII, with a prefix in its bucket) and is the first such entry of the bucket |
| Matching.HitsCover | html.go:49-75 | every eligible position outside the text an earlier match consumed is the start of a match or lies inside one |
| Matching.ScanChain | html.go:49-75 | the matches taken lie in the text, each where its emoji's text occurs, each starting no earlier than the previous one ended |
| Matching.ChainOrdered | html.go:70-72 | matches never overlap, and each ends no later than where the last one ended |
| Matching.EmittedText | html.go:61-71 | the children emitted during the scan spell the text up to the end of the last match |
| Matching.Pieces | html.go:58-85 | the emitted children followed by the leftover run spell the whole text |
| Matching.RoundTrip | html.go:32-87 | a span's children spell back the text node's text exactly |
| Matching.NoneIffNoMatch | html.go:76-78 | the result is nil exactly when no position of the text is eligible |
| Matching.ScanMatches | html.go:49-75 | the matches are sound, lie where their text occurs, are in order without overlap, and cover every eligible position |
| Matching.EmittedShape | html.go:58-73 | text runs and images alternate, with no two runs adjacent; images appear in match order |
| Matching.ScanPieces | html.go:32-87 | a span's children alternate between runs and images, and its images are the matched entries in order |
| Html.Emit | html.go:41-44 | the span's tree gains the new node as its last child, and the span stays a linked, detached tree; no node that existed before the span was made changes its links |
| Html.EmitMatch | html.go:58-73 | the span gains the text run before the match, when there is one, and then a copy of the entry's template |
| Html.ScanDone | html.go:76-85 | after the loop, the children built so far plus the leftover run are exactly the children `Scan` describes |
| Html.FirstFit | html.go:58-59 | the loop over a bucket stops at the first entry that starts the rest of the text, or at the bucket's end when none does; that position is the one `FirstPrefix` gives |
| Html.ScanAt | html.go:49-75 | one position of the scan keeps the invariant: the matches so far are those `Hits` takes, and the span holds what they emit |
| Html.ReplaceEmojis | html.go:32-87 | nil exactly when `Scan` finds nothing; otherwise a fresh detached `<span>`, linked, made of new nodes only, whose tree is `Scan`'s children; existing nodes' links are untouched |
| Splice.Spliced | html.go:120-135 | the six pointer assignments of the found-target branch, in order, each reading the table as it then stands; the table keeps its size |
| Splice.ParentRelinked | html.go:120-127 | the parent's first/last child become the replacement where they were the target; no other record changes; without a parent nothing changes |
| Splice.PrevRelinked | html.go:128-131 | the previous sibling now points forward to the replacement, and the replacement points back to it; nothing else changes |
| Splice.NextRelinked | html.go:132-135 | the next sibling now points back to the replacement, and the replacement points forward to it; nothing else changes |
| Splice.SplicedParents | html.go:120-135 | as written, the splice writes no parent link: every node keeps its parent, the replacement included |
| Splice.SplicedLinked | html.go:120-135 | the corrected splice: the replacement's parent is the parent, every other node keeps its parent, and, when its siblings are distinct from it and the target, the replacement takes over the target's siblings |
| Splice.SplicedBreaks | html.go:120-135 | as written, the parent's tree with the replacement in the target's place is linked exactly when the replacement's parent link already pointed at that parent |
| Splice.SpliceLinked | html.go:120-135 | if the replacement's parent link is set as part of the splice, the tree is linked exactly when it is set to the parent |
| Splice.SplicedLinkedKeeps | html.go:120-135 | with the replacement's parent link set, the spliced tree is always linked |
| Rewrite.RewriteText | html.go:93-105 | a text node without a match is kept as it is; otherwise it becomes a `<span>` element without attributes that has one child per piece `Scan` gives |
| Rewrite.RewriteKid | html.go:89-112 | the walk leaves a tree unchanged exactly when no text node in it has a match |
| Rewrite.RewriteTextNode | html.go:93-105 | a text node is left as it is exactly when nothing in it matches; otherwise it becomes the span of `Scan`'s children |
| Rewrite.RewriteKeepsNode | html.go:99-111 | a non-text node keeps its type, data, attributes and number of children |
| Rewrite.NoTextFixed | html.go:99-111 | a tree with no text nodes is left unchanged |
| Rewrite.PartialDone | html.go:99-111 | once the loop has visited every child, the tree is the rewritten tree |
| Rewrite.KidsWalk | html.go:118 | following next-sibling links from the parent's first child visits exactly the children, in order |
| Rewrite.Relink | html.go:120-135 | the link table becomes `Spliced` of the target and the replacement |
| Rewrite.ReplaceChild | html.go:114-140 | true exactly when all three pointers are set and the target is among the parent's children; it then applies `Spliced`; otherwise the table is unchanged |
| Rewrite.ReplaceChildLinked | html.go:114-140 | the same, with the replacement's parent link also set to the parent |
| Rewrite.TextSpliced | html.go:101-105 | with the corrected `replaceChild`, putting a text node's span in its place gives a linked parent tree whose value is the old one with that child rewritten |
| Rewrite.SpliceText | html.go:101-105 | with the corrected `replaceChild`, the text child is rewritten in its parent's tree as `RewriteText` says; the other children keep their shapes, and the text node's own links are untouched; without a parent, or when nothing matched, no existing link changes; when nothing matched, the parent's shape is also unchanged |
| Rewrite.KidSwap | html.go:107-109 | a child subtree replaced in place, linked, leaves the parent's tree linked with that child replaced |
| Rewrite.WalkStep | html.go:99-111 | with the corrected `replaceChild`, one turn of the child loop keeps the invariant: the children visited so far are rewritten, the rest are as they were, and the next pointer is the next unvisited child |
| Rewrite.WalkDone | html.go:99-111 | after the child loop the tree is `RewriteKid` of the old one; every non-text node keeps its identity and its number of children, and a text node without a match keeps its identity; when no text node matched, the shape and every link are as they were |
| Rewrite.ReplaceTextNodes | html.go:89-112 | with the corrected `replaceChild`: nil changes nothing; a text root is replaced in its parent as `RewriteText` says; any other root stays linked, and its tree becomes `RewriteKid` of the old one, with no node outside it touched; every non-text node keeps its identity, as does every text node without a match; when nothing matched, the shape and every existing link are unchanged |

## Left out

- These operations are not modelled:
  - `Replace`, which is a `strings.Replacer` over the text/markup list;
  - `WriteString`, `HTML` and `ReplaceHTML`;
  - the package-level `Default` in global.go, used when a `Twemoji` has no replacer.
  - The model keeps the replacer's argument list and proves what it holds. It does not model the replacer's matching, which is the Go standard library's. It does not model HTML escaping either.
- `html.Render` is a parameter that may fail; the markup it produces is not modelled. `html.EscapeString` is not modelled.
- Go strings are UTF-8 bytes. The model works on code points throughout, so `idx`, `skip`, `consumed` and `len(m.str)` are code-point counts. A catalog with invalid UTF-8 text cannot be expressed. The ASCII test is the same on both.
- `DataAtom`, `Namespace` and the parser-only fields of `html.Node` are not modelled. Nodes differ only by type, data, attributes and links.
- Node pointers are positions in a table, so every node the program can reach is in `Doc`. Allocation appends to the table. Go's garbage collection and pointer aliasing with outside data are not modelled.
- `replaceTextNodes` takes a callback `do`. Here it always calls `ReplaceEmojis` with the loaded index, which is the only value `ReplaceHTML` passes.
- Rewrite.ReplaceTextNodes requires the subtree below the root to be linked (a well-formed `html.Node` tree); Go assumes the same without saying so. Rewrite.ReplaceChild requires the parent's children to be listed by their sibling links; the proof needs that list.
- Rewrite.TextSpliced, Rewrite.SpliceText, Rewrite.WalkStep, Rewrite.ReplaceTextNodes: these use the corrected `replaceChild` (see Findings), so their linkedness results are about the corrected code. With the as-written code the tree is no longer linked after the first splice, because the span's parent link stays nil (Splice.SplicedParents, Splice.SplicedBreaks).
- Emoji.New: Go panics when loading fails. The model returns the error instead, alongside the partly loaded value.
- Emoji.MakeItem: the PNG rename slices off three characters and panics on a file name shorter than that. The model returns `ShortName` at that point.
- The reuse of one `bytes.Buffer` through `Reset` is not modelled. Rendering is a pure function of the node.
- Go's `strconv.ParseInt` error values keep only the failing text and the kind of failure (syntax or range). Both kinds stop `load`, as in Go. The message text is not modelled.
- The scan of `replaceEmojis` is restructured:
  - one turn of its outer loop is the method `ScanAt`;
  - the inner loop over a bucket is the method `FirstFit`, proved to stop where `FirstPrefix` says;
  - the labelled `continue scan` is modelled as leaving the bucket search.
- Keycap emoji such as 6️⃣ start with an ASCII digit, so `replaceEmojis` never starts a match there (`Blocked`). This is the source's behaviour, and the model keeps it. Only `Replace` handles them.

## Findings

| source | as written | input that shows it | evidently intended | confidence | as-written member | corrected member |
|---|---|---|---|---|---|---|
| html.go:120-135 | `replaceChild` re-links the parent's first/last child and both siblings to the replacement, but never sets `replace.Parent`, which stays nil for the span `replaceEmojis` returns | a `<p>` whose only child is the text `🌎`: afterwards `p.FirstChild` is the span, but the span's `Parent` is nil, so the tree's parent links no longer match its child links (and x/net/html's `RemoveChild` on the span would panic) | also set `replace.Parent = p`, so that the replacement is a proper child of the parent | medium, not executed | Splice.SplicedBreaks, Splice.SplicedParents, Rewrite.ReplaceChild | Splice.SplicedLinkedKeeps, Rewrite.ReplaceChildLinked |
