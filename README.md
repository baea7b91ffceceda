# skylight-docs core, modelled in Dafny

This project models the logic behind the Skylight documentation site. It covers the Rails
documentation engine (`Skylight::Docs::Chapter`, `Chapters`, the application helper and the
`REVISION` constant) and the older `Skylight::Docs` chapter class with its `FormatHelpers`. It
also covers two Middleman build extensions: QuickJump, which nests headings and builds the side
navigation, and LinkCheck, which checks internal links. Finally it covers the tier and price logic
of the pricing calculator script.

Each source file becomes one module:

| module | file |
|---|---|
| `ChapterFile` | lib/skylight/docs/chapter.rb |
| `ChapterList` | lib/skylight/docs/chapters.rb |
| `QuickJump` | lib/quickjump.rb |
| `LegacyDocs` | lib/docs.rb |
| `LegacyChapters` | lib/skylight/docs.rb |
| `LinkCheck` | lib/link_check.rb |
| `PricingCalculator` | src/js/pricing-calculator.js |
| `DocsHelper` | app/helpers/skylight/docs/application_helper.rb |
| `DocsVersion` | lib/skylight/docs/version.rb |

Shared modules:

- `Frontmatter` models the frontmatter regular expression that three of the Ruby files share.
- `RubyText` holds the Ruby and JavaScript string operations the code relies on. It covers line
  anchors `^`/`$`, `split` with and without trailing empties, `String#lines`, `to_i`,
  `File.basename` and Ruby truthiness.
- `Sorting` is an insertion sort standing in for `sort_by`.
- `Wrappers` holds `Option` and `Result`.

How the source's state and effects appear in the model:

- Objects whose fields the source updates in place are classes with those fields:
  - `Chapter` with its memoised `@toc`;
  - the legacy `Chapter` with its memoised `@content`, and the `@@chapters` class variable as a
    `Library` object;
  - the `Checker` with its `@files` hash;
  - the `html_options` hash.
- Loops that update variables are methods whose loop invariants tie them to specification
  functions.
- Raised exceptions are `Failure` results carrying the exception message.
- `puts` warnings and `abort` in the link checker become returned reports and an outcome.
- Rendering (Kramdown), HTML parsing (Nokogiri), `YAML.load` and the file system are parameters:
  - rendered HTML is a string, or a function from markdown to HTML;
  - a page is its links and its sets of element ids and anchor names;
  - a heading is its level, text, `id` attribute and appended children;
  - frontmatter is a map from keys to Ruby values;
  - a folder is a map from file names to contents.

## Model

| member | source | states |
|---|---|---|
| ChapterFile.IdentityOf | lib/skylight/docs/chapter.rb:23-35 | The partial path is the basename without `.md` and without one leading `_`. The id exists exactly when the partial path holds a `-`. |
| ChapterFile.IdentityOfChapterFile | lib/skylight/docs/chapter.rb:23-35 | For `dir/_NN-slug.md`, the partial path is `NN-slug`, the order is the value of the digits `NN`, and the id is `slug`. |
| ChapterFile.WithoutExtension | lib/skylight/docs/chapter.rb:31 | `File.basename(path, ".md")` removes the `.md` suffix only when something is left before it. |
| ChapterFile.WithoutLeadingUnderscore | lib/skylight/docs/chapter.rb:31 | Exactly one leading `_` is removed, if there is one. |
| ChapterFile.SplitFirstAtFirst | lib/skylight/docs/chapter.rb:33 | `split('-', 2)` cuts at the first `-` only. |
| ChapterFile.Chapter.constructor | lib/skylight/docs/chapter.rb:23-35 | The new chapter's basename, partial path, order and id are those `IdentityOf` gives, and no TOC is memoised yet. |
| ChapterFile.Chapter.Compare | lib/skylight/docs/chapter.rb:44-46 | `<=>` is -1, 0 or 1 exactly when this order is lower than, equal to or higher than the other chapter's order. |
| ChapterFile.Chapter.CacheKey | lib/skylight/docs/chapter.rb:51-53 | The key is exactly three items: the basename, `REVISION`, and the edge agent version or `nil`. |
| ChapterFile.TocOf | lib/skylight/docs/chapter.rb:61-74 | The TOC is a prefix of the rendered HTML. It is missing only when the HTML is empty, because `"".split` is empty. |
| ChapterFile.TocSplit | lib/skylight/docs/chapter.rb:61-74 | The TOC holds no `<p>split_toc</p>`. When the marker occurs, the HTML starts with the TOC followed by the marker. Otherwise the TOC is the whole HTML. |
| ChapterFile.Chapter.Toc | lib/skylight/docs/chapter.rb:61-74 | Once set, the memoised TOC is returned as is. On the first call the TOC of the rendered source is computed and stored. |
| ChapterFile.TocIsMemoised | lib/skylight/docs/chapter.rb:61-74 | Two calls, the second with a different renderer, return the same TOC. That TOC is the stored one when there was one, and otherwise the TOC of the first rendering. |
| ChapterFile.TocRetriedAfterNil | lib/skylight/docs/chapter.rb:61-74 | `||=` stores no `nil`: when the first rendering gives no TOC, the second call renders again and returns that TOC. |
| ChapterFile.Chapter.FileWithoutFrontmatter | lib/skylight/docs/chapter.rb:123-127 | With the pattern of line 19: the content is the frontmatter match followed by the result. Without a match the result is the whole content. |
| ChapterFile.Chapter.FrontmatterMap | lib/skylight/docs/chapter.rb:135-139 | The frontmatter is the parsed YAML map. Without one it fails with "No frontmatter found for <basename>". |
| ChapterFile.Chapter.FrontmatterAttr | lib/skylight/docs/chapter.rb:145-147 | Succeeds exactly when the attribute is truthy, and returns its value. Without frontmatter it fails with "No frontmatter found for <basename>". A falsy attribute fails with "Set frontmatter for `<key>` in <basename>". |
| ChapterFile.Chapter.Title | lib/skylight/docs/chapter.rb:86-88 | Succeeds exactly when there is frontmatter and its `title` is truthy, and then returns that `title`. Otherwise it fails with "No frontmatter found for <basename>" or "Set frontmatter for `title` in <basename>". |
| ChapterFile.Chapter.Description | lib/skylight/docs/chapter.rb:79-81 | Succeeds exactly when there is frontmatter and its `description` is truthy, and then returns that `description`. Otherwise it fails with "No frontmatter found for <basename>" or "Set frontmatter for `description` in <basename>". |
| ChapterFile.Chapter.KeepSecret | lib/skylight/docs/chapter.rb:94-96 | `keep_secret?` reads `keep_secret` from the frontmatter without a truthiness check. |
| ChapterFile.ShowInIndex | lib/skylight/docs/chapter.rb:102-108 | The result is `true` when `keep_secret` is falsy. Otherwise it is truthy exactly when `show_for` is set, features are given and they include `show_for`. |
| ChapterFile.Chapter.ShowInIndexFor | lib/skylight/docs/chapter.rb:102-108 | `show_in_index?` for a chapter: `ShowInIndex` of its frontmatter, failing when there is no frontmatter. |
| ChapterList.Wanted | lib/skylight/docs/chapters.rb:8-13 | The glob `_[0-9]*.md` keeps at most the given entries. |
| ChapterList.WantedMembers | lib/skylight/docs/chapters.rb:8-13 | A file is loaded exactly when its name is `_`, a digit, anything, then `.md`. |
| ChapterList.Load | lib/skylight/docs/chapters.rb:8-16 | The chapters come one for one from the matching files, sorted by order, each with the identity of its path. |
| ChapterList.NewChapters | lib/skylight/docs/chapters.rb:18-20 | The stored chapters are a permutation of the input, sorted non-decreasingly by order. |
| ChapterList.FirstHasSmallestOrder | lib/skylight/docs/chapters.rb:18-20 | The first stored chapter has the smallest order of all. |
| ChapterList.OriginsPermutation | lib/skylight/docs/chapters.rb:11-19 | Sorting chapters permutes the files they come from. |
| ChapterList.Chapters.All | lib/skylight/docs/chapters.rb:22-24 | `all` is the stored sequence. |
| ChapterList.Chapters.Find | lib/skylight/docs/chapters.rb:30-32 | Succeeds exactly when some chapter has the id, with the first such chapter. Otherwise it fails with "`<id>` not found", the message of the `ChapterNotFoundError` declared at line 3. |
| ChapterList.Chapters.FindFrom | lib/skylight/docs/chapters.rb:30-32 | The same search started at position `i`. |
| ChapterList.FindAfterSort | lib/skylight/docs/chapters.rb:18-32 | After sorting, `find` succeeds exactly when some input chapter has the id. |
| ChapterList.Chapters.CacheKey | lib/skylight/docs/chapters.rb:37-39 | The key has 3×N items, and items 3i to 3i+2 are chapter i's own key. |
| QuickJump.Dasherize | lib/quickjump.rb:90-92 | The result holds only lower-case letters, digits, `_` and `-`. |
| QuickJump.DasherizeSingleSpaced | lib/quickjump.rb:90-92 | On text of letters, digits, `_`, `-` and single spaces, the id has the text's length, and each character is the lower-cased text character, with `-` for a space. |
| QuickJump.CollapseSpaces | lib/quickjump.rb:91 | `gsub(/\s+/, '-')` never makes the text longer. |
| QuickJump.CollapseSpacesAlphabet | lib/quickjump.rb:91 | No whitespace is left, and every character is `-` or comes from the text. |
| QuickJump.CollapseSpacesNoSpace | lib/quickjump.rb:91 | Text without whitespace is unchanged. |
| QuickJump.CollapseSpacesRun | lib/quickjump.rb:91 | A non-empty run of whitespace becomes a single `-`. |
| QuickJump.CollapseSpacesAppend | lib/quickjump.rb:91 | When no whitespace run crosses the join, collapsing two pieces is collapsing each. |
| QuickJump.CollapseSpacesAround | lib/quickjump.rb:91 | A whitespace run between two pieces that do not touch it with whitespace becomes one `-` between the collapsed pieces. |
| QuickJump.CollapseSingleSpaces | lib/quickjump.rb:91 | On text of id characters and single spaces, the result has the same length and each space becomes `-`, character for character. |
| QuickJump.KeepIdChars | lib/quickjump.rb:91 | Only characters of `[a-z0-9_-]` (case-insensitively) that occur in the text remain, and text made of them is unchanged. |
| QuickJump.KeepIdCharsAppend | lib/quickjump.rb:91 | The deletion works piece by piece: on `a + b` it gives the result on `a` followed by the result on `b`. |
| QuickJump.KeepIdCharsOne | lib/quickjump.rb:91 | One character is kept exactly when it is in `[a-z0-9_-]` (case-insensitively). With `KeepIdCharsAppend` this fixes the result: the id characters, in order. |
| QuickJump.DasherizeIdempotent | lib/quickjump.rb:90-92 | Dasherizing twice is dasherizing once. |
| QuickJump.ParentOf | lib/quickjump.rb:44-55 | A heading's parent is the nearest earlier heading with a strictly smaller level, or none. |
| QuickJump.Id | lib/quickjump.rb:39-52 | A heading's id is at least as long as its dasherized text, and strictly longer than its parent's id. |
| QuickJump.IdEndsWithText | lib/quickjump.rb:39-52 | A heading's id ends with its own dasherized text. |
| QuickJump.ShallowestIsTopLevel | lib/quickjump.rb:44-55 | A heading of the smallest level, such as every `h2`, is top-level. |
| QuickJump.PopLeavesParent | lib/quickjump.rb:44-57 | Popping `last_chain` while the top is not shallower leaves the parent on top. Pushing the heading keeps the chain strictly increasing in level. |
| QuickJump.Pop | lib/quickjump.rb:44-48 | The pop loop stops exactly at the nearest entry with a smaller level. |
| QuickJump.Nest | lib/quickjump.rb:30-58 | The stack loop attaches every heading to its `ParentOf`, with children in document order and ids chained from the parent. |
| QuickJump.IdFromParent | lib/quickjump.rb:39-52 | The id of a top-level heading is its dasherized text, and a child's id is its parent's id, `-`, then its dasherized text. This is the step the stack loop takes. |
| QuickJump.AncestorIdIsPrefix | lib/quickjump.rb:39-52 | Every ancestor's id followed by `-` is a prefix of the heading's id. |
| QuickJump.DifferentParentsDifferentIds | lib/quickjump.rb:50-52 | Equal texts under parents with different ids get different ids. |
| QuickJump.SiblingsShareIds | lib/quickjump.rb:50-52 | Equal texts under the same parent get the same id, so no de-duplication happens. |
| QuickJump.KidsBelowMembers | lib/quickjump.rb:50-55 | A node's children are exactly the headings whose parent it is, in increasing order. |
| QuickJump.PrescribedIsWellFormed | lib/quickjump.rb:30-58 | The nesting is a forest over all headings. |
| QuickJump.SubtreeIsRange | lib/quickjump.rb:30-58 | A heading's subtree is the run of headings from it up to the next one that is not deeper. |
| QuickJump.PreorderIsDocumentOrder | lib/quickjump.rb:30-58 | The preorder walk of `nested` lists every heading exactly once, in document order. |
| QuickJump.NestingOf | lib/quickjump.rb:30-58 | The nesting the stack algorithm builds, with its preorder being the document order. |
| QuickJump.PrescribedIsNestingOf | lib/quickjump.rb:30-58 | The algorithm's result is unique. |
| QuickJump.Mark | lib/quickjump.rb:74-75 | Marking drops the heading's `id` attribute and appends the `dw-nav-token` div. Level and text are kept. |
| QuickJump.MarkAll | lib/quickjump.rb:68-84 | Marking keeps every heading's level and text. |
| QuickJump.MarkRange | lib/quickjump.rb:68-84 | Marking a range marks exactly the headings in it. |
| QuickJump.Li | lib/quickjump.rb:86-88 | The list item is `<li><a href="url">text</a></li>`. |
| QuickJump.NavItemsEmpty | lib/quickjump.rb:68-84 | The emitted list is empty exactly when there are no entries to walk. |
| QuickJump.BuildEntry | lib/quickjump.rb:69-83 | One node marks its subtree, and emits its item with a nested `<ul class="nav">` only when it has children. Without a destination nothing is emitted. |
| QuickJump.BuildTree | lib/quickjump.rb:68-84 | The recursion marks the preorder of the given nodes and emits their navigation items. |
| QuickJump.Process | lib/quickjump.rb:30-65 | Every heading is marked with its chained id, and the navigation emitted is that of the nesting built from the headings. |
| LegacyDocs.Anchorify | lib/docs.rb:129-132 | The anchor starts with `#`. It holds no space, none of `?!.;:` and no upper-case letter. It is at most one longer than the text. |
| LegacyDocs.AnchorifyPointwise | lib/docs.rb:129-132 | On text without `?!.;:`, the anchor is one longer than the text, and after `#` each character is the text's, lower-cased, with `-` for a space. |
| LegacyDocs.AnchorifyAppend | lib/docs.rb:129-132 | The anchor of `a + b` is the anchor of `a` followed by the anchor of `b` without its `#`. |
| LegacyDocs.DropAnchorPunctAppend | lib/docs.rb:131 | `gsub(/[?!.;:]/, '')` works piece by piece. |
| LegacyDocs.DropAnchorPunctOne | lib/docs.rb:131 | One character is deleted exactly when it is one of `?!.;:`. |
| LegacyDocs.AnchorifyPlain | lib/docs.rb:129-132 | Text already in anchor form is only prefixed with `#`. |
| LegacyDocs.AnchorifyIdempotent | lib/docs.rb:129-132 | Anchorifying an anchor's text gives the same anchor. |
| LegacyDocs.Dashify | lib/docs.rb:138-140 | Every `_` becomes `-`, length is kept, and no `_` is left. |
| LegacyDocs.Undashify | lib/docs.rb:142-144 | Every `-` becomes `_`, length is kept, and no `-` is left. |
| LegacyDocs.UndashifyDashify | lib/docs.rb:138-144 | `undashify(dashify(s)) == s` when `s` holds no `-`. |
| LegacyDocs.DashifyUndashify | lib/docs.rb:138-144 | `dashify(undashify(s)) == s` when `s` holds no `_`. |
| LegacyDocs.FilenameAsRoute | lib/docs.rb:134-136 | The route is `/support/` followed by the dashified name, and holds no `_`. |
| LegacyDocs.GetFrontmatter | lib/docs.rb:36-40 | The pattern matches exactly when the text has the frontmatter shape. |
| LegacyDocs.GetContent | lib/docs.rb:28-33 | The text is the match followed by the content. Without a match the content is the whole text. |
| LegacyDocs.LineEntry | lib/docs.rb:83-84 | A line's key holds no `:`. |
| LegacyDocs.LineEntryRoundTrip | lib/docs.rb:83-84 | Key, `:` and value give back the line. A line without `:` is a key with an empty value. |
| LegacyDocs.MetadataKeys | lib/docs.rb:81-85 | The keys of the hash are exactly the keys of the frontmatter lines. |
| LegacyDocs.MetadataFrom | lib/docs.rb:81-85 | Every key of the hash is the key of some frontmatter line. |
| LegacyDocs.LastLineWins | lib/docs.rb:84 | A key's value comes from its last line. |
| LegacyDocs.Metadata | lib/docs.rb:76-91 | Without frontmatter the hash is empty. With frontmatter, `Path` is the file's route. |
| LegacyDocs.GetMetadata | lib/docs.rb:76-91 | The line loop builds `Metadata`. |
| LegacyDocs.ToFLeadingDigit | lib/docs.rb:55 | Whitespace and then a non-zero digit (as in `" 3\n"`) passes the `to_f > 0` filter, whatever follows. |
| LegacyDocs.ToFMinus | lib/docs.rb:55 | Whitespace and then a minus sign (as in `"-2"`) never passes the filter. |
| LegacyDocs.ToFZeroHead | lib/docs.rb:55 | Whitespace, a lone `0`, then anything that cannot continue a number (as in `" 0\n"`) does not pass the filter. |
| LegacyDocs.Kept | lib/docs.rb:52-56 | At most the listed pages are kept, and each kept one has a positive `Order`. |
| LegacyDocs.KeptMembers | lib/docs.rb:52-56 | A page's metadata is kept exactly when its `Order` parses to a positive number. |
| LegacyDocs.GetMetadataArray | lib/docs.rb:49-59 | The result is a permutation of the kept metadata, sorted by the `Order` text. |
| LegacyDocs.OrderComparesText | lib/docs.rb:58 | Orders compare as text: when the first characters differ, the one with the smaller first character sorts first, whatever the lengths, so `"10"` sorts before `"9"`. |
| LegacyDocs.TocEntry | lib/docs.rb:98-120 | A node adds nothing exactly when it is `h2` or its name does not match `/h\d/`. |
| LegacyDocs.TocEntryShape | lib/docs.rb:106-119 | A node that adds something adds `<li class='hN-indent'>`, then an optional marker, and ends with the link to the route and anchor, then `</li>`. |
| LegacyDocs.TocEntryParts | lib/docs.rb:106-119 | A heading other than `h2` gives `<li class='hN-indent'>`, a marker, the link and `</li>`. The marker is empty for `h3`, `* ` for `h5` and `- ` for any other heading. |
| LegacyDocs.TocEntriesEmpty | lib/docs.rb:96-121 | The entries are empty exactly when no node is a heading other than `h2`. |
| LegacyDocs.TocEntriesAppend | lib/docs.rb:98-121 | The TOC of concatenated elements is the concatenation of their TOCs. |
| LegacyDocs.CreateTocString | lib/docs.rb:96-124 | The loop's text, wrapped in `<div class='chapter-wrapper'>…</div>`. |
| LegacyChapters.FirstMissing | lib/skylight/docs.rb:59-63 | The first key whose value is falsy, or none when all are truthy. |
| LegacyChapters.FrontmatterAttrs | lib/skylight/docs.rb:55-64 | Without a YAML map, `frontmatter[key]` raises NoMethodError. |
| LegacyChapters.FrontmatterAttrsChecksInOrder | lib/skylight/docs.rb:55-64 | Success holds exactly when `title`, `description`, `order` and `updated` are all truthy. Otherwise it fails with "Set frontmatter for `<key>`" for the first falsy key, and success sets all four. |
| LegacyChapters.SetFrontmatter | lib/skylight/docs.rb:55-64 | The key loop computes `FrontmatterAttrs`. |
| LegacyChapters.FirstMissingIsFirst | lib/skylight/docs.rb:59-63 | A falsy key after only truthy ones is the one reported. |
| LegacyChapters.Initialize | lib/skylight/docs.rb:19-30 | A built chapter keeps its file name, and its `uri` is `/support/<name>`. |
| LegacyChapters.InitializeChecks | lib/skylight/docs.rb:19-30 | A missing file fails with "File Not Found: <name>", checked first. A chapter exists exactly when its file exists and its frontmatter is complete. Its `uri` is `/support/<name>`. |
| LegacyChapters.BuildAll | lib/skylight/docs.rb:35-37 | Building every listed file yields one chapter per file. |
| LegacyChapters.NameOf | lib/skylight/docs.rb:36 | `File.basename(path, '.md')` holds no `/`. |
| LegacyChapters.NameOfPath | lib/skylight/docs.rb:36 | The path ends with the name, or with the name and `.md`. |
| LegacyChapters.BuildAllStep | lib/skylight/docs.rb:35-37 | Each built file appends its chapter. |
| LegacyChapters.BuildAllFailsAtFirst | lib/skylight/docs.rb:35-37 | The first file that fails decides the error. |
| LegacyChapters.LegacyChapter.constructor | lib/skylight/docs.rb:19-30 | The new chapter holds its record and no rendered content (`@content = nil`). |
| LegacyChapters.LegacyChapter.CleanMarkdown | lib/skylight/docs.rb:67-77 | The file is the frontmatter match followed by the result. Without a match the result is the whole file. |
| LegacyChapters.LegacyChapter.Content | lib/skylight/docs.rb:46-49 | Once rendered, the content is returned as stored. The first call renders the clean markdown and stores it. |
| LegacyChapters.ContentIsMemoised | lib/skylight/docs.rb:46-49 | Two calls return the first rendering, even with a different renderer. |
| LegacyChapters.SortByOrder | lib/skylight/docs.rb:39 | The sort fails exactly when two orders cannot be compared: a number with a string, or `nil`, `true` or `false` with anything else. Otherwise the result is a permutation in which every two chapters are ordered by `<=>` on their orders. |
| LegacyChapters.Library.constructor | lib/skylight/docs.rb:14 | `@@chapters` starts empty. |
| LegacyChapters.Library.Find | lib/skylight/docs.rb:42-44 | Finds the first stored chapter with the filename, or nil when there is none. |
| LegacyChapters.FindFrom | lib/skylight/docs.rb:42-44 | The same search over a sequence. |
| LegacyChapters.FindBeforeAll | lib/skylight/docs.rb:42-44 | `find` before `all` returns nil, because `@@chapters` starts empty (line 14). |
| LegacyChapters.NewChapters | lib/skylight/docs.rb:35-37 | New chapter objects with the built records, or the first build error. |
| LegacyChapters.Library.All | lib/skylight/docs.rb:32-40 | On success `@@chapters` becomes the unsorted new chapters and the sorted list is returned. On failure `@@chapters` is unchanged and the error is raised. |
| LinkCheck.IndexListsOnce | lib/link_check.rb:13-21 | The page table lists each relative path once. |
| LinkCheck.IndexKeys | lib/link_check.rb:17-19 | The keys are exactly the listed files' paths relative to the root. |
| LinkCheck.IndexLastWins | lib/link_check.rb:17-19 | A path's page is the one read last. |
| LinkCheck.SubFirst | lib/link_check.rb:18 | `sub` removes the root prefix when the path starts with it. |
| LinkCheck.Checker.constructor | lib/link_check.rb:13-21 | The loop builds the page table `Index` describes. |
| LinkCheck.Index | lib/link_check.rb:17-19 | At most one key per listed file, and every listed key has a page. |
| LinkCheck.Relative | lib/link_check.rb:18 | For a path under the root, the root, `/` and the result give back the path. |
| LinkCheck.PathAndFragment | lib/link_check.rb:33-36 | Neither part holds `#`. The href starts with the path, and when it holds `#`, with the path, `#` and the fragment. |
| LinkCheck.PathAndFragmentIsRubySplit | lib/link_check.rb:33-36 | Path and fragment are the first two pieces of Ruby's `split('#')`, or `""` where a piece is missing. |
| LinkCheck.PathAndFragmentPlain | lib/link_check.rb:33-36 | An href without `#` is all path. |
| LinkCheck.Normalize | lib/link_check.rb:46-48 | The normalised path is at most `/index.html` longer, and a one-line path stays on one line. Its value is given by NormalizeOneLine. |
| LinkCheck.TrailingOneLine | lib/link_check.rb:46 | On a one-line path, `gsub!(%r[/$], '')` removes the final `/` if there is one, and nothing else. |
| LinkCheck.HtmlIff | lib/link_check.rb:47 | On a one-line path, `/\.html$/` matches exactly when the path ends in `.html`. |
| LinkCheck.NormalizeOneLine | lib/link_check.rb:46-48 | On a one-line path, the key is the path without its final `/`, then with `/index.html` appended unless it ends in `.html`, then without its leading `/`. |
| LinkCheck.NormalizeDirectoryPath | lib/link_check.rb:46-48 | A directory link `/dir/` at any depth, such as `/docs/agent/`, names `dir/index.html`. |
| LinkCheck.NormalizeEndsInHtml | lib/link_check.rb:46-48 | A one-line normalised path ends in `.html`. |
| LinkCheck.NormalizeDirectory | lib/link_check.rb:46-48 | `/dir/` normalises to `dir/index.html`. |
| LinkCheck.NormalizePage | lib/link_check.rb:46-48 | `/name.html` normalises to `name.html`. |
| LinkCheck.DirectoryLosesTrailingSlash | lib/link_check.rb:46 | The trailing `/` of `/dir/` is removed. |
| LinkCheck.LeadingSlashGoes | lib/link_check.rb:48 | The leading `/` of a one-line path is removed. |
| LinkCheck.LinkProblemsCases | lib/link_check.rb:30-64 | External links give no report. An empty fragment after `#` is reported, first. A missing destination is reported as broken and its fragment is not checked. A fragment matching neither an `id` nor an `a[name]` is reported. No report means the link is good. |
| LinkCheck.LinkProblems | lib/link_check.rb:30-64 | One link gives at most two reports, each naming the page and the href. |
| LinkCheck.PageProblems | lib/link_check.rb:27-65 | A page's reports all name that page. |
| LinkCheck.PageRaises | lib/link_check.rb:27-28 | A page raises exactly when one of its links has no `href`. |
| LinkCheck.RunProblems | lib/link_check.rb:26-66 | The run's reports all name listed pages. |
| LinkCheck.RunRaises | lib/link_check.rb:26-28 | The run raises exactly when some page has a link without `href`. |
| LinkCheck.ExternalOnlyPagePasses | lib/link_check.rb:30-31 | A page whose links are all external gives no report. |
| LinkCheck.RunRaisedStays | lib/link_check.rb:26-28 | After a link without `href` raises, later pages add nothing. |
| LinkCheck.Checker.CheckLink | lib/link_check.rb:30-64 | The statements for one link give `LinkProblems`. |
| LinkCheck.Checker.CheckPage | lib/link_check.rb:27-65 | The loop over a page's links gives `PageProblems`. |
| LinkCheck.Checker.Run | lib/link_check.rb:23-71 | The reports are those of `RunProblems`. The run passes exactly when no link failed and aborts exactly when some link failed. |
| PricingCalculator.TiersAscending | src/js/pricing-calculator.js:22-52 | Tiers are listed with strictly increasing `included` and `basePrice`. |
| PricingCalculator.FirstWhere | src/js/pricing-calculator.js:244-250 | The first element satisfying the predicate, or none exactly when no element does. |
| PricingCalculator.FirstWhereSkips | src/js/pricing-calculator.js:244-250 | A satisfying element after only failing ones is the one found. |
| PricingCalculator.FindInArray | src/js/pricing-calculator.js:244-250 | The loop returns `FirstWhere`. |
| PricingCalculator.ReverseIndex | src/js/pricing-calculator.js:218-220 | `reverse` puts element i at position n-1-i. |
| PricingCalculator.BestTier | src/js/pricing-calculator.js:213-227 | The tier is one of `TIERS`, and it is Free exactly when requests ≤ 100,000. |
| PricingCalculator.BestTierByThresholds | src/js/pricing-calculator.js:213-227 | The tier chosen is the one the thresholds 100000, 5e6, 20e6, 50e6 and 100e6 select, falling back to Small. |
| PricingCalculator.BestTierFree | src/js/pricing-calculator.js:213-216 | Free exactly when requests ≤ 100,000. |
| PricingCalculator.BestTierIsLargestCovered | src/js/pricing-calculator.js:218-226 | Above 100,000, the tier is the largest paid tier whose `included` ≤ requests, or Small. |
| PricingCalculator.BestTierMonotone | src/js/pricing-calculator.js:213-227 | More requests never select an earlier tier. |
| PricingCalculator.CeilDiv | src/js/pricing-calculator.js:237 | `Math.ceil(n/d)` for a positive divisor. |
| PricingCalculator.Price | src/js/pricing-calculator.js:229-242 | Up to 100,000 requests the price is 0. Above, it is at least the chosen tier's base price in dollars. |
| PricingCalculator.TierPrice | src/js/pricing-calculator.js:237-241 | The dollar formula for a tier is never below its base price in dollars. |
| PricingCalculator.PriceCents | src/js/pricing-calculator.js:229-242 | Up to 100,000 requests the price is 0 cents. Above, it is at least the chosen tier's base price, which is positive. |
| PricingCalculator.PriceInCents | src/js/pricing-calculator.js:229-242 | `price` is the whole-cents price divided by 100. |
| PricingCalculator.PriceCentsByThresholds | src/js/pricing-calculator.js:234-241 | Above 100,000, the price is the tier's base price plus its per-million price for each started million beyond `included`. |
| PricingCalculator.PriceBounds | src/js/pricing-calculator.js:229-241 | The price is 0 exactly when requests ≤ 100,000. Otherwise it is at least the tier's positive base price. |
| PricingCalculator.PriceMonotone | src/js/pricing-calculator.js:213-242 | More requests never cost less. |
| PricingCalculator.ThresholdsMeet | src/js/pricing-calculator.js:22-52 | Each paid tier's price at the next tier's threshold equals the next base price. |
| PricingCalculator.Initials | src/js/pricing-calculator.js:259-267 | Every character of the short name is `X` or comes from a word. |
| PricingCalculator.InitialsAppend | src/js/pricing-calculator.js:259-267 | The initials of two runs of words are the initials of each, one after the other. |
| PricingCalculator.InitialsPointwise | src/js/pricing-calculator.js:259-267 | Non-empty words give one character each, in order: `X` when the word's second character is `x`, its first character otherwise. |
| PricingCalculator.ShortName | src/js/pricing-calculator.js:252-255 | A name in `SHORT_NAMES` gives its entry. |
| PricingCalculator.ShortNameOfWords | src/js/pricing-calculator.js:252-268 | Outside `SHORT_NAMES`, the short name has at most one character per word of `split(' ')`, each `X` or from the name. When no word is empty, it has exactly one character per word, that word's initial. |
| PricingCalculator.ShortNamesOfLargestTiers | src/js/pricing-calculator.js:252-255 | Through `SHORT_NAMES` (lines 54-57), `XL` stays `XL` and `XXL` becomes `2XL`. |
| PricingCalculator.OneWordName | src/js/pricing-calculator.js:257-267 | A one-word name whose second letter is not `x` shortens to its first letter. |
| DocsHelper.WithScrollClass | app/helpers/skylight/docs/application_helper.rb:11-12 | The class becomes truthy. An existing truthy class is kept, and otherwise it is `js-scroll-link`. No other key changes. |
| DocsHelper.WithScrollClassIdempotent | app/helpers/skylight/docs/application_helper.rb:12 | Defaulting twice is defaulting once. |
| DocsHelper.LinkTo | app/helpers/skylight/docs/application_helper.rb:8-16 | For an anchor URL the forwarded options are the given hash, or a fresh one when nil, with the class defaulted. Otherwise they are forwarded untouched, possibly nil. |
| DocsHelper.AnchorExamples | app/helpers/skylight/docs/application_helper.rb:9 | `/^#/` matches a URL starting with `#` or with `#` after a line break, but never one without `#`. |
| DocsHelper.NoteHeader | app/helpers/skylight/docs/application_helper.rb:18-27 | The header is one of `Pro Tip:`, `IMPORTANT:` and `Note:`. |
| DocsHelper.NoteHeaderCases | app/helpers/skylight/docs/application_helper.rb:18-27 | The header is `Pro Tip:` exactly for `'pro_tip'`, `IMPORTANT:` exactly for `'important'` and `Note:` otherwise. |
| DocsHelper.ImgWidth | app/helpers/skylight/docs/application_helper.rb:29-31 | The style starts with `width: 100%; max-width: `, ends with `px;` and has the width in between. |
| DocsHelper.ImgWidthRoundTrip | app/helpers/skylight/docs/application_helper.rb:29-31 | The width can be read back from the style. |
| DocsVersion.FirstRevisionAt | lib/skylight/docs/version.rb:6 | The first position where `-` and at least six lower-case hex digits run to a line end, or none. |
| DocsVersion.Revision | lib/skylight/docs/version.rb:5-11 | `REVISION` is `VERSION`, or six or more lower-case hex digits. |
| DocsVersion.RevisionOfName | lib/skylight/docs/version.rb:5-11 | A one-line name ending in `-` and six or more lower-case hex digits has that suffix as `REVISION`. Any other name gives `VERSION`. |
| DocsVersion.RevisionAfterLastDash | lib/skylight/docs/version.rb:5-11 | For a one-line name, then `-`, then a one-line tail without `-`, the tail is `REVISION` exactly when it is six or more lower-case hex digits. Otherwise the result is `VERSION`. |
| DocsVersion.RevisionUpperCase | lib/skylight/docs/version.rb:6-10 | A tail with an upper-case hex letter does not qualify, so the result is `VERSION`. |
| DocsVersion.RevisionTooShort | lib/skylight/docs/version.rb:6-10 | A tail of fewer than six characters does not qualify, so the result is `VERSION`. |
| Frontmatter.MatchIffShape | lib/skylight/docs/chapter.rb:19 | The pattern matches exactly when the text has an opening `---` line and a later `---` or `...` line. |
| Frontmatter.Match | lib/skylight/docs/chapter.rb:19 | A match ends within the text. |
| Frontmatter.MatchIsFirstClosing | lib/skylight/docs/chapter.rb:19 | The match ends at the first closing line after the opening one, with its line break. |
| Frontmatter.Strip | lib/skylight/docs/chapter.rb:123-127 | The remainder is a suffix of the text, and match plus remainder is the text. |

## Left out

- Kramdown rendering, CodeRay highlighting, Nokogiri parsing and CSS selection, and `YAML.load` are not modelled. Their results are inputs: rendered HTML, headings, page id and name sets, and frontmatter maps.
- File system access (`Dir[...]`, `File.read`, `File.exist?`, `File.expand_path`) is not modelled. Listings and folders are parameters.
- Rails and Middleman plumbing is not modelled: controllers, the engine, routes and redirects, initializers, the template handler, the `after_render`/`after_build` hooks, `super` in `link_to`, and `is_current_chapter?`.
- `Skylight::Docs.parse`, `get_markdown_filenames` and `get_table_of_contents` are not modelled. They only combine file reading and rendering with the modelled `get_content` and `create_toc_string`.
- The pricing slider is not modelled: its DOM updates, events, log/exp scaling, `snap`, `format` and `floorWithPrecision` all need floating point and a browser.
- PricingCalculator.Price: its `if (!tier)` branch is left out. `bestTier` always returns a tier, so that branch cannot run.
- PricingCalculator.ShortName: `SHORT_NAMES` is a plain map. The lookup of inherited object properties such as `toString` is not modelled.
- `downcase` is ASCII only. Unicode case mapping is not modelled.
- `String#to_f` is modelled as a sign check of the leading number only. Exponents are not modelled.
- Sorting is insertion sort. Where the source sorts, the model proves a sorted permutation. Stability is not claimed, because Ruby's `sort_by` is not stable.
- LegacyChapters.SortByOrder: the error text for incomparable orders stands in for Ruby's `ArgumentError` message. Frontmatter orders are `nil`, booleans, integers, floats and strings. Floats are exact reals, so `NaN` and the infinities are not modelled. Arrays, hashes and dates as orders are not modelled either.
- LegacyChapters.FrontmatterAttrs: a YAML document that is not a mapping is not modelled. A missing or nil document raises, and that is modelled.
- ChapterFile.Chapter.FrontmatterMap: a YAML document that is not a mapping is not modelled either. A scalar such as a string is truthy, so Ruby would return it, and `frontmatter[key]` on a string would then index a substring. The model takes the document as a mapping or nothing.
- DocsHelper.LinkTo: the keys of the `html_options` hash are Ruby symbols, so `"class"` in the model stands for `:class`. A hash passed in with the string key `"class"` keeps that key, and Ruby would add `:class` beside it. The model has one kind of key and does not capture that case.
- LegacyDocs.Kept: `get_markdown_filenames` lists `**/*.md` recursively and keeps only each base name, but `get_metadata` reads `<folder>/<name>.md`. A page in a subfolder would be read from the wrong file, or raise because the file is missing. The model gives each page its own text, as if every page sat at the top of the folder.
- LinkCheck.LinkProblemsCases: a fragment is compared with ids and names as plain text. The Nokogiri error for a fragment that is not a valid CSS identifier is not modelled.
- LinkCheck.Normalize follows the code. On an href spanning several lines, `gsub!` with `^`/`$` removes a slash at every line start or line end, not only the first. The lemmas about `.html` endings therefore require a one-line path.
- QuickJump.Dasherize deletes `.` along with every other character outside `[a-z0-9_-]`, as the code does, although the id could be expected to keep it.
- QuickJump: `page.to_html` serialisation is not modelled. Heading elements are values in an array, and each gets its appended token div. The navigation is the HTML text emitted into the destination.
- Warnings printed with `puts`/`warn` are not modelled as output. In LinkCheck they are the returned reports, and `abort` is the `Aborted` outcome.
