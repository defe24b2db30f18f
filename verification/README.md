# Hugo blog backup: the transform-and-sync core in Dafny

This project models the core of `hugo_backup_tool/hugo_backup_final.py`. The tool mirrors the
Markdown posts of a Hugo site into a backup tree. For each post it:

- reads the title from the YAML front matter;
- records the images the post embeds under a known prefix;
- removes the front matter, rewrites image and article link targets, and puts the
  result under a `# <title>` heading;
- writes the result only when the existing copy differs.

It then copies the referenced images whose digests differ and writes a `README.md` index. The
index lists the categories in configured order, the articles of each category grouped by year
newest first, and the undated articles last.

Modules, in dependency order:

| module | file | what it holds |
|---|---|---|
| `Options`, `Strings` | `strings.dfy` | Python's `str.isspace`, `strip`, `startswith`, `endswith`, `lower`, `split('#')[0]`, `rstrip('/')`; decimal digits and `int()`; zero padding |
| `LinkScan` | `link_scan.dfy` | the link regular expressions as exact scanners: a match at one position, and the leftmost, non-overlapping scan of `re.sub` and `re.findall` |
| `FrontMatter` | `front_matter.dfy` | the front-matter and `title:` regular expressions, including the order in which the backtracking engine tries alternatives |
| `Transform` | `transform.dfy` | `fix_paths_in_content`, `extract_image_paths`, `process_markdown_content` |
| `Documents` | `documents.dfy` | documents as sequences of plain text, image embeds and links; each pass of `fix_paths_in_content` over a whole document as a map over its pieces |
| `Dates` | `dates.dfy` | `extract_date_from_filename` |
| `StableSort` | `stable_sort.dfy` | Python's stable `sorted` by a tuple key, as insertion sort |
| `Manifest` | `manifest.dfy` | `generate_readme` as a structured value plus its rendering |
| `Sync` | `sync.dfy` | the per-file decisions of `process_markdown_files`, `file_needs_update`, the copy decisions of `copy_used_images` |

Behaviour of the code that a reader might not expect, and that the model keeps:

- **A later image prefix can match again.** The code runs one full `re.sub` pass per
  configured prefix, in configured order, each over the text the previous pass produced. So
  when `to` starts with a later prefix, a target already rewritten by an earlier prefix is
  rewritten again (`Transform.LaterPrefixRematches`).
- **Year 0 can carry a date.** A name starting `0000MMDD_` parses to year 0 together with a
  non-empty date text (`Dates.ZeroYearIsDated`). The index files such an article under the
  undated heading, where no date is shown.
- **Category ties keep configuration order.** Categories are sorted by `order` alone with
  Python's stable sort, so categories of equal `order` appear as they are configured
  (`Manifest.CategoryOrder`).
- **Two unreadable images do not trigger a copy.** A digest that cannot be computed is the
  empty string. When both source and target are unreadable the two digests are equal, and an
  existing target is left alone (`Sync.FileNeedsUpdateCases`).
- **A category without an index entry counts images but lists nothing.** The article lists
  are created only for the keys of `readme.categories`. For a synced category without such a
  key, appending an article raises after the file's images were already added to the used
  set. The handler that catches the error neither records nor writes the file
  (`Sync.FileOutcome`).
- **Every article rewrite adds a `)`.** The article templates `[\1](<new>\2\3)` (line 190)
  and `[\1](<new without trailing />\2\3)` (line 199) write the link's own `)` through
  `\3` and then close the template's parenthesis too. So `[see](/drafts/topic)` with the pair
  `drafts -> /posts/` becomes `[see](/posts/topic))`: one extra `)` per pass that rewrote the
  link (`Transform.DoubledCloser`). The image template `![\1](<to>\2)` has no such extra
  `)`. The model of `fix_paths_in_content` follows the code as written; the single-`)`
  templates are modelled alongside (see "Findings").

Inputs that the code obtains from the outside world are parameters of the model:

- file contents (absent when unreadable);
- what an existing target holds;
- whether an image exists in the source picture directory;
- the MD5 function.

## Model

| member | source | states |
|---|---|---|
| `Strings.Strip` | hugo_backup_tool/hugo_backup_final.py:218 | `strip()` never lengthens a text, and a non-empty result neither starts nor ends with whitespace |
| `Strings.StripIs` | hugo_backup_tool/hugo_backup_final.py:144 | `strip()` cuts exactly the leading and trailing whitespace runs and keeps everything between them |
| `Strings.NatToStringRoundTrip` | hugo_backup_tool/hugo_backup_final.py:231 | the decimal rendering of a number, read back with `int()`, gives the number again |
| `Strings.PadDigitsOfValue` | hugo_backup_tool/hugo_backup_final.py:224-226 | a digit string is the zero-padded rendering, at its own width, of the number `int()` reads from it |
| `Strings.TrimEndChar` | hugo_backup_tool/hugo_backup_final.py:199 | `rstrip('/')` keeps a prefix of the text and removes only that character, up to the end |
| `LinkScan.MatchSpan` | hugo_backup_tool/hugo_backup_final.py:178 | a match reported at a position satisfies the pattern there: opener, a label free of `]`, `](`, the literal, a tail free of `)`, then `)` |
| `LinkScan.MatchSpanComplete` | hugo_backup_tool/hugo_backup_final.py:189 | a match at a position is unique: any way the pattern can match there is the one found |
| `LinkScan.MatchComplete` | hugo_backup_tool/hugo_backup_final.py:198 | any well-formed link text at a position makes the pattern match there, with exactly its label and tail as captures |
| `LinkScan.SubstCovers` | hugo_backup_tool/hugo_backup_final.py:177-181 | a substitution pass that puts back the literal it matched returns the text unchanged: matches and the text between them partition the input |
| `LinkScan.SubstituteLoneLink` | hugo_backup_tool/hugo_backup_final.py:177-181 | a text that is one match becomes its replacement: label and tail kept, only the literal replaced |
| `LinkScan.SubstituteLackingOpener` | hugo_backup_tool/hugo_backup_final.py:188-192 | a text without the opener's last character is left unchanged by a pass |
| `LinkScan.SubstituteLone` | hugo_backup_tool/hugo_backup_final.py:197-201 | on a lone link, a pass rewrites the target exactly when the label is long enough and the target starts with the literal and a tail the pattern admits, and then follows the link with the template's extra `)` (one for the article patterns, none for the image pattern); otherwise the link is kept as it is |
| `LinkScan.SubstituteLinkClosed` | hugo_backup_tool/hugo_backup_final.py:188-192 | a link followed by a run of `)` is rewritten as it would be alone, and the `)` the template adds joins that run |
| `LinkScan.SubstFromShift` | hugo_backup_tool/hugo_backup_final.py:177-181 | a pass resumed inside a text depends only on what follows: after a prefix it produces what it produces on the rest alone |
| `LinkScan.LinkHead` | hugo_backup_tool/hugo_backup_final.py:177-201 | a link at the head of a text, its label free of `[` and `]` and its target free of `[` and `)`, is rewritten exactly as it would be alone, the template's extra `)` included, and the pass then carries on over the rest as if the link were not there |
| `LinkScan.LoneOpener` | hugo_backup_tool/hugo_backup_final.py:178 | in a link whose label and target hold no `[`, the opener occurs only at the start |
| `LinkScan.ImageAtComplete` | hugo_backup_tool/hugo_backup_final.py:151-152 | any well-formed image embed makes the `findall` pattern match at its start, and the lazy alt text stops at the first candidate |
| `LinkScan.ImageTargetsOfLoneEmbed` | hugo_backup_tool/hugo_backup_final.py:151-152 | a text that is one embed with no `]` in its alt text yields exactly that embed's target |
| `LinkScan.ImageTargetsWithoutEmbed` | hugo_backup_tool/hugo_backup_final.py:151-152 | a text without `[` yields no image target |
| `FrontMatter.MatchFrontMatter` | hugo_backup_tool/hugo_backup_final.py:137-138 | a front-matter match found is a real match of the pattern at index 0: `---`, spaces, newline, a body, a closing `---` line |
| `FrontMatter.MatchFrontMatterFirst` | hugo_backup_tool/hugo_backup_final.py:137-138 | whenever the pattern can match, a match is found, and it is the one the backtracking engine tries first |
| `FrontMatter.StripFrontMatter` | hugo_backup_tool/hugo_backup_final.py:211-212 | removing the front matter only cuts a prefix of the text |
| `FrontMatter.StripFrontMatterCuts` | hugo_backup_tool/hugo_backup_final.py:211-212 | without front matter the text is kept whole; with it, exactly the block the engine matches first is cut |
| `FrontMatter.TitleMatchIsTitleValue` | hugo_backup_tool/hugo_backup_final.py:142 | the title regex finds a value exactly when the front matter holds `title:`, and its group equals the value read line by line after the first `title:` |
| `FrontMatter.ExtractTitleReads` | hugo_backup_tool/hugo_backup_final.py:135-146 | the title is the sentinel `未知标题` without front matter, and otherwise the stripped line-by-line title of the matched block |
| `FrontMatter.BlockTitleAndRest` | hugo_backup_tool/hugo_backup_final.py:205-212 | for a post laid out as a fenced block and a body, the removal leaves exactly the body and the title comes from the block |
| `Transform.ImagePasses` | hugo_backup_tool/hugo_backup_final.py:175-181 | the image passes leave a text without `[` unchanged, and change nothing when every `from` equals `to` |
| `Transform.FixPaths` | hugo_backup_tool/hugo_backup_final.py:168-203 | rewriting paths leaves a text without links (no `[`) unchanged; what it does to links, the extra `)` of each article rewrite included, is stated on `Documents.FixPathsDoc` |
| `Transform.ArticlePassesKeepBracketless` | hugo_backup_tool/hugo_backup_final.py:185-201 | every article pass leaves a text without `[` unchanged |
| `Transform.ImagePassOnEmbed` | hugo_backup_tool/hugo_backup_final.py:175-181 | one image pass on an embed replaces the `from` prefix of its target by `to` when something follows the prefix, and nothing else |
| `Transform.ImagePassesOnEmbed` | hugo_backup_tool/hugo_backup_final.py:175-181 | all image passes on an embed keep its alt text and send the target through the prefixes in configured order |
| `Transform.LaterPrefixRematches` | hugo_backup_tool/hugo_backup_final.py:175-181 | when `to` starts with a later prefix, a target rewritten by an earlier prefix is rewritten again by the later one |
| `Transform.ArticleFirstPass` | hugo_backup_tool/hugo_backup_final.py:186-192 | the first article pass sends a link into `/old/…` to `new` followed by the rest and then writes a second `)` after the link; every other link is kept as it is |
| `Transform.ArticleSecondPass` | hugo_backup_tool/hugo_backup_final.py:195-201 | the second article pass rewrites a link to `/old` or to a path below it and writes a second `)` after it; a link to `/older` is kept as it is |
| `Transform.ArticlePassOnLink` | hugo_backup_tool/hugo_backup_final.py:185-201 | both passes of one directory pair, on a link followed by `m` closing parentheses, move its target by one per-pair rewrite and leave `m` plus one `)` for each pass that matched |
| `Transform.ArticlePassesOnLink` | hugo_backup_tool/hugo_backup_final.py:185-201 | all directory pairs on a link, in configured order, move its target through the per-pair rewrites in that order, and the `)` after it grow by one for every pass of every pair that matched |
| `Transform.DoubledCloser` | hugo_backup_tool/hugo_backup_final.py:188-192 | `[see](/drafts/topic)` with the pair `drafts -> /posts/` becomes `[see](/posts/topic))` as written, and `[see](/posts/topic)` with single-`)` templates |
| `Transform.AsWrittenAddsClosers` | hugo_backup_tool/hugo_backup_final.py:185-201 | on a lone link, one pair as written gives what the single-`)` templates give followed by one `)` per pass that matched, and nothing else differs |
| `Transform.IntendedFirstPass` | hugo_backup_tool/hugo_backup_final.py:186-192 | the first pass with a single-`)` template leaves a lone link one link, its target under `/old/` moved to `new` |
| `Transform.IntendedSecondPass` | hugo_backup_tool/hugo_backup_final.py:195-201 | the second pass with a single-`)` template leaves a lone link one link, its target at or under `/old` moved to the trimmed `new` |
| `Transform.IntendedArticlePassOnLink` | hugo_backup_tool/hugo_backup_final.py:185-201 | with single-`)` templates both passes of a pair leave a lone link one well-formed link with the per-pair rewrite of its target, whatever the old directory holds |
| `Transform.IntendedArticlePassesOnLink` | hugo_backup_tool/hugo_backup_final.py:185-201 | with single-`)` templates all pairs in configured order leave a lone link one well-formed link whose target went through every pair |
| `Transform.ArticleStepUnderDir` | hugo_backup_tool/hugo_backup_final.py:186-192 | `/old/rest` becomes `new` + `rest` whenever that result is not itself `/old` or a path below it |
| `Transform.ArticleStepBareDir` | hugo_backup_tool/hugo_backup_final.py:195-201 | `/old` alone becomes `new` without its trailing slash |
| `Documents.SubstituteDoc` | hugo_backup_tool/hugo_backup_final.py:177-201 | on a well-formed document, one `re.sub` pass of any of the link patterns rewrites each link or embed it targets exactly as it would rewrite that link alone, adds the template's extra `)` after each link it rewrote, and keeps everything else, the `)` already after a link included |
| `Documents.ImagePassesDoc` | hugo_backup_tool/hugo_backup_final.py:175-181 | all image passes over a well-formed document send every embed target through the prefixes in configured order, keep alt texts, links and plain text, and leave a well-formed document |
| `Documents.ArticlePassDoc` | hugo_backup_tool/hugo_backup_final.py:185-201 | both passes of one directory pair move the target of every labelled link and embed by the per-target rewrite of that pair and add one `)` after it for each pass that matched; the rest is kept |
| `Documents.ArticlePassesDoc` | hugo_backup_tool/hugo_backup_final.py:185-201 | all directory pairs, in configured order, move each labelled target by the composed per-target rewrites and add after it one `)` for every pass that matched it; unlabelled links and plain text are kept |
| `Documents.FixPathsDoc` | hugo_backup_tool/hugo_backup_final.py:168-203 | rewriting the paths of a well-formed document is the image rewrite of every embed, which adds no `)`, followed by the article rewrite of every labelled link and embed, which adds one `)` per matching pass |
| `Transform.ImagePathOf` | hugo_backup_tool/hugo_backup_final.py:156-164 | a target gives a path exactly when one of the prefixes starts its part before `#`; the path holds no `#` and is that part with the first fitting prefix removed |
| `Transform.PathsOf` | hugo_backup_tool/hugo_backup_final.py:156-164 | a path is collected exactly when some target gives it |
| `Transform.ExtractImagePaths` | hugo_backup_tool/hugo_backup_final.py:148-166 | the referenced paths are exactly those some embed target of the whole document, front matter included, gives |
| `Transform.ExtractFromLoneEmbed` | hugo_backup_tool/hugo_backup_final.py:148-166 | a document that is one embed references exactly that embed's path, or nothing when no prefix fits |
| `Transform.ProcessMarkdown` | hugo_backup_tool/hugo_backup_final.py:205-220 | the processed post starts with `# <title>` and a blank line; the title and image paths come from the document as read; the body neither starts nor ends with whitespace |
| `Transform.ProcessBlock` | hugo_backup_tool/hugo_backup_final.py:205-220 | a post made of a front-matter block and a body without links becomes `# <title>`, a blank line, and the stripped body, with no images |
| `Dates.ParseFileDate` | hugo_backup_tool/hugo_backup_final.py:222-233 | a name is undated exactly when it does not start with eight digits and `_`; the parts are in range; a dated name has a date text |
| `Dates.DatePrefixRoundTrip` | hugo_backup_tool/hugo_backup_final.py:224-226 | the eight leading digits are the zero-padded year, month and day read from them |
| `Dates.IsoTextOfParts` | hugo_backup_tool/hugo_backup_final.py:228-229 | in the ISO format the date text is the zero-padded `YYYY-MM-DD` of the parts |
| `Dates.ChineseTextOfParts` | hugo_backup_tool/hugo_backup_final.py:230-231 | in any other format the text is the padded year, `年`, the month, `月`, the day, `日`, where month and day are digit strings without leading zeros that read back as the numeric month and day |
| `Dates.ZeroYearIsDated` | hugo_backup_tool/hugo_backup_final.py:224-233 | a name starting `0000` yields year 0 and yet a non-empty date text |
| `StableSort.KeyLeTotal` | hugo_backup_tool/hugo_backup_final.py:393 | tuple comparison is total |
| `StableSort.KeyLeAntisymmetric` | hugo_backup_tool/hugo_backup_final.py:393 | tuples that compare both ways are equal |
| `StableSort.KeyLeTransitive` | hugo_backup_tool/hugo_backup_final.py:393 | tuple comparison is transitive |
| `StableSort.SortSorted` | hugo_backup_tool/hugo_backup_final.py:370 | the sorted sequence is in ascending key order, for every pair |
| `StableSort.SortPermutes` | hugo_backup_tool/hugo_backup_final.py:391-395 | sorting keeps every element exactly as often as it occurs |
| `StableSort.SortStable` | hugo_backup_tool/hugo_backup_final.py:391-395 | elements with equal keys keep their input order |
| `Manifest.CategoryOrder` | hugo_backup_tool/hugo_backup_final.py:369-372 | the sections are a permutation of the configured categories, ascending by `order` (999 when absent), ties in configuration order |
| `Manifest.YearsOf` | hugo_backup_tool/hugo_backup_final.py:379-387 | the year headings are strictly descending and are exactly the positive years the articles carry |
| `Manifest.NewestFirstKeyOrder` | hugo_backup_tool/hugo_backup_final.py:391-395 | sorting by `(year, month, day)` descending is sorting ascending by the negated key |
| `Manifest.GroupOf` | hugo_backup_tool/hugo_backup_final.py:390-395 | a year group holds exactly the articles of that year, newest first, articles of equal date in discovery order |
| `Manifest.ListingOf` | hugo_backup_tool/hugo_backup_final.py:376-413 | a category shows the placeholder exactly when it has no articles; otherwise the year headings are strictly descending and are exactly the positive years its articles carry; each year lists exactly the articles of that year, each as often as it occurs, newest first, equal dates in discovery order; the undated articles follow in discovery order |
| `Manifest.BuildReadme` | hugo_backup_tool/hugo_backup_final.py:364-376 | the title is `readme.title`, or `博客文章备份` when that is absent; the sections are the configured categories, each as often as configured, ascending by `order` (999 when absent) with ties in configuration order; each is headed by `name` (the key when absent) and lists that category's recorded articles |
| `Manifest.SectionsCoverCategories` | hugo_backup_tool/hugo_backup_final.py:369-413 | there is one section per configuration entry, and a section shows the placeholder exactly when its category has no recorded articles |
| `Manifest.YearHeadingsAreArticleYears` | hugo_backup_tool/hugo_backup_final.py:379-388 | a year is headed in a section exactly when it is positive and some article of the category carries it |
| `Manifest.ListingCoversArticles` | hugo_backup_tool/hugo_backup_final.py:378-411 | every dated article is listed exactly once, under its own year, and the undated ones follow under `其他` |
| `Manifest.Render` | hugo_backup_tool/hugo_backup_final.py:367 | the index text opens with `# <title>` and a blank line |
| `Manifest.EmptyCategoryText` | hugo_backup_tool/hugo_backup_final.py:412-413 | an empty category renders as its heading followed by `暂无内容` |
| `Sync.Classify` | hugo_backup_tool/hugo_backup_final.py:255-262 | a path is processed exactly when it is a file, its lower-cased name ends with a configured extension, and the name is not ignored; it is counted as ignored exactly when it would otherwise have been processed |
| `Sync.FileOutcome` | hugo_backup_tool/hugo_backup_final.py:255-312 | a file's images count as used exactly when it is accepted and readable; it is recorded exactly when, in addition, its category has an entry under `readme.categories` (otherwise the append at line 287 raises and the handler at line 311 skips it); it is written exactly when it is recorded and its target does not already hold the processed text; what is written is that text; the record carries the extracted title, the file name, the target path, and the year, month, day and date text that `extract_date_from_filename` reads from the file name in the configured date format |
| `Sync.ListedIndices` | hugo_backup_tool/hugo_backup_final.py:255-287 | the recorded files are picked out in increasing walk order, and every recorded file is picked |
| `Sync.RunIsIdempotent` | hugo_backup_tool/hugo_backup_final.py:289-309 | a second run over the targets the first run left writes nothing and leaves them as they are; it records the same files with the same article data, and counts the same images as used |
| `Sync.ArticlesOf` | hugo_backup_tool/hugo_backup_final.py:287 | the recorded articles are, in walk order, the article of each recorded file and nothing else |
| `Sync.UsedImages` | hugo_backup_tool/hugo_backup_final.py:273-274 | a path is used exactly when some file that was accepted and read references it, whether or not that file was recorded |
| `Sync.CountersAddUp` | hugo_backup_tool/hugo_backup_final.py:251-314 | every recorded article is counted once, as either updated or skipped, and updated, skipped and ignored together never exceed the paths found |
| `Sync.FileNeedsUpdateCases` | hugo_backup_tool/hugo_backup_final.py:117-133 | copy when the target is absent, or when exactly one side is unreadable, or when the digests differ; never copy identical bytes; two unreadable files do not trigger a copy |
| `Sync.PlanCopies` | hugo_backup_tool/hugo_backup_final.py:338-349 | the referenced paths split into copied, current and missing, disjointly; a path is copied exactly when it exists and needs an update, and missing exactly when absent from the source |
| `Sync.CopyCountsAddUp` | hugo_backup_tool/hugo_backup_final.py:327-349 | copied plus skipped plus missing account for every referenced path exactly once |
| `Sync.UnusedCountAsWrittenMiscounts` | hugo_backup_tool/hugo_backup_final.py:358 | the logged unused count is negative for one image file and two references to missing images |
| `Sync.UnusedCount` | hugo_backup_tool/hugo_backup_final.py:358 | the number of unreferenced images never exceeds the number of images and equals the images less those referenced |
| `Sync.UnusedCountAgrees` | hugo_backup_tool/hugo_backup_final.py:358 | the logged count is right exactly when every reference names an existing image |

## Left out

- Configuration loading, dotted-path lookup and the `ConfigManager` class. The settings are typed values: `Transform.Settings`, `Sync.RunConfig`, `Manifest.CategoryConfig`.
- The file system: the recursive walk, `relative_to`, creating directories, reading and writing files, `shutil.copy2`. Contents, existence and the target path are parameters. A write or copy that raises is not modelled; the model assumes it succeeds.
- `get_file_hash` computes MD5 over the file's bytes. MD5 is a parameter, and only its 32-character length is assumed.
- Logging, the statistics printout, `updated_files`, `ensure_target_dirs` and the entry point produce messages only.
- A category whose source directory is missing (the early return) is not modelled; a run is modelled per category over the paths its walk found.
- Backslashes in `to_pattern` or in a new directory would be read by `re.sub` as template escapes. The model inserts them literally.
- `\d`, `\s`, `lower()` and `isspace()` are modelled on ASCII and the whitespace characters Python lists. Unicode digits and case mappings beyond ASCII are not modelled.
- Transform.ImagePasses: the whole-document rewrite is stated (`Documents.ImagePassesDoc`) for documents built from plain text without `[`, embeds and links whose labels hold neither `[` nor `]` and whose targets hold neither `[` nor `)`, with no `!` right before a link, and for prefixes without `)` and a `to` without `[` or `)`. Outside these, a match can run past an embed's end or start inside a label, and no statement is made.
- Transform.FixPaths: likewise stated (`Documents.FixPathsDoc`) under the same conditions on the document, with old directories free of `)` and new directories free of `[` and `)`.
- Transform.ArticlePassOnLink and Transform.ArticlePassesOnLink: require old directories without `)`. With one, the pattern can match across the `)` an earlier rewrite left after the link, and no statement is made.
- Transform.ImagePassesOnEmbed and Transform.ArticlePassesOnLink: state the rewrite of a document that is one embed or one link; documents with many links are covered by the `Documents` lemmas under the conditions above.
- Transform.ProcessMarkdown: the body is stated to be stripped. Its exact content is stated only for posts without links (`Transform.ProcessBlock`).
- Manifest.Render: states the opening heading only. The structure of the index is stated on `Manifest.BuildReadme`, and the line formats are the rendering functions themselves.
- Sync.PlanCopies: "exists in the source directory" is one set of paths. The code tests `exists()` per reference and counts `all_images` by walking the directory; the two agree for regular files.

## Findings

| source | as written | input that shows it | evidently intended | confidence | as-written member | corrected member |
|---|---|---|---|---|---|---|
| hugo_backup_tool/hugo_backup_final.py:190-199 | the article templates `[\1](<new>\2\3)` and `[\1](<new without trailing />\2\3)` write the link's `)` through `\3` and then one more | `[see](/drafts/topic)` with the pair `drafts -> /posts/`: the text becomes `[see](/posts/topic))` | `[see](/posts/topic)`: the templates `[\1](<new>\2)`, one `)` per link | not executed | `Transform.DoubledCloser` | `Transform.IntendedArticlePassesOnLink` |
| hugo_backup_tool/hugo_backup_final.py:358 | the unused-image count is the number of image files less the number of referenced paths | one image file `a.png`, and posts referencing `b.png` and `c.png`, neither of which exists: the count logged is -1 | the number of image files no post references, 1 here | not executed | `Sync.UnusedCountAsWrittenMiscounts` | `Sync.UnusedCountAgrees` |
