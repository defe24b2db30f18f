/**
 * The synchronisation decisions of a backup run: which source files become articles
 * (`process_markdown_files`), when a target is rewritten, and which images are copied
 * (`copy_used_images`, `file_needs_update`). File contents, existence and digests are
 * parameters; nothing here touches a file system.
 */
module Sync {
  import opened Options
  import opened Strings
  import opened Dates
  import opened Transform
  import opened FrontMatter
  import opened Manifest

  type Bytes = seq<int>

  // ------------------------------------------------------------- file selection

  /** `is_markdown_file`: the lower-cased name ends with one of the configured extensions. */
  predicate IsMarkdownFile(name: string, extensions: seq<string>) {
    exists k :: 0 <= k < |extensions| && EndsWith(Lower(name), extensions[k])
  }

  /** What the walk over a source directory finds at one path. */
  datatype SourceFile = SourceFile(name: string, isFile: bool, content: Option<string>)

  /** How the run treats a path before reading it. */
  datatype Disposition = NotAnArticle | Ignored | Accepted

  /** The settings a run reads. */
  datatype RunConfig = RunConfig(
    extensions: seq<string>,     // filters.markdown_extensions
    ignored: set<string>,        // filters.ignore_files
    dateFormat: string,          // readme.date_format
    settings: Settings,
    recorded: bool)              // the category has an entry under readme.categories

  function Classify(f: SourceFile, cfg: RunConfig): (d: Disposition)
    ensures d == Accepted <==> f.isFile && IsMarkdownFile(f.name, cfg.extensions) && f.name !in cfg.ignored
    ensures d == Ignored <==> f.isFile && IsMarkdownFile(f.name, cfg.extensions) && f.name in cfg.ignored
  {
    if !f.isFile || !IsMarkdownFile(f.name, cfg.extensions) then NotAnArticle
    else if f.name in cfg.ignored then Ignored
    else Accepted
  }

  // ------------------------------------------------------------- documents

  /** What the target path of a document holds before the run. */
  datatype Target = Missing | Unreadable | Holds(text: string)

  /** A target is rewritten unless it already holds exactly the processed text. */
  predicate NeedsWrite(t: Target, processed: string) {
    !(t.Holds? && t.text == processed)
  }

  /** What the run does with one path. `Unrecorded` is a file of a category that has no
      entry under readme.categories: its images are already counted as used when appending
      its article fails, and the handler that catches the failure neither records nor
      writes it. */
  datatype Outcome =
    | Skipped                                                 // not a Markdown file
    | IgnoredFile
    | Failed                                                  // could not be read
    | Unrecorded(images: set<string>)
    | Unchanged(info: ArticleInfo, images: set<string>)
    | Written(info: ArticleInfo, images: set<string>, text: string)

  /** The outcomes that put an article into the manifest. */
  predicate Listed(o: Outcome) {
    o.Unchanged? || o.Written?
  }

  /** The outcomes whose image references count as used. */
  predicate ReadsImages(o: Outcome) {
    o.Unrecorded? || o.Unchanged? || o.Written?
  }

  /** One iteration of the loop in `process_markdown_files`. `path` is the target's path
      relative to the backup root. */
  function FileOutcome(f: SourceFile, t: Target, path: string, cfg: RunConfig): (o: Outcome)
    ensures ReadsImages(o) <==> Classify(f, cfg) == Accepted && f.content.Some?
    ensures Listed(o) <==> Classify(f, cfg) == Accepted && f.content.Some? && cfg.recorded
    ensures o.Written? ==> o.text == ProcessMarkdown(f.content.value, cfg.settings).text
    ensures o.Written? <==> Classify(f, cfg) == Accepted && f.content.Some? && cfg.recorded
                            && NeedsWrite(t, ProcessMarkdown(f.content.value, cfg.settings).text)
    ensures ReadsImages(o) ==> o.images == ExtractImagePaths(f.content.value, cfg.settings.imagePrefixes)
    ensures Listed(o) ==>
      && o.info.title == ExtractTitle(f.content.value)
      && o.info.filename == f.name && o.info.path == path
    ensures Listed(o) ==>
      && o.info.year == ParseFileDate(f.name, cfg.dateFormat).year
      && o.info.month == ParseFileDate(f.name, cfg.dateFormat).month
      && o.info.day == ParseFileDate(f.name, cfg.dateFormat).day
      && o.info.dateStr == ParseFileDate(f.name, cfg.dateFormat).text
  {
    match Classify(f, cfg)
    case NotAnArticle => Skipped
    case Ignored => IgnoredFile
    case Accepted =>
      match f.content
      case None => Failed
      case Some(content) =>
        var processed := ProcessMarkdown(content, cfg.settings);
        if !cfg.recorded then Unrecorded(processed.images)
        else
          var info := RecordOf(processed.title, f.name, path, cfg.dateFormat);
          if NeedsWrite(t, processed.text) then Written(info, processed.images, processed.text)
          else Unchanged(info, processed.images)
  }

  /** The article a recorded file contributes: its title, name and target path, and the
      date `extract_date_from_filename` reads from its name. */
  function RecordOf(title: string, name: string, path: string, format: string): (a: ArticleInfo)
    ensures a.title == title && a.filename == name && a.path == path
    ensures a.year == ParseFileDate(name, format).year && a.month == ParseFileDate(name, format).month
    ensures a.day == ParseFileDate(name, format).day && a.dateStr == ParseFileDate(name, format).text
  {
    var d := ParseFileDate(name, format);
    ArticleInfo(title, name, path, d.year, d.month, d.day, d.text)
  }

  /** A whole category: the outcome of every path the walk found, in walk order. */
  function RunCategory(files: seq<SourceFile>, targets: seq<Target>, paths: seq<string>, cfg: RunConfig): (os: seq<Outcome>)
    requires |targets| == |files| && |paths| == |files|
    ensures |os| == |files|
    ensures forall i :: 0 <= i < |files| ==> os[i] == FileOutcome(files[i], targets[i], paths[i], cfg)
  {
    seq(|files|, i requires 0 <= i < |files| => FileOutcome(files[i], targets[i], paths[i], cfg))
  }

  /** The targets after the run has written what it wrote. */
  function AfterRun(targets: seq<Target>, os: seq<Outcome>): (r: seq<Target>)
    requires |os| == |targets|
    ensures |r| == |targets|
    ensures forall i :: 0 <= i < |r| ==> r[i] == if os[i].Written? then Holds(os[i].text) else targets[i]
  {
    seq(|targets|, i requires 0 <= i < |targets| => if os[i].Written? then Holds(os[i].text) else targets[i])
  }

  /** Running a category a second time over the targets the first run left writes nothing,
      leaves those targets as they are, and lists the same articles with the same images. */
  lemma RunIsIdempotent(files: seq<SourceFile>, targets: seq<Target>, paths: seq<string>, cfg: RunConfig)
    requires |targets| == |files| && |paths| == |files|
    ensures var first := RunCategory(files, targets, paths, cfg);
      var second := RunCategory(files, AfterRun(targets, first), paths, cfg);
      && AfterRun(AfterRun(targets, first), second) == AfterRun(targets, first)
      && forall i :: 0 <= i < |files| ==>
        && !second[i].Written?
        && (second[i].Unchanged? <==> Listed(first[i]))
        && (Listed(second[i]) ==> second[i].info == first[i].info)
        && (ReadsImages(second[i]) <==> ReadsImages(first[i]))
        && (ReadsImages(second[i]) ==> second[i].images == first[i].images)
  {
  }

  /** The positions of the listed outcomes, in increasing order. */
  function ListedIndices(os: seq<Outcome>): (idx: seq<nat>)
    ensures forall k :: 0 <= k < |idx| ==> idx[k] < |os| && Listed(os[idx[k]])
    ensures forall k, l :: 0 <= k < l < |idx| ==> idx[k] < idx[l]
    ensures forall i :: 0 <= i < |os| && Listed(os[i]) ==> i in idx
  {
    if os == [] then []
    else
      var init := os[..|os| - 1];
      var rest := ListedIndices(init);
      assert forall i :: 0 <= i < |init| ==> init[i] == os[i];
      if Listed(os[|os| - 1]) then rest + [|os| - 1] else rest
  }

  /** The articles the run records (`self.articles[category]`): the article of each
      listed outcome, in walk order. */
  function ArticlesOf(os: seq<Outcome>): (r: seq<ArticleInfo>)
    ensures |r| == |ListedIndices(os)|
    ensures forall k :: 0 <= k < |r| ==> r[k] == os[ListedIndices(os)[k]].info
  {
    if os == [] then []
    else
      var init := os[..|os| - 1];
      var rest := ArticlesOf(init);
      assert forall i :: 0 <= i < |init| ==> init[i] == os[i];
      if Listed(os[|os| - 1]) then rest + [os[|os| - 1].info] else rest
  }

  /** The image paths the run has seen referenced (`used_images`). */
  function UsedImages(os: seq<Outcome>): (r: set<string>)
    ensures forall p :: p in r <==>
      exists i :: 0 <= i < |os| && ReadsImages(os[i]) && p in os[i].images
  {
    if os == [] then {}
    else
      var rest := UsedImages(os[1..]);
      assert forall i :: 1 <= i < |os| ==> os[i] == os[1..][i - 1];
      if ReadsImages(os[0]) then os[0].images + rest else rest
  }

  predicate IsWritten(o: Outcome) {
    o.Written?
  }

  predicate IsUnchanged(o: Outcome) {
    o.Unchanged?
  }

  predicate IsIgnored(o: Outcome) {
    o.IgnoredFile?
  }

  function CountOf(os: seq<Outcome>, p: Outcome -> bool): (n: nat)
    ensures n <= |os|
  {
    if os == [] then 0 else CountOf(os[..|os| - 1], p) + (if p(os[|os| - 1]) then 1 else 0)
  }

  /** The counters logged for a category: every listed article was either written or
      skipped as unchanged, and no path is counted twice. */
  lemma {:induction false} CountersAddUp(os: seq<Outcome>)
    ensures |ArticlesOf(os)| == CountOf(os, IsWritten) + CountOf(os, IsUnchanged)
    ensures CountOf(os, IsWritten) + CountOf(os, IsUnchanged)
          + CountOf(os, IsIgnored) <= |os|
  {
    if os != [] {
      CountersAddUp(os[..|os| - 1]);
    }
  }

  // ------------------------------------------------------------- images

  /** `get_file_hash`: the digest of what could be read, the empty string otherwise. */
  function Digest(read: Option<Bytes>, md5: Bytes -> string): string {
    match read
    case None => ""
    case Some(b) => md5(b)
  }

  /** `file_needs_update`: copy when the target is absent or its digest differs. */
  function FileNeedsUpdate(targetExists: bool, source: Option<Bytes>, target: Option<Bytes>, md5: Bytes -> string): bool {
    !targetExists || Digest(source, md5) != Digest(target, md5)
  }

  /** The cases of `file_needs_update`, with a digest that is never empty (an MD5 hex
      digest has 32 characters). Two unreadable files compare equal, so an existing
      target is left alone when neither side can be read. */
  lemma FileNeedsUpdateCases(targetExists: bool, source: Option<Bytes>, target: Option<Bytes>, md5: Bytes -> string)
    requires forall b :: |md5(b)| == 32
    ensures !targetExists ==> FileNeedsUpdate(targetExists, source, target, md5)
    ensures targetExists && source.Some? && target.Some? ==>
      (FileNeedsUpdate(targetExists, source, target, md5) <==> md5(source.value) != md5(target.value))
    ensures targetExists && source.Some? && target.Some? && source.value == target.value ==>
      !FileNeedsUpdate(targetExists, source, target, md5)
    ensures targetExists && (source.None? != target.None?) ==> FileNeedsUpdate(targetExists, source, target, md5)
    ensures targetExists && source.None? && target.None? ==> !FileNeedsUpdate(targetExists, source, target, md5)
  {
    if source.Some? {
      assert |md5(source.value)| == 32;
    }
    if target.Some? {
      assert |md5(target.value)| == 32;
    }
  }

  /** What `copy_used_images` does with the referenced images, given which paths exist in
      the source picture directory and which targets need an update. */
  datatype CopyPlan = CopyPlan(copied: set<string>, current: set<string>, absent: set<string>)

  function PlanCopies(used: set<string>, present: set<string>, needsUpdate: string -> bool): (r: CopyPlan)
    ensures r.copied + r.current + r.absent == used
    ensures r.copied !! r.current && r.copied !! r.absent && r.current !! r.absent
    ensures forall p :: p in r.copied <==> p in used && p in present && needsUpdate(p)
    ensures forall p :: p in r.absent <==> p in used && p !in present
  {
    CopyPlan(
      set p | p in used && p in present && needsUpdate(p),
      set p | p in used && p in present && !needsUpdate(p),
      set p | p in used && p !in present)
  }

  /** The copied and skipped counters and the references to missing images account for
      every referenced path exactly once. */
  lemma CopyCountsAddUp(used: set<string>, present: set<string>, needsUpdate: string -> bool)
    ensures var r := PlanCopies(used, present, needsUpdate);
      |r.copied| + |r.current| + |r.absent| == |used|
  {
    var r := PlanCopies(used, present, needsUpdate);
    assert |r.copied + r.current| == |r.copied| + |r.current|;
    assert |(r.copied + r.current) + r.absent| == |r.copied + r.current| + |r.absent|;
  }

  /** The unused-image count as `copy_used_images` logs it: the number of image files
      less the number of referenced paths. */
  function UnusedCountAsWritten(all: set<string>, used: set<string>): int {
    |all| - |used|
  }

  /** A reference to an image that does not exist makes the logged count wrong, even
      negative: one image on disk and two references to missing ones log `-1`. */
  lemma UnusedCountAsWrittenMiscounts()
    ensures UnusedCountAsWritten({"a.png"}, {"b.png", "c.png"}) == -1
    ensures |{"a.png"} - {"b.png", "c.png"}| == 1
  {
    assert {"a.png"} - {"b.png", "c.png"} == {"a.png"};
    assert "b.png" != "c.png";
  }

  /** The number of image files nobody references. */
  function UnusedCount(all: set<string>, used: set<string>): (n: nat)
    ensures n <= |all|
    ensures n == |all| - |all * used|
  {
    assert all == (all - used) + (all * used);
    |all - used|
  }

  /** The corrected count agrees with the logged one exactly when every reference names an
      existing image. */
  lemma UnusedCountAgrees(all: set<string>, used: set<string>)
    ensures UnusedCount(all, used) == UnusedCountAsWritten(all, used) <==> used <= all
  {
    if used <= all {
      assert all * used == used;
    } else {
      var p :| p in used && p !in all;
      var shared, rest := all * used, used - {p};
      assert |rest| == |used| - 1;
      assert rest == shared + (rest - shared);
      assert |rest| == |shared| + |rest - shared|;
    }
  }
}
