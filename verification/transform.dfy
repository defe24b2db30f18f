/**
 * The per-document transformation of the backup tool: rewriting link targets
 * (`fix_paths_in_content`), reading the image paths a document refers to
 * (`extract_image_paths`) and assembling the backed-up document
 * (`process_markdown_content`).
 */
module Transform {
  import opened Options
  import opened Strings
  import opened LinkScan
  import opened FrontMatter

  /** The settings the transformation reads. */
  datatype Settings = Settings(
    imagePrefixes: seq<string>,           // images.path_patterns
    imageFrom: seq<string>,               // path_corrections.images.from_patterns
    imageTo: string,                      // path_corrections.images.to_pattern
    articleDirs: seq<(string, string)>)   // path_corrections.articles, in insertion order

  /** Every pass of `fix_paths_in_content` needs a `[` to act on: an image embed starts
      `![`, a link `[`. */
  lemma KeepsBracketless(p: Pattern, s: string, lit: string)
    requires p.opener == "![" || p.opener == "["
    ensures Lacks(s, '[') ==> Substitute(p, s, lit) == s
  {
    if Lacks(s, '[') {
      SubstituteLackingOpener(p, s, lit);
    }
  }

  // ---------------------------------------------------------------- path rewriting

  /** One image pass per configured `from` prefix, in order, each on the previous one's output. */
  function ImagePasses(s: string, froms: seq<string>, to: string): (r: string)
    ensures Lacks(s, '[') ==> r == s
    ensures (forall k :: 0 <= k < |froms| ==> froms[k] == to) ==> r == s
    decreases |froms|
  {
    if froms == [] then s
    else
      var once := Substitute(ImagePattern(froms[0]), s, to);
      KeepsBracketless(ImagePattern(froms[0]), s, to);
      ImagePasses(once, froms[1..], to)
  }

  /** The two passes for one `old -> new` article-directory pair: links into `/old/...`
      get `new` in place of `/old/`, then links to `/old` itself or below it get `new`
      without its trailing slashes in place of `/old`. Each pass writes a second `)` after
      every link it rewrites (`DoubledCloser`). */
  function ArticlePass(s: string, oldDir: string, newDir: string): string {
    var once := Substitute(ArticlePattern(oldDir), s, newDir);
    Substitute(BareArticlePattern(oldDir), once, TrimEndChar(newDir, '/'))
  }

  function ArticlePasses(s: string, dirs: seq<(string, string)>): (r: string)
    decreases |dirs|
  {
    if dirs == [] then s else ArticlePasses(ArticlePass(s, dirs[0].0, dirs[0].1), dirs[1..])
  }

  /** A text without `[` goes through every article pass unchanged. */
  lemma {:induction false} ArticlePassesKeepBracketless(s: string, dirs: seq<(string, string)>)
    ensures Lacks(s, '[') ==> ArticlePasses(s, dirs) == s
    decreases |dirs|
  {
    if dirs != [] && Lacks(s, '[') {
      var (o, n) := dirs[0];
      KeepsBracketless(ArticlePattern(o), s, n);
      KeepsBracketless(BareArticlePattern(o), s, TrimEndChar(n, '/'));
      ArticlePassesKeepBracketless(s, dirs[1..]);
    }
  }

  /** `fix_paths_in_content`: all image passes, then all article passes. */
  function FixPaths(s: string, cfg: Settings): (r: string)
    ensures Lacks(s, '[') ==> r == s
  {
    var t := ImagePasses(s, cfg.imageFrom, cfg.imageTo);
    ArticlePassesKeepBracketless(t, cfg.articleDirs);
    ArticlePasses(t, cfg.articleDirs)
  }

  // ------------------------------------------- what the passes do to a single link

  /** The target an image embed gets from the pass for prefix `from`: the prefix is
      replaced when something follows it, anything else is left alone. */
  function ImageStep(target: string, from: string, to: string): (r: string)
    ensures forall c :: Lacks(target, c) && Lacks(to, c) ==> Lacks(r, c)
  {
    if from <= target && |from| < |target| then
      var rest := target[|from|..];
      assert forall c :: Lacks(target, c) ==> Lacks(rest, c) by {
        forall c | Lacks(target, c)
          ensures Lacks(rest, c)
        {
          LacksSlice(target, c, |from|, |target|);
          LacksSlice(target, c, 0, |target|);
          assert target[0..|target|] == target;
        }
      }
      to + rest
    else target
  }

  /** The target an image embed ends up with after every image pass. */
  function ImageTarget(target: string, froms: seq<string>, to: string): (r: string)
    ensures forall c :: Lacks(target, c) && Lacks(to, c) ==> Lacks(r, c)
    decreases |froms|
  {
    if froms == [] then target else ImageTarget(ImageStep(target, froms[0], to), froms[1..], to)
  }

  /** The pass for `from` on a lone image embed is `ImageStep` on its target. */
  lemma ImagePassOnEmbed(alt: string, target: string, from: string, to: string)
    requires Lacks(alt, '[') && Lacks(alt, ']') && Lacks(target, '[') && Lacks(target, ')')
    ensures Substitute(ImagePattern(from), Link("![", alt, target), to)
         == Link("![", alt, ImageStep(target, from, to))
  {
    var p := ImagePattern(from);
    assert p.opener[..|p.opener| - 1] == "!";
    LoneOpener(p, alt, target);
    SubstituteLone(p, alt, target, to);
    assert Link("![", alt, Retarget(p, alt, target, to)) + Closers(0) == Link("![", alt, Retarget(p, alt, target, to));
    if from <= target {
      assert target[..|from|] == from;
    }
  }

  /** Every image pass on a lone embed, composed: the embed keeps its alt text and its
      target goes through the prefixes in order. A later prefix can match a target an
      earlier pass produced. */
  lemma {:induction false} ImagePassesOnEmbed(alt: string, target: string, froms: seq<string>, to: string)
    requires Lacks(alt, '[') && Lacks(alt, ']') && Lacks(target, '[') && Lacks(target, ')')
    requires Lacks(to, '[') && Lacks(to, ')')
    ensures ImagePasses(Link("![", alt, target), froms, to) == Link("![", alt, ImageTarget(target, froms, to))
    decreases |froms|
  {
    if froms != [] {
      ImagePassOnEmbed(alt, target, froms[0], to);
      ImagePassesOnEmbed(alt, ImageStep(target, froms[0], to), froms[1..], to);
    }
  }

  /** The passes compose: when `to` itself starts with a later prefix `from2`, an embed
      rewritten by the pass for `from1` is rewritten again by the pass for `from2`. */
  lemma LaterPrefixRematches(from1: string, from2: string, u: string, rest: string)
    requires |rest| > 0
    ensures ImageTarget(from1 + rest, [from1, from2], from2 + u) == from2 + u + u + rest
  {
    var to := from2 + u;
    assert from1 <= from1 + rest && (from1 + rest)[|from1|..] == rest;
    assert ImageStep(from1 + rest, from1, to) == to + rest;
    assert from2 <= to + rest && (to + rest)[|from2|..] == u + rest;
    assert ImageStep(to + rest, from2, to) == to + u + rest;
    assert [from1, from2][1..] == [from2];
    assert [from2][1..] == [];
    assert ImageTarget(from1 + rest, [from1, from2], to) == ImageTarget(to + rest, [from2], to);
    assert ImageTarget(to + rest, [from2], to) == ImageTarget(to + u + rest, [], to);
  }

  /** `target` lies under `/old/`: the first pass of the pair rewrites the link. */
  predicate UnderDir(target: string, oldDir: string) {
    "/" + oldDir + "/" <= target
  }

  /** The target the first pass of the pair leaves: `new` in place of `/old/`. */
  function FirstStep(target: string, oldDir: string, newDir: string): string {
    if UnderDir(target, oldDir) then newDir + target[|oldDir| + 2..] else target
  }

  /** `target` is `/old` itself or lies under `/old/`: the second pass rewrites the link. */
  predicate AtOrUnder(target: string, oldDir: string) {
    var bare := "/" + oldDir;
    bare <= target && (|target| == |bare| || target[|bare|] == '/')
  }

  /** The target an article link `[text](target)` gets from the two passes of one
      `old -> new` pair. */
  function ArticleStep(target: string, oldDir: string, newDir: string): (r: string)
    ensures forall c :: Lacks(target, c) && Lacks(newDir, c) ==> Lacks(r, c)
  {
    var t1 := FirstStep(target, oldDir, newDir);
    assert forall c :: Lacks(target, c) && Lacks(newDir, c) ==> Lacks(t1, c) by {
      if UnderDir(target, oldDir) {
        forall c | Lacks(target, c) ensures Lacks(target[|oldDir| + 2..], c) {
          LacksSlice(target, c, |oldDir| + 2, |target|);
          LacksSlice(target, c, 0, |target|);
          assert target[0..|target|] == target;
        }
        forall c ensures Lacks(target[|oldDir| + 2..], c) && Lacks(newDir, c) ==> Lacks(t1, c) {
          LacksConcat(newDir, target[|oldDir| + 2..], c);
        }
      }
    }
    if AtOrUnder(t1, oldDir) then TrimEndChar(newDir, '/') + t1[|oldDir| + 1..]
    else t1
  }

  /** How many `)` the two passes of one pair write after that link: one for each pass
      that rewrote it. */
  function ArticleCloses(target: string, oldDir: string, newDir: string): nat {
    (if UnderDir(target, oldDir) then 1 else 0)
    + (if AtOrUnder(FirstStep(target, oldDir, newDir), oldDir) then 1 else 0)
  }

  /** The target an article link ends up with after every article-directory pair. */
  function ArticleTarget(target: string, dirs: seq<(string, string)>): (r: string)
    ensures forall c :: Lacks(target, c) && (forall k :: 0 <= k < |dirs| ==> Lacks(dirs[k].1, c)) ==> Lacks(r, c)
    decreases |dirs|
  {
    if dirs == [] then target else ArticleTarget(ArticleStep(target, dirs[0].0, dirs[0].1), dirs[1..])
  }

  /** How many `)` every article-directory pair together writes after that link. */
  function ArticleTargetCloses(target: string, dirs: seq<(string, string)>): nat
    decreases |dirs|
  {
    if dirs == [] then 0
    else ArticleCloses(target, dirs[0].0, dirs[0].1)
         + ArticleTargetCloses(ArticleStep(target, dirs[0].0, dirs[0].1), dirs[1..])
  }

  /** The first pass of a pair on a lone article link: a target under `/old/` gets `new`
      in its place, and the template's second `)` follows the link. */
  lemma ArticleFirstPass(text: string, target: string, oldDir: string, newDir: string)
    requires |text| > 0 && Lacks(text, '[') && Lacks(text, ']') && Lacks(target, '[') && Lacks(target, ')')
    ensures var dir := "/" + oldDir + "/";
      Substitute(ArticlePattern(oldDir), Link("[", text, target), newDir)
        == if dir <= target then Link("[", text, newDir + target[|dir|..]) + ")"
           else Link("[", text, target)
  {
    var p := ArticlePattern(oldDir);
    assert p.opener[..0] == "";
    LoneOpener(p, text, target);
    SubstituteLone(p, text, target, newDir);
    assert Closers(1) == ")";
    assert Link("[", text, target) + Closers(0) == Link("[", text, target);
    if p.lit <= target {
      assert target[..|p.lit|] == p.lit;
    }
  }

  /** The second pass of a pair on a lone article link: a target that is `/old` or lies
      under `/old/` gets `lit` in place of `/old`, and the template's second `)` follows. */
  lemma ArticleSecondPass(text: string, target: string, oldDir: string, lit: string)
    requires |text| > 0 && Lacks(text, '[') && Lacks(text, ']') && Lacks(target, '[') && Lacks(target, ')')
    ensures var bare := "/" + oldDir;
      Substitute(BareArticlePattern(oldDir), Link("[", text, target), lit)
        == if bare <= target && (|target| == |bare| || target[|bare|] == '/') then
             Link("[", text, lit + target[|bare|..]) + ")"
           else Link("[", text, target)
  {
    var p := BareArticlePattern(oldDir);
    assert p.opener[..0] == "";
    LoneOpener(p, text, target);
    SubstituteLone(p, text, target, lit);
    assert Closers(1) == ")";
    assert Link("[", text, target) + Closers(0) == Link("[", text, target);
    if p.lit <= target {
      assert target[..|p.lit|] == p.lit;
      if |target| > |p.lit| {
        assert target[|p.lit|..][0] == target[|p.lit|];
      }
    }
  }

  /** Both passes of one pair on an article link followed by `m` closing parentheses:
      the target becomes `ArticleStep` of it and each pass that rewrote the link adds a
      `)`. The old directory name must not hold a `)`: one that does can match across the
      `)` an earlier rewrite left. */
  lemma ArticlePassOnLink(text: string, target: string, oldDir: string, newDir: string, m: nat)
    requires |text| > 0 && Lacks(text, '[') && Lacks(text, ']') && Lacks(target, '[') && Lacks(target, ')')
    requires Lacks(oldDir, ')') && Lacks(newDir, '[') && Lacks(newDir, ')')
    ensures ArticlePass(Link("[", text, target) + Closers(m), oldDir, newDir)
         == Link("[", text, ArticleStep(target, oldDir, newDir)) + Closers(ArticleCloses(target, oldDir, newDir) + m)
  {
    var t1 := FirstStep(target, oldDir, newDir);
    var c1 := if UnderDir(target, oldDir) then 1 else 0;
    FirstPassClosed(text, target, oldDir, newDir, m);
    assert Lacks(t1, '[') && Lacks(t1, ')') by {
      FirstStepLacks(target, oldDir, newDir, '[');
      FirstStepLacks(target, oldDir, newDir, ')');
    }
    SecondPassClosed(text, t1, oldDir, TrimEndChar(newDir, '/'), c1 + m);
  }

  /** The first pass rewrites no character the target and `new` both lack into it. */
  lemma FirstStepLacks(target: string, oldDir: string, newDir: string, c: char)
    requires Lacks(target, c) && Lacks(newDir, c)
    ensures Lacks(FirstStep(target, oldDir, newDir), c)
  {
    if UnderDir(target, oldDir) {
      LacksSlice(target, c, |oldDir| + 2, |target|);
      LacksSlice(target, c, 0, |target|);
      assert target[0..|target|] == target;
      LacksConcat(newDir, target[|oldDir| + 2..], c);
    }
  }

  /** The first pass of a pair on an article link followed by `m` closing parentheses. */
  lemma FirstPassClosed(text: string, target: string, oldDir: string, newDir: string, m: nat)
    requires |text| > 0 && Lacks(text, '[') && Lacks(text, ']') && Lacks(target, '[') && Lacks(target, ')')
    requires Lacks(oldDir, ')')
    ensures Substitute(ArticlePattern(oldDir), Link("[", text, target) + Closers(m), newDir)
         == Link("[", text, FirstStep(target, oldDir, newDir))
            + Closers((if UnderDir(target, oldDir) then 1 else 0) + m)
  {
    var p := ArticlePattern(oldDir);
    assert Lacks(p.lit, ')') by {
      LacksConcat("/", oldDir, ')');
      LacksConcat("/" + oldDir, "/", ')');
    }
    SubstituteLinkClosed(p, text, target, m, newDir);
    if p.lit <= target {
      assert target[..|p.lit|] == p.lit;
    }
  }

  /** The second pass of a pair on an article link followed by `m` closing parentheses. */
  lemma SecondPassClosed(text: string, target: string, oldDir: string, lit: string, m: nat)
    requires |text| > 0 && Lacks(text, '[') && Lacks(text, ']') && Lacks(target, '[') && Lacks(target, ')')
    requires Lacks(oldDir, ')')
    ensures Substitute(BareArticlePattern(oldDir), Link("[", text, target) + Closers(m), lit)
         == if AtOrUnder(target, oldDir) then Link("[", text, lit + target[|oldDir| + 1..]) + Closers(1 + m)
            else Link("[", text, target) + Closers(m)
  {
    var p := BareArticlePattern(oldDir);
    assert Lacks(p.lit, ')') by {
      LacksConcat("/", oldDir, ')');
    }
    SubstituteLinkClosed(p, text, target, m, lit);
    if p.lit <= target {
      assert target[..|p.lit|] == p.lit;
      if |target| > |p.lit| {
        assert target[|p.lit|..][0] == target[|p.lit|];
      }
    }
  }

  /** `ArticlePasses(s, dirs) == r`, as one fact. */
  predicate PassesTo(s: string, dirs: seq<(string, string)>, r: string) {
    ArticlePasses(s, dirs) == r
  }

  /** Every article pair on an article link followed by `m` closing parentheses, composed
      in configuration order: the target goes through every pair and every rewrite adds
      a `)`. */
  lemma {:induction false} ArticlePassesOnLink(text: string, target: string, dirs: seq<(string, string)>, m: nat)
    requires |text| > 0 && Lacks(text, '[') && Lacks(text, ']') && Lacks(target, '[') && Lacks(target, ')')
    requires forall k :: 0 <= k < |dirs| ==> Lacks(dirs[k].0, ')') && Lacks(dirs[k].1, '[') && Lacks(dirs[k].1, ')')
    ensures PassesTo(Link("[", text, target) + Closers(m), dirs,
                     Link("[", text, ArticleTarget(target, dirs)) + Closers(ArticleTargetCloses(target, dirs) + m))
    decreases |dirs|
  {
    if dirs == [] {
      ClosersEqual(m, ArticleTargetCloses(target, dirs) + m);
    } else {
      var step := ArticleStep(target, dirs[0].0, dirs[0].1);
      var m' := ArticleCloses(target, dirs[0].0, dirs[0].1) + m;
      FirstPairOfMany(text, target, dirs, m, m');
      ArticlePassesOnLink(text, step, dirs[1..], m');
      PassesThrough(Link("[", text, target) + Closers(m), dirs, Link("[", text, step) + Closers(m'),
                    Link("[", text, ArticleTarget(step, dirs[1..])) + Closers(ArticleTargetCloses(step, dirs[1..]) + m'),
                    Link("[", text, ArticleTarget(target, dirs)) + Closers(ArticleTargetCloses(target, dirs) + m));
    }
  }

  /** The induction step of `ArticlePassesOnLink`: what the first pair does and what the
      later pairs are left with. */
  lemma FirstPairOfMany(text: string, target: string, dirs: seq<(string, string)>, m: nat, m': nat)
    requires |text| > 0 && Lacks(text, '[') && Lacks(text, ']') && Lacks(target, '[') && Lacks(target, ')')
    requires forall k :: 0 <= k < |dirs| ==> Lacks(dirs[k].0, ')') && Lacks(dirs[k].1, '[') && Lacks(dirs[k].1, ')')
    requires dirs != [] && m' == ArticleCloses(target, dirs[0].0, dirs[0].1) + m
    ensures Lacks(ArticleStep(target, dirs[0].0, dirs[0].1), '[') && Lacks(ArticleStep(target, dirs[0].0, dirs[0].1), ')')
    ensures forall k :: 0 <= k < |dirs[1..]| ==> Lacks(dirs[1..][k].0, ')') && Lacks(dirs[1..][k].1, '[') && Lacks(dirs[1..][k].1, ')')
    ensures ArticlePass(Link("[", text, target) + Closers(m), dirs[0].0, dirs[0].1)
         == Link("[", text, ArticleStep(target, dirs[0].0, dirs[0].1)) + Closers(m')
    ensures Link("[", text, ArticleTarget(ArticleStep(target, dirs[0].0, dirs[0].1), dirs[1..]))
            + Closers(ArticleTargetCloses(ArticleStep(target, dirs[0].0, dirs[0].1), dirs[1..]) + m')
         == Link("[", text, ArticleTarget(target, dirs)) + Closers(ArticleTargetCloses(target, dirs) + m)
  {
    assert Lacks(dirs[0].0, ')') && Lacks(dirs[0].1, '[') && Lacks(dirs[0].1, ')');
    FirstPairOnLink(text, target, dirs[0].0, dirs[0].1, m, m');
    RestOfPairs(text, target, dirs, m, m');
  }

  /** `ArticlePassOnLink` with the resulting count of `)` named. */
  lemma FirstPairOnLink(text: string, target: string, oldDir: string, newDir: string, m: nat, m': nat)
    requires |text| > 0 && Lacks(text, '[') && Lacks(text, ']') && Lacks(target, '[') && Lacks(target, ')')
    requires Lacks(oldDir, ')') && Lacks(newDir, '[') && Lacks(newDir, ')')
    requires m' == ArticleCloses(target, oldDir, newDir) + m
    ensures ArticlePass(Link("[", text, target) + Closers(m), oldDir, newDir)
         == Link("[", text, ArticleStep(target, oldDir, newDir)) + Closers(m')
  {
    ArticlePassOnLink(text, target, oldDir, newDir, m);
    ClosersEqual(ArticleCloses(target, oldDir, newDir) + m, m');
  }

  /** What the later pairs make of the link once the first pair has moved it. */
  lemma RestOfPairs(text: string, target: string, dirs: seq<(string, string)>, m: nat, m': nat)
    requires dirs != [] && m' == ArticleCloses(target, dirs[0].0, dirs[0].1) + m
    ensures Link("[", text, ArticleTarget(ArticleStep(target, dirs[0].0, dirs[0].1), dirs[1..]))
            + Closers(ArticleTargetCloses(ArticleStep(target, dirs[0].0, dirs[0].1), dirs[1..]) + m')
         == Link("[", text, ArticleTarget(target, dirs)) + Closers(ArticleTargetCloses(target, dirs) + m)
  {
    var step := ArticleStep(target, dirs[0].0, dirs[0].1);
    LinkClosersEqual(text, ArticleTarget(step, dirs[1..]), ArticleTarget(target, dirs),
                     ArticleTargetCloses(step, dirs[1..]) + m', ArticleTargetCloses(target, dirs) + m);
  }

  lemma LinkClosersEqual(text: string, t: string, t': string, a: nat, b: nat)
    requires t == t' && a == b
    ensures Link("[", text, t) + Closers(a) == Link("[", text, t') + Closers(b)
  {
  }

  /** The article passes are the first pair's passes followed by the rest's. */
  lemma PassesThrough(x: string, dirs: seq<(string, string)>, y: string, z: string, z': string)
    requires dirs != []
    requires ArticlePass(x, dirs[0].0, dirs[0].1) == y
    requires PassesTo(y, dirs[1..], z) && z == z'
    ensures PassesTo(x, dirs, z')
  {
  }

  // ------------------------------------------ the article templates' second `)`

  /** The article templates `[\1](<new>\2\3)` close the link twice: `\3` is the link's own
      `)` and the template adds another. For `[see](/drafts/topic)` and the pair
      `drafts -> /posts/`, the first pass writes `[see](/posts/topic))`. */
  lemma DoubledCloser()
    ensures ArticlePass(Link("[", "see", "/drafts/topic"), "drafts", "/posts/")
         == Link("[", "see", "/posts/topic") + ")"
    ensures IntendedArticlePass(Link("[", "see", "/drafts/topic"), "drafts", "/posts/")
         == Link("[", "see", "/posts/topic")
  {
    DoubledStep();
    PassOnLinkNamed("see", "/drafts/topic", "drafts", "/posts/", "/posts/topic", 1);
    IntendedArticlePassOnLink("see", "/drafts/topic", "drafts", "/posts/");
    assert Closers(1) == ")";
  }

  /** The pair `drafts -> /posts/` moves `/drafts/topic` to `/posts/topic`, and only the
      first pass matches; none of the parts holds a bracket. */
  lemma DoubledStep()
    ensures ArticleStep("/drafts/topic", "drafts", "/posts/") == "/posts/topic"
    ensures ArticleCloses("/drafts/topic", "drafts", "/posts/") == 1
    ensures Lacks("see", '[') && Lacks("see", ']') && Lacks("/drafts/topic", '[') && Lacks("/drafts/topic", ')')
    ensures Lacks("drafts", ')') && Lacks("/posts/", '[') && Lacks("/posts/", ')')
  {
    var target, step := "/drafts/topic", "/posts/topic";
    assert UnderDir(target, "drafts") && FirstStep(target, "drafts", "/posts/") == step by {
      assert target[..8] == "/drafts/";
      assert target[8..] == "topic";
    }
    assert !AtOrUnder(step, "drafts") by {
      assert step[..7] != "/drafts";
    }
  }

  /** `ArticlePassOnLink` on a lone link, with the resulting target and count named. */
  lemma PassOnLinkNamed(text: string, target: string, oldDir: string, newDir: string, step: string, c: nat)
    requires |text| > 0 && Lacks(text, '[') && Lacks(text, ']') && Lacks(target, '[') && Lacks(target, ')')
    requires Lacks(oldDir, ')') && Lacks(newDir, '[') && Lacks(newDir, ')')
    requires ArticleStep(target, oldDir, newDir) == step && ArticleCloses(target, oldDir, newDir) == c
    ensures ArticlePass(Link("[", text, target), oldDir, newDir) == Link("[", text, step) + Closers(c)
  {
    assert Link("[", text, target) + Closers(0) == Link("[", text, target);
    ArticlePassOnLink(text, target, oldDir, newDir, 0);
    ClosersEqual(ArticleCloses(target, oldDir, newDir) + 0, c);
  }

  /** A pattern whose template closes the link once: `[\1](<new>\2)`. */
  function SingleClose(p: Pattern): (q: Pattern)
    ensures q.extraClose == 0
    ensures q.opener == p.opener && q.minLabel == p.minLabel && q.lit == p.lit && q.tail == p.tail
  {
    p.(extraClose := 0)
  }

  /** The two passes of one pair with the templates closing the link once, as they are
      evidently meant to. */
  function IntendedArticlePass(s: string, oldDir: string, newDir: string): string {
    var once := Substitute(SingleClose(ArticlePattern(oldDir)), s, newDir);
    Substitute(SingleClose(BareArticlePattern(oldDir)), once, TrimEndChar(newDir, '/'))
  }

  function IntendedArticlePasses(s: string, dirs: seq<(string, string)>): string
    decreases |dirs|
  {
    if dirs == [] then s else IntendedArticlePasses(IntendedArticlePass(s, dirs[0].0, dirs[0].1), dirs[1..])
  }

  /** The corrected first pass leaves a lone link a single link, its target moved by
      `FirstStep`. */
  lemma IntendedFirstPass(text: string, target: string, oldDir: string, newDir: string)
    requires |text| > 0 && Lacks(text, '[') && Lacks(text, ']') && Lacks(target, '[') && Lacks(target, ')')
    ensures Substitute(SingleClose(ArticlePattern(oldDir)), Link("[", text, target), newDir)
         == Link("[", text, FirstStep(target, oldDir, newDir))
  {
    var p := SingleClose(ArticlePattern(oldDir));
    assert p.opener[..0] == "";
    LoneOpener(p, text, target);
    SubstituteLone(p, text, target, newDir);
    assert Closers(0) == "";
    if p.lit <= target {
      assert target[..|p.lit|] == p.lit;
    }
  }

  /** The corrected second pass leaves a lone link a single link: a target that is `/old`
      or lies under `/old/` gets `lit` in place of `/old`. */
  lemma IntendedSecondPass(text: string, target: string, oldDir: string, lit: string)
    requires |text| > 0 && Lacks(text, '[') && Lacks(text, ']') && Lacks(target, '[') && Lacks(target, ')')
    ensures Substitute(SingleClose(BareArticlePattern(oldDir)), Link("[", text, target), lit)
         == Link("[", text, if AtOrUnder(target, oldDir) then lit + target[|oldDir| + 1..] else target)
  {
    var p := SingleClose(BareArticlePattern(oldDir));
    assert p.opener[..0] == "";
    LoneOpener(p, text, target);
    SubstituteLone(p, text, target, lit);
    assert Closers(0) == "";
    if p.lit <= target {
      assert target[..|p.lit|] == p.lit;
      if |target| > |p.lit| {
        assert target[|p.lit|..][0] == target[|p.lit|];
      }
    }
  }

  /** Both corrected passes of one pair: the link stays a single link and its target
      becomes `ArticleStep` of it. No condition on the old directory is needed. */
  lemma IntendedArticlePassOnLink(text: string, target: string, oldDir: string, newDir: string)
    requires |text| > 0 && Lacks(text, '[') && Lacks(text, ']') && Lacks(target, '[') && Lacks(target, ')')
    requires Lacks(newDir, '[') && Lacks(newDir, ')')
    ensures IntendedArticlePass(Link("[", text, target), oldDir, newDir)
         == Link("[", text, ArticleStep(target, oldDir, newDir))
  {
    var t1 := FirstStep(target, oldDir, newDir);
    IntendedFirstPass(text, target, oldDir, newDir);
    FirstStepLacks(target, oldDir, newDir, '[');
    FirstStepLacks(target, oldDir, newDir, ')');
    IntendedSecondPass(text, t1, oldDir, TrimEndChar(newDir, '/'));
  }

  /** Every corrected pair in configuration order: a lone link stays a single link and
      its target goes through every pair, as `ArticleTarget` says. */
  lemma {:induction false} IntendedArticlePassesOnLink(text: string, target: string, dirs: seq<(string, string)>)
    requires |text| > 0 && Lacks(text, '[') && Lacks(text, ']') && Lacks(target, '[') && Lacks(target, ')')
    requires forall k :: 0 <= k < |dirs| ==> Lacks(dirs[k].1, '[') && Lacks(dirs[k].1, ')')
    ensures IntendedArticlePasses(Link("[", text, target), dirs) == Link("[", text, ArticleTarget(target, dirs))
    decreases |dirs|
  {
    if dirs != [] {
      var step := ArticleStep(target, dirs[0].0, dirs[0].1);
      assert Lacks(dirs[0].1, '[') && Lacks(dirs[0].1, ')');
      IntendedArticlePassOnLink(text, target, dirs[0].0, dirs[0].1);
      assert forall k :: 0 <= k < |dirs[1..]| ==> Lacks(dirs[1..][k].1, '[') && Lacks(dirs[1..][k].1, ')');
      IntendedArticlePassesOnLink(text, step, dirs[1..]);
    }
  }

  /** What the code as written adds to the corrected pass on a lone link: one `)` per
      pass that rewrote it, and nothing else. */
  lemma AsWrittenAddsClosers(text: string, target: string, oldDir: string, newDir: string)
    requires |text| > 0 && Lacks(text, '[') && Lacks(text, ']') && Lacks(target, '[') && Lacks(target, ')')
    requires Lacks(oldDir, ')') && Lacks(newDir, '[') && Lacks(newDir, ')')
    ensures ArticlePass(Link("[", text, target), oldDir, newDir)
         == IntendedArticlePass(Link("[", text, target), oldDir, newDir) + Closers(ArticleCloses(target, oldDir, newDir))
  {
    assert Link("[", text, target) + Closers(0) == Link("[", text, target);
    ArticlePassOnLink(text, target, oldDir, newDir, 0);
    IntendedArticlePassOnLink(text, target, oldDir, newDir);
  }

  /** The pair `old -> new` sends `[t](/old/rest)` to `[t](new rest)` unless the result is
      itself `/old` or lies under `/old/`, which the bare pass would rewrite again. */
  lemma ArticleStepUnderDir(oldDir: string, newDir: string, rest: string)
    requires var u, bare := newDir + rest, "/" + oldDir;
      !(bare <= u && (|u| == |bare| || u[|bare|] == '/'))
    ensures ArticleStep("/" + oldDir + "/" + rest, oldDir, newDir) == newDir + rest
  {
    var dir := "/" + oldDir + "/";
    assert dir <= dir + rest;
    assert (dir + rest)[|dir|..] == rest;
  }

  /** With `new` ending in `/`, `[t](/old)` goes to `new` without that slash. */
  lemma ArticleStepBareDir(oldDir: string, newDir: string)
    requires |newDir| > 0 && newDir[|newDir| - 1] == '/'
    ensures ArticleStep("/" + oldDir, oldDir, newDir) == TrimEndChar(newDir, '/')
  {
    var dir, bare := "/" + oldDir + "/", "/" + oldDir;
    assert !(dir <= bare) by {
      assert |dir| > |bare|;
    }
    assert bare[|bare|..] == [];
  }

  // ----------------------------------------------------------- image references

  /** The index of the first configured prefix `t` starts with. */
  function FirstPrefix(t: string, prefixes: seq<string>): (r: Option<nat>)
    ensures r.Some? ==> r.value < |prefixes| && prefixes[r.value] <= t
    ensures forall k :: 0 <= k < |prefixes| && (r.Some? ==> k < r.value) ==> !(prefixes[k] <= t)
    decreases |prefixes|
  {
    if prefixes == [] then None
    else if prefixes[0] <= t then Some(0)
    else match FirstPrefix(t, prefixes[1..])
      case None => None
      case Some(k) => Some(k + 1)
  }

  /** The path one embed target contributes: the target cut at its first `#`, less the first
      configured prefix it starts with; nothing when no prefix fits. */
  function PathOf(target: string, prefixes: seq<string>): Option<string> {
    var clean := BeforeFirst(target, '#');
    match FirstPrefix(clean, prefixes)
    case None => None
    case Some(k) => Some(clean[|prefixes[k]|..])
  }

  /** `PathOf` with what it promises: a path exactly when some prefix fits, the path free of
      `#`, and the first fitting prefix stripped. */
  function ImagePathOf(target: string, prefixes: seq<string>): (r: Option<string>)
    ensures r.Some? <==> exists k :: 0 <= k < |prefixes| && prefixes[k] <= BeforeFirst(target, '#')
    ensures r.Some? ==> Lacks(r.value, '#')
    ensures r.Some? ==> exists k :: 0 <= k < |prefixes| && prefixes[k] + r.value == BeforeFirst(target, '#')
                                 && forall m :: 0 <= m < k ==> !(prefixes[m] <= BeforeFirst(target, '#'))
  {
    var clean := BeforeFirst(target, '#');
    match FirstPrefix(clean, prefixes)
    case None => None
    case Some(k) =>
      var path := clean[|prefixes[k]|..];
      assert prefixes[k] + path == clean;
      assert Lacks(path, '#') by {
        LacksSlice(clean, '#', |prefixes[k]|, |clean|);
        LacksSlice(clean, '#', 0, |clean|);
        assert clean[0..|clean|] == clean;
      }
      PathOf(target, prefixes)
  }

  /** The set of paths the embed targets from index `i` on contribute. */
  function PathsOf(targets: seq<string>, prefixes: seq<string>, i: nat): (r: set<string>)
    requires i <= |targets|
    ensures forall p :: p in r <==> exists k :: i <= k < |targets| && PathOf(targets[k], prefixes) == Some(p)
    decreases |targets| - i
  {
    if i == |targets| then {}
    else
      var rest := PathsOf(targets, prefixes, i + 1);
      match PathOf(targets[i], prefixes)
      case None => rest
      case Some(p) => {p} + rest
  }

  /** `extract_image_paths`: the paths of every image the document embeds under a
      configured prefix. */
  function ExtractImagePaths(content: string, prefixes: seq<string>): (r: set<string>)
    ensures forall p :: p in r <==>
      exists t :: t in ImageTargets(content, 0) && ImagePathOf(t, prefixes) == Some(p)
  {
    var ts := ImageTargets(content, 0);
    assert forall t :: t in ts <==> exists k :: 0 <= k < |ts| && ts[k] == t;
    assert forall t :: ImagePathOf(t, prefixes) == PathOf(t, prefixes);
    PathsOf(ts, prefixes, 0)
  }

  /** A lone embed contributes exactly its own path. */
  lemma {:induction false} ExtractFromLoneEmbed(r: ImageRef, prefixes: seq<string>)
    requires ImageRefWellFormed(r) && Lacks(r.alt, ']')
    ensures ExtractImagePaths(ImageText(r), prefixes)
         == match ImagePathOf(r.target, prefixes) case None => {} case Some(p) => {p}
  {
    ImageTargetsOfLoneEmbed(r);
  }

  // -------------------------------------------------------- the backed-up document

  /** What processing one document yields. */
  datatype Processed = Processed(text: string, title: string, images: set<string>)

  const HeadingPrefix := "# "
  const HeadingSuffix := "\n\n"

  /** `process_markdown_content`: title and image paths come from the document as read; the
      body is the document without its front matter, paths rewritten, stripped, under a
      `# <title>` heading. */
  function ProcessMarkdown(content: string, cfg: Settings): (r: Processed)
    ensures r.title == ExtractTitle(content)
    ensures r.images == ExtractImagePaths(content, cfg.imagePrefixes)
    ensures |r.text| >= |r.title| + 4
    ensures r.text[..|r.title| + 4] == HeadingPrefix + r.title + HeadingSuffix
    ensures var body := r.text[|r.title| + 4..];
      |body| > 0 ==> !IsSpace(body[0]) && !IsSpace(body[|body| - 1])
  {
    var title := ExtractTitle(content);
    var body := Strip(FixPaths(StripFrontMatter(content), cfg));
    Processed(Headed(title, body), title, ExtractImagePaths(content, cfg.imagePrefixes))
  }

  /** `body` under the heading `# <title>`, a blank line between. */
  function Headed(title: string, body: string): (text: string)
    ensures |text| == |title| + 4 + |body|
    ensures text[..|title| + 4] == HeadingPrefix + title + HeadingSuffix
    ensures text[|title| + 4..] == body
  {
    HeadingPrefix + title + HeadingSuffix + body
  }

  /** A document made of a front-matter block and a body without links: the title comes from
      the block, the body is kept, only stripped, and no image is referenced. */
  lemma {:induction false} ProcessBlock(fm: string, body: string, cfg: Settings)
    requires |fm| > 0 && !IsSpace(fm[0])
    requires forall k :: !OccursAt(fm, "\n---", k)
    requires |body| > 0 ==> !IsSpace(body[0])
    requires Lacks(fm, '[') && Lacks(body, '[')
    ensures ProcessMarkdown(Block(fm, body), cfg)
         == Processed(HeadingPrefix + TitleIn(fm) + HeadingSuffix + Strip(body), TitleIn(fm), {})
  {
    var s := Block(fm, body);
    assert StripFrontMatter(s) == body && ExtractTitle(s) == TitleIn(fm) by {
      BlockTitleAndRest(fm, body);
    }
    assert ImageTargets(s, 0) == [] by {
      BlockLacks(fm, body, '[');
      ImageTargetsWithoutEmbed(s, 0);
    }
  }

  /** A character absent from the front matter and the body is absent from the block
      unless the fences hold it. */
  lemma BlockLacks(fm: string, body: string, c: char)
    requires c != '-' && c != '\n'
    requires Lacks(fm, c) && Lacks(body, c)
    ensures Lacks(Block(fm, body), c)
  {
    var s := Block(fm, body);
    BlockLayout(fm, body);
    forall m | 0 <= m < |s|
      ensures s[m] != c
    {
      if m < 3 {
        assert s[m] == s[..3][m];
      } else if 4 <= m < 4 + |fm| {
        assert s[m] == s[4..4 + |fm|][m - 4];
      } else if 9 + |fm| <= m {
        assert s[m] == s[9 + |fm|..][m - 9 - |fm|];
      }
    }
  }
}
