/**
 * Documents as sequences of pieces: plain text, image embeds and links, each embed and
 * link followed by a run of `)`. On a document whose pieces are well formed, each
 * rewrite pass of `fix_paths_in_content` is a map over the pieces that changes only
 * link targets, each by the per-target function that describes the pass on a lone
 * link, and lengthens the run after every link an article pass rewrites by the one `)`
 * its template adds. This abstracts the regex scanning of a whole document; the scan
 * itself is the one `LinkScan` models, and the lemmas here are about that scan.
 */
module Documents {
  import opened Strings
  import opened LinkScan
  import opened Transform

  datatype Piece =
    | Plain(text: string)                                // text holding no `[`
    | Embed(alt: string, target: string, after: nat)     // ![alt](target) and `after` times `)`
    | Ref(anchor: string, target: string, after: nat)    // [anchor](target) and `after` times `)`

  function PieceText(q: Piece): string {
    match q
    case Plain(t) => t
    case Embed(a, t, n) => Link("![", a, t) + Closers(n)
    case Ref(l, t, n) => Link("[", l, t) + Closers(n)
  }

  function DocText(doc: seq<Piece>): string
    decreases |doc|
  {
    if doc == [] then [] else PieceText(doc[0]) + DocText(doc[1..])
  }

  /** Labels and targets a link pattern reads as one unit: no `[` anywhere, no `]` in a
      label, no `)` in a target. Plain text is non-empty. */
  predicate PieceOk(q: Piece) {
    match q
    case Plain(t) => |t| > 0 && Lacks(t, '[')
    case Embed(a, t, _) => Lacks(a, '[') && Lacks(a, ']') && Lacks(t, '[') && Lacks(t, ')')
    case Ref(l, t, _) => Lacks(l, '[') && Lacks(l, ']') && Lacks(t, '[') && Lacks(t, ')')
  }

  /** A well-formed document: every piece is, and no plain text ending in `!` comes right
      before a link (that `!` and the link would read as an image embed). */
  predicate DocOk(doc: seq<Piece>) {
    && (forall k :: 0 <= k < |doc| ==> PieceOk(doc[k]))
    && (forall k :: 0 <= k < |doc| - 1 && doc[k].Plain? && doc[k + 1].Ref? ==>
          doc[k].text[|doc[k].text| - 1] != '!')
  }

  lemma DocOkTail(doc: seq<Piece>)
    requires DocOk(doc) && doc != []
    ensures DocOk(doc[1..])
  {
    assert forall k :: 0 <= k < |doc| - 1 ==> doc[1..][k] == doc[k + 1];
  }

  /** A well-formed document starts with `[` exactly when it starts with a link. */
  lemma DocStart(doc: seq<Piece>)
    requires DocOk(doc) && doc != []
    ensures |DocText(doc)| > 0
    ensures DocText(doc)[0] == '[' <==> doc[0].Ref?
  {
    assert PieceOk(doc[0]);
    var t := PieceText(doc[0]);
    assert |t| > 0 && DocText(doc)[0] == t[0];
  }

  /** What one pass of `p` does to a piece: an embed's target and, for the link opener, a
      link's target become what the pass makes of them in a lone link, and the `)` the
      template adds join the run after it. */
  function RetargetPiece(p: Pattern, q: Piece, lit: string): Piece {
    match q
    case Plain(_) => q
    case Embed(a, t, n) => Embed(a, Retarget(p, a, t, lit), LoneCloses(p, a, t) + n)
    case Ref(l, t, n) => if p.opener == "[" then Ref(l, Retarget(p, l, t, lit), LoneCloses(p, l, t) + n) else q
  }

  function RetargetDoc(p: Pattern, doc: seq<Piece>, lit: string): (r: seq<Piece>)
    ensures |r| == |doc|
  {
    seq(|doc|, k requires 0 <= k < |doc| => RetargetPiece(p, doc[k], lit))
  }

  /** Plain text is copied whole: the opener cannot start in it. */
  lemma PlainHead(p: Pattern, t: string, rest: string, lit: string)
    requires IsOpener(p.opener)
    requires |t| > 0 && Lacks(t, '[')
    requires p.opener == "![" && t[|t| - 1] == '!' ==> !(|rest| > 0 && rest[0] == '[')
    ensures SubstFrom(p, t + rest, 0, lit) == t + SubstFrom(p, rest, 0, lit)
  {
    var s := t + rest;
    forall j | 0 <= j < |t|
      ensures !OccursAt(s, p.opener, j)
    {
      OccursAtSlices(s, p.opener, j);
      if j + |p.opener| <= |s| {
        assert s[j..j + |p.opener|][|p.opener| - 1] == s[j + |p.opener| - 1];
        if p.opener == "![" && j + 1 == |t| {
          assert s[j..j + 2][0] == s[j];
        }
      }
    }
    HeadCopy(p, t, rest, lit);
  }

  /** An article link under the image opener is copied whole: its only `[` is its first
      character, which no `!` precedes inside it. */
  lemma RefUnderImage(p: Pattern, l: string, t: string, rest: string, lit: string)
    requires p.opener == "!["
    requires Lacks(l, '[') && Lacks(t, '[')
    ensures SubstFrom(p, Link("[", l, t) + rest, 0, lit) == Link("[", l, t) + SubstFrom(p, rest, 0, lit)
  {
    var x := Link("[", l, t);
    var s := x + rest;
    LinkLayout("[", l, t);
    forall j | 0 <= j < |x|
      ensures !OccursAt(s, p.opener, j)
    {
      OccursAtSlices(s, p.opener, j);
      if j + 2 <= |s| {
        assert s[j..j + 2][0] == s[j] && s[j..j + 2][1] == s[j + 1];
        if j + 1 < |x| {
          var m := j + 1;
          if m < 1 + |l| {
            assert x[m] == x[1..1 + |l|][m - 1];
          } else if 1 + |l| + 2 <= m < |x| - 1 {
            assert x[m] == x[1 + |l| + 2..|x| - 1][m - 1 - |l| - 2];
          }
        }
      }
    }
    HeadCopy(p, x, rest, lit);
  }

  /** Under the link opener a leading `!` is copied. */
  lemma BangHead(p: Pattern, y: string, lit: string)
    requires p.opener == "["
    ensures SubstFrom(p, "!" + y, 0, lit) == "!" + SubstFrom(p, y, 0, lit)
  {
    assert !OccursAt("!" + y, p.opener, 0) by {
      assert p.opener == ['['];
      OccursAtChar("!" + y, '[', 0);
    }
    HeadCopy(p, "!", y, lit);
  }

  /** An embed is a `!` followed by a link. */
  lemma BangLink(a: string, t: string)
    ensures Link("![", a, t) == "!" + Link("[", a, t)
  {
  }

  /** Whatever the pass makes of a text, it makes `!` followed by it into `!` followed by
      the same. */
  lemma BangThen(p: Pattern, x: string, rest: string, lit: string, out: string)
    requires p.opener == "["
    requires SubstFrom(p, x + rest, 0, lit) == out + SubstFrom(p, rest, 0, lit)
    ensures SubstFrom(p, ("!" + x) + rest, 0, lit) == ("!" + out) + SubstFrom(p, rest, 0, lit)
  {
    BangHead(p, x + rest, lit);
    AppendRegroup("!", x, rest);
    AppendRegroup("!", out, SubstFrom(p, rest, 0, lit));
  }

  /** An image embed under the link opener: the `!` is copied and the rest is a link. */
  lemma EmbedUnderLink(p: Pattern, a: string, t: string, rest: string, lit: string)
    requires p.opener == "[" && Lacks(p.lit, ')')
    requires Lacks(a, '[') && Lacks(a, ']') && Lacks(t, '[') && Lacks(t, ')')
    ensures SubstFrom(p, Link("![", a, t) + rest, 0, lit)
         == Link("![", a, Retarget(p, a, t, lit)) + Closers(LoneCloses(p, a, t)) + SubstFrom(p, rest, 0, lit)
  {
    var r := Retarget(p, a, t, lit);
    LinkHead(p, a, t, rest, lit);
    BangThen(p, Link("[", a, t), rest, lit, Link("[", a, r) + Closers(LoneCloses(p, a, t)));
    BangLink(a, t);
    BangLink(a, r);
    AppendRegroup("!", Link("[", a, r), Closers(LoneCloses(p, a, t)));
  }

  /** A run of `)` is copied whole. */
  lemma ClosersHead(p: Pattern, n: nat, rest: string, lit: string)
    requires IsOpener(p.opener)
    ensures SubstFrom(p, Closers(n) + rest, 0, lit) == Closers(n) + SubstFrom(p, rest, 0, lit)
  {
    if n == 0 {
      assert Closers(n) + rest == rest;
      assert Closers(n) + SubstFrom(p, rest, 0, lit) == SubstFrom(p, rest, 0, lit);
    } else {
      assert Closers(n)[n - 1] == ')';
      PlainHead(p, Closers(n), rest, lit);
    }
  }

  /** A text the pass turns into `y`, followed by a run of `)`: the run is copied after `y`. */
  lemma HeadThenClosers(p: Pattern, x: string, n: nat, rest: string, lit: string, y: string)
    requires IsOpener(p.opener)
    requires SubstFrom(p, x + (Closers(n) + rest), 0, lit) == y + SubstFrom(p, Closers(n) + rest, 0, lit)
    ensures SubstFrom(p, (x + Closers(n)) + rest, 0, lit) == (y + Closers(n)) + SubstFrom(p, rest, 0, lit)
  {
    ClosersHead(p, n, rest, lit);
    AppendRegroup(x, Closers(n), rest);
    AppendRegroup(y, Closers(n), SubstFrom(p, rest, 0, lit));
  }

  /** The `)` a template adds and the run after the link form one run. */
  lemma ClosersJoin(y: string, c: nat, n: nat, w: string)
    ensures (y + Closers(c) + Closers(n)) + w == (y + Closers(c + n)) + w
  {
    ClosersAdd(c, n);
  }

  /** A text the pass turns into `y` and `c` closers, followed by a run of `n` more. */
  lemma HeadClosed(p: Pattern, x: string, n: nat, rest: string, lit: string, y: string, c: nat)
    requires IsOpener(p.opener)
    requires SubstFrom(p, x + (Closers(n) + rest), 0, lit) == y + Closers(c) + SubstFrom(p, Closers(n) + rest, 0, lit)
    ensures SubstFrom(p, (x + Closers(n)) + rest, 0, lit) == (y + Closers(c + n)) + SubstFrom(p, rest, 0, lit)
  {
    HeadThenClosers(p, x, n, rest, lit, y + Closers(c));
    ClosersJoin(y, c, n, SubstFrom(p, rest, 0, lit));
  }

  /** A link or embed under its own opener, followed by its run of `)`. */
  lemma LinkPieceHead(p: Pattern, l: string, t: string, n: nat, rest: string, lit: string)
    requires IsOpener(p.opener) && Lacks(p.lit, ')')
    requires Lacks(l, '[') && Lacks(l, ']') && Lacks(t, '[') && Lacks(t, ')')
    ensures SubstFrom(p, (Link(p.opener, l, t) + Closers(n)) + rest, 0, lit)
         == (Link(p.opener, l, Retarget(p, l, t, lit)) + Closers(LoneCloses(p, l, t) + n)) + SubstFrom(p, rest, 0, lit)
  {
    LinkHead(p, l, t, Closers(n) + rest, lit);
    HeadClosed(p, Link(p.opener, l, t), n, rest, lit, Link(p.opener, l, Retarget(p, l, t, lit)), LoneCloses(p, l, t));
  }

  /** An embed under the link opener, followed by its run of `)`. */
  lemma EmbedPieceUnderLink(p: Pattern, a: string, t: string, n: nat, rest: string, lit: string)
    requires p.opener == "[" && Lacks(p.lit, ')')
    requires Lacks(a, '[') && Lacks(a, ']') && Lacks(t, '[') && Lacks(t, ')')
    ensures SubstFrom(p, (Link("![", a, t) + Closers(n)) + rest, 0, lit)
         == (Link("![", a, Retarget(p, a, t, lit)) + Closers(LoneCloses(p, a, t) + n)) + SubstFrom(p, rest, 0, lit)
  {
    EmbedUnderLink(p, a, t, Closers(n) + rest, lit);
    HeadClosed(p, Link("![", a, t), n, rest, lit, Link("![", a, Retarget(p, a, t, lit)), LoneCloses(p, a, t));
  }

  /** A link under the image opener, followed by its run of `)`, is copied whole. */
  lemma RefPieceUnderImage(p: Pattern, l: string, t: string, n: nat, rest: string, lit: string)
    requires p.opener == "!["
    requires Lacks(l, '[') && Lacks(t, '[')
    ensures SubstFrom(p, (Link("[", l, t) + Closers(n)) + rest, 0, lit)
         == (Link("[", l, t) + Closers(n)) + SubstFrom(p, rest, 0, lit)
  {
    RefUnderImage(p, l, t, Closers(n) + rest, lit);
    HeadThenClosers(p, Link("[", l, t), n, rest, lit, Link("[", l, t));
  }

  /** One pass over a piece followed by any text. */
  lemma PieceHead(p: Pattern, q: Piece, rest: string, lit: string)
    requires IsOpener(p.opener) && Lacks(p.lit, ')')
    requires PieceOk(q)
    requires q.Plain? && p.opener == "![" && q.text[|q.text| - 1] == '!' ==> !(|rest| > 0 && rest[0] == '[')
    ensures SubstFrom(p, PieceText(q) + rest, 0, lit) == PieceText(RetargetPiece(p, q, lit)) + SubstFrom(p, rest, 0, lit)
  {
    match q
    case Plain(t) => PlainHead(p, t, rest, lit);
    case Embed(a, t, n) =>
      if p.opener == "![" {
        LinkPieceHead(p, a, t, n, rest, lit);
      } else {
        EmbedPieceUnderLink(p, a, t, n, rest, lit);
      }
    case Ref(l, t, n) =>
      if p.opener == "[" {
        LinkPieceHead(p, l, t, n, rest, lit);
      } else {
        RefPieceUnderImage(p, l, t, n, rest, lit);
      }
  }

  /** One pass of an opener's pattern over a well-formed document rewrites each link as it
      would rewrite that link alone, and keeps everything else. */
  lemma {:induction false} SubstituteDoc(p: Pattern, doc: seq<Piece>, lit: string)
    requires IsOpener(p.opener) && Lacks(p.lit, ')')
    requires DocOk(doc)
    ensures Substitute(p, DocText(doc), lit) == DocText(RetargetDoc(p, doc, lit))
  {
    SubstFromDoc(p, doc, lit);
  }

  lemma {:induction false} SubstFromDoc(p: Pattern, doc: seq<Piece>, lit: string)
    requires IsOpener(p.opener) && Lacks(p.lit, ')')
    requires DocOk(doc)
    ensures SubstFrom(p, DocText(doc), 0, lit) == DocText(RetargetDoc(p, doc, lit))
    decreases |doc|
  {
    if doc != [] {
      var rest := DocText(doc[1..]);
      assert PieceOk(doc[0]);
      if |doc| > 1 {
        DocOkTail(doc);
        DocStart(doc[1..]);
      }
      PieceHead(p, doc[0], rest, lit);
      DocOkTail(doc);
      SubstFromDoc(p, doc[1..], lit);
      RetargetDocTail(p, doc, lit);
    }
  }

  lemma RetargetDocTail(p: Pattern, doc: seq<Piece>, lit: string)
    requires doc != []
    ensures RetargetDoc(p, doc, lit)[1..] == RetargetDoc(p, doc[1..], lit)
  {
  }

  // ------------------------------------------------- the passes of fix_paths_in_content

  /** A pass leaves a character out of a target when neither the target nor the
      replacement literal holds it. */
  lemma RetargetLacks(p: Pattern, text: string, target: string, lit: string, c: char)
    requires Lacks(target, c) && Lacks(lit, c)
    ensures Lacks(Retarget(p, text, target, lit), c)
  {
    if LoneMatches(p, text, target) {
      LacksSlice(target, c, |p.lit|, |target|);
      LacksSlice(target, c, 0, |target|);
      assert target[0..|target|] == target;
    }
  }

  /** The image pass for `from` moves an embed's target by `ImageStep`. */
  lemma RetargetImage(alt: string, target: string, from: string, to: string)
    ensures Retarget(ImagePattern(from), alt, target, to) == ImageStep(target, from, to)
    ensures LoneCloses(ImagePattern(from), alt, target) == 0
  {
    if from <= target {
      assert target[..|from|] == from;
    }
  }

  function ImagePiece(q: Piece, froms: seq<string>, to: string): Piece {
    match q
    case Embed(a, t, n) => Embed(a, ImageTarget(t, froms, to), n)
    case _ => q
  }

  /** The document every image embed of which has the target `ImageTarget` gives it. */
  function ImageDoc(doc: seq<Piece>, froms: seq<string>, to: string): (r: seq<Piece>)
    ensures |r| == |doc|
  {
    seq(|doc|, k requires 0 <= k < |doc| => ImagePiece(doc[k], froms, to))
  }

  /** What the image passes need of the configuration: no `)` in a `from` prefix (it could
      run past an embed's end), no `[` or `)` in the replacement. */
  predicate ImageSettingsOk(froms: seq<string>, to: string) {
    && (forall k :: 0 <= k < |froms| ==> Lacks(froms[k], ')'))
    && Lacks(to, '[') && Lacks(to, ')')
  }

  lemma ImageStepDocOk(doc: seq<Piece>, from: string, to: string)
    requires DocOk(doc) && Lacks(to, '[') && Lacks(to, ')')
    ensures DocOk(RetargetDoc(ImagePattern(from), doc, to))
  {
    var d1 := RetargetDoc(ImagePattern(from), doc, to);
    forall k | 0 <= k < |doc|
      ensures PieceOk(d1[k]) && d1[k].Plain? == doc[k].Plain? && d1[k].Ref? == doc[k].Ref?
      ensures d1[k].Plain? ==> d1[k] == doc[k]
    {
      assert PieceOk(doc[k]);
      if doc[k].Embed? {
        RetargetLacks(ImagePattern(from), doc[k].alt, doc[k].target, to, '[');
        RetargetLacks(ImagePattern(from), doc[k].alt, doc[k].target, to, ')');
      }
    }
  }

  /** All image passes over a well-formed document: each embed keeps its alt text and its
      target goes through the prefixes in configured order; links and plain text are kept. */
  lemma {:induction false} ImagePassesDoc(doc: seq<Piece>, froms: seq<string>, to: string)
    requires DocOk(doc) && ImageSettingsOk(froms, to)
    ensures ImagePasses(DocText(doc), froms, to) == DocText(ImageDoc(doc, froms, to))
    ensures DocOk(ImageDoc(doc, froms, to))
    decreases |froms|
  {
    if froms == [] {
      assert forall k :: 0 <= k < |doc| ==> ImageDoc(doc, froms, to)[k] == doc[k];
      assert ImageDoc(doc, froms, to) == doc;
    } else {
      var p := ImagePattern(froms[0]);
      var d1 := RetargetDoc(p, doc, to);
      assert ImagePasses(DocText(doc), froms, to) == ImagePasses(DocText(d1), froms[1..], to) by {
        SubstituteDoc(p, doc, to);
      }
      ImageStepDocOk(doc, froms[0], to);
      ImagePassesDoc(d1, froms[1..], to);
      ImageDocStep(doc, froms, to);
    }
  }

  lemma ImageDocStep(doc: seq<Piece>, froms: seq<string>, to: string)
    requires froms != []
    ensures ImageDoc(RetargetDoc(ImagePattern(froms[0]), doc, to), froms[1..], to) == ImageDoc(doc, froms, to)
  {
    var d1 := RetargetDoc(ImagePattern(froms[0]), doc, to);
    forall k | 0 <= k < |doc|
      ensures ImageDoc(d1, froms[1..], to)[k] == ImageDoc(doc, froms, to)[k]
    {
      if doc[k].Embed? {
        RetargetImage(doc[k].alt, doc[k].target, froms[0], to);
      }
    }
  }

  /** The target a link or embed with label `l` ends up with after the article passes:
      the patterns need a non-empty label, so an empty one keeps its target. */
  function LabelledTarget(l: string, t: string, dirs: seq<(string, string)>): string {
    if |l| > 0 then ArticleTarget(t, dirs) else t
  }

  /** How many `)` the article passes write after a link or embed with label `l`. */
  function LabelledCloses(l: string, t: string, dirs: seq<(string, string)>): nat {
    if |l| > 0 then ArticleTargetCloses(t, dirs) else 0
  }

  function ArticlePiece(q: Piece, dirs: seq<(string, string)>): Piece {
    match q
    case Plain(_) => q
    case Embed(a, t, n) => Embed(a, LabelledTarget(a, t, dirs), LabelledCloses(a, t, dirs) + n)
    case Ref(l, t, n) => Ref(l, LabelledTarget(l, t, dirs), LabelledCloses(l, t, dirs) + n)
  }

  /** The document every labelled link and embed of which has the target `ArticleTarget`
      gives it. */
  function ArticleDoc(doc: seq<Piece>, dirs: seq<(string, string)>): (r: seq<Piece>)
    ensures |r| == |doc|
  {
    seq(|doc|, k requires 0 <= k < |doc| => ArticlePiece(doc[k], dirs))
  }

  /** What the article passes need of the configuration: no `)` in an old directory, no
      `[` or `)` in a new one. */
  predicate ArticleDirsOk(dirs: seq<(string, string)>) {
    forall k :: 0 <= k < |dirs| ==>
      Lacks(dirs[k].0, ')') && Lacks(dirs[k].1, '[') && Lacks(dirs[k].1, ')')
  }

  /** Both passes of a pair move a labelled target by `ArticleStep` and write one `)` for
      each pass that matched. */
  lemma RetargetArticle(l: string, t: string, oldDir: string, newDir: string)
    ensures Retarget(BareArticlePattern(oldDir), l, Retarget(ArticlePattern(oldDir), l, t, newDir), TrimEndChar(newDir, '/'))
         == LabelledTarget(l, t, [(oldDir, newDir)])
    ensures LoneCloses(BareArticlePattern(oldDir), l, Retarget(ArticlePattern(oldDir), l, t, newDir))
            + LoneCloses(ArticlePattern(oldDir), l, t)
         == LabelledCloses(l, t, [(oldDir, newDir)])
  {
    var bare := "/" + oldDir;
    if |l| > 0 {
      if UnderDir(t, oldDir) {
        assert t[..|oldDir| + 2] == "/" + oldDir + "/";
      }
      var t1 := Retarget(ArticlePattern(oldDir), l, t, newDir);
      assert t1 == FirstStep(t, oldDir, newDir);
      if bare <= t1 {
        assert t1[..|bare|] == bare;
        if |t1| > |bare| {
          assert t1[|bare|..][0] == t1[|bare|];
        }
      }
      assert [(oldDir, newDir)][1..] == [];
      assert ArticleTarget(t, [(oldDir, newDir)]) == ArticleStep(t, oldDir, newDir);
      assert ArticleTargetCloses(t, [(oldDir, newDir)]) == ArticleCloses(t, oldDir, newDir);
    }
  }

  lemma LacksPrefix(s: string, r: string, c: char)
    requires Lacks(s, c) && |r| <= |s| && r == s[..|r|]
    ensures Lacks(r, c)
  {
    assert forall k :: 0 <= k < |r| ==> r[k] == s[k];
  }

  lemma LacksDir(oldDir: string)
    requires Lacks(oldDir, ')')
    ensures Lacks("/" + oldDir + "/", ')') && Lacks("/" + oldDir, ')')
  {
    assert forall k :: 1 <= k < |oldDir| + 1 ==> ("/" + oldDir)[k] == oldDir[k - 1];
    assert forall k :: 1 <= k < |oldDir| + 1 ==> ("/" + oldDir + "/")[k] == oldDir[k - 1];
  }

  lemma ArticleRetargetOk(p: Pattern, doc: seq<Piece>, lit: string)
    requires DocOk(doc) && p.opener == "[" && Lacks(lit, '[') && Lacks(lit, ')')
    ensures DocOk(RetargetDoc(p, doc, lit))
  {
    var d1 := RetargetDoc(p, doc, lit);
    forall k | 0 <= k < |doc|
      ensures PieceOk(d1[k]) && d1[k].Plain? == doc[k].Plain? && d1[k].Ref? == doc[k].Ref?
      ensures d1[k].Plain? ==> d1[k] == doc[k]
    {
      assert PieceOk(doc[k]);
      match doc[k]
      case Plain(_) =>
      case Embed(a, t, _) =>
        RetargetLacks(p, a, t, lit, '[');
        RetargetLacks(p, a, t, lit, ')');
      case Ref(l, t, _) =>
        RetargetLacks(p, l, t, lit, '[');
        RetargetLacks(p, l, t, lit, ')');
    }
  }

  /** Both passes of one `old -> new` pair over a well-formed document: each labelled
      target moves by `ArticleStep`, and the run after it grows by `ArticleCloses`. */
  lemma ArticlePassDoc(doc: seq<Piece>, oldDir: string, newDir: string)
    requires DocOk(doc) && Lacks(oldDir, ')') && Lacks(newDir, '[') && Lacks(newDir, ')')
    ensures ArticlePass(DocText(doc), oldDir, newDir) == DocText(ArticleDoc(doc, [(oldDir, newDir)]))
    ensures DocOk(ArticleDoc(doc, [(oldDir, newDir)]))
  {
    var p1, p2 := ArticlePattern(oldDir), BareArticlePattern(oldDir);
    var lit2 := TrimEndChar(newDir, '/');
    LacksDir(oldDir);
    LacksPrefix(newDir, lit2, '[');
    LacksPrefix(newDir, lit2, ')');
    var d1 := RetargetDoc(p1, doc, newDir);
    SubstituteDoc(p1, doc, newDir);
    ArticleRetargetOk(p1, doc, newDir);
    SubstituteDoc(p2, d1, lit2);
    ArticleRetargetOk(p2, d1, lit2);
    var d2 := RetargetDoc(p2, d1, lit2);
    forall k | 0 <= k < |doc|
      ensures d2[k] == ArticleDoc(doc, [(oldDir, newDir)])[k]
    {
      ArticlePieceStep(doc[k], oldDir, newDir);
    }
    assert d2 == ArticleDoc(doc, [(oldDir, newDir)]);
  }

  /** Both passes of one pair on a single piece. */
  lemma ArticlePieceStep(q: Piece, oldDir: string, newDir: string)
    ensures RetargetPiece(BareArticlePattern(oldDir), RetargetPiece(ArticlePattern(oldDir), q, newDir), TrimEndChar(newDir, '/'))
         == ArticlePiece(q, [(oldDir, newDir)])
  {
    match q
    case Plain(_) =>
    case Embed(a, t, _) => RetargetArticle(a, t, oldDir, newDir);
    case Ref(l, t, _) => RetargetArticle(l, t, oldDir, newDir);
  }

  /** Every article pair over a well-formed document, in configured order: each labelled
      link and embed keeps its label, its target goes through the pairs in order, and the
      run of `)` after it grows by one for every pass that matched it. */
  lemma {:induction false} ArticlePassesDoc(doc: seq<Piece>, dirs: seq<(string, string)>)
    requires DocOk(doc) && ArticleDirsOk(dirs)
    ensures ArticlePasses(DocText(doc), dirs) == DocText(ArticleDoc(doc, dirs))
    decreases |dirs|
  {
    if dirs == [] {
      assert forall k :: 0 <= k < |doc| ==> ArticleDoc(doc, dirs)[k] == doc[k];
      assert ArticleDoc(doc, dirs) == doc;
    } else {
      var d1 := ArticleDoc(doc, [dirs[0]]);
      assert ArticlePasses(DocText(doc), dirs) == ArticlePasses(DocText(d1), dirs[1..]) by {
        assert Lacks(dirs[0].0, ')') && Lacks(dirs[0].1, '[') && Lacks(dirs[0].1, ')');
        ArticlePassDoc(doc, dirs[0].0, dirs[0].1);
      }
      assert DocOk(d1) by {
        ArticlePassDoc(doc, dirs[0].0, dirs[0].1);
      }
      ArticlePassesDoc(d1, dirs[1..]);
      ArticleDocStep(doc, dirs);
    }
  }

  lemma ArticleDocStep(doc: seq<Piece>, dirs: seq<(string, string)>)
    requires dirs != []
    ensures ArticleDoc(ArticleDoc(doc, [dirs[0]]), dirs[1..]) == ArticleDoc(doc, dirs)
  {
    var d1 := ArticleDoc(doc, [dirs[0]]);
    assert [dirs[0]][1..] == [];
    forall k | 0 <= k < |doc|
      ensures ArticleDoc(d1, dirs[1..])[k] == ArticleDoc(doc, dirs)[k]
    {
      match doc[k]
      case Plain(_) =>
      case Embed(_, t, _) => ArticleTargetFirst(t, dirs);
      case Ref(_, t, _) => ArticleTargetFirst(t, dirs);
    }
  }

  lemma ArticleTargetFirst(t: string, dirs: seq<(string, string)>)
    requires dirs != []
    ensures ArticleTarget(ArticleTarget(t, [dirs[0]]), dirs[1..]) == ArticleTarget(t, dirs)
    ensures ArticleTargetCloses(ArticleTarget(t, [dirs[0]]), dirs[1..]) + ArticleTargetCloses(t, [dirs[0]])
         == ArticleTargetCloses(t, dirs)
  {
    assert [dirs[0]][1..] == [];
    assert ArticleTarget(t, [dirs[0]]) == ArticleStep(t, dirs[0].0, dirs[0].1);
    assert ArticleTargetCloses(t, [dirs[0]]) == ArticleCloses(t, dirs[0].0, dirs[0].1);
  }

  /** `fix_paths_in_content` over a well-formed document: the image passes move embed
      targets, then the article passes move every labelled target, the embeds' included,
      and leave a `)` after it for every pass that matched; labels, alt texts and plain text
      are kept. */
  lemma FixPathsDoc(doc: seq<Piece>, cfg: Settings)
    requires DocOk(doc)
    requires ImageSettingsOk(cfg.imageFrom, cfg.imageTo) && ArticleDirsOk(cfg.articleDirs)
    ensures FixPaths(DocText(doc), cfg)
         == DocText(ArticleDoc(ImageDoc(doc, cfg.imageFrom, cfg.imageTo), cfg.articleDirs))
  {
    ImagePassesDoc(doc, cfg.imageFrom, cfg.imageTo);
    ArticlePassesDoc(ImageDoc(doc, cfg.imageFrom, cfg.imageTo), cfg.articleDirs);
  }
}
