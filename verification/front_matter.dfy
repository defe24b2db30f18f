/** The front matter of a post: the `---` block at the very start of the file, the title
    read from it, and its removal before rendering.

    Both regular expressions involved are modelled together with the order in which
    Python's backtracking engine tries their alternatives, so that the match modelled is
    the one the engine returns, not merely some match. */
module FrontMatter {
  import opened Options
  import opened Strings

  /** A match of `^---\s*\n(.*?)\n---\s*\n` (DOTALL) spanning `s[..end]`, with group 1
      `s[body..close]`. */
  datatype Fence = Fence(body: nat, close: nat, end: nat)

  /** `\s*\n` matches exactly `s[a..n]`. */
  predicate SpacesThenNewline(s: string, a: nat, n: nat) {
    a < n <= |s| && SpaceBetween(s, a, n - 1) && s[n - 1] == '\n'
  }

  /** `\n---\s*\n` matches exactly `s[e..n]`. */
  predicate ClosesAt(s: string, e: nat, n: nat) {
    OccursAt(s, "\n---", e) && SpacesThenNewline(s, e + 4, n)
  }

  /** `f` is one way for the front-matter pattern to match at the start of `s`. */
  predicate FenceAt(s: string, f: Fence) {
    && OccursAt(s, "---", 0)
    && SpacesThenNewline(s, 3, f.body)
    && f.body <= f.close
    && ClosesAt(s, f.close, f.end)
  }

  /** The engine tries `a` no later than `b`: the opening `\s*` is greedy (a later group
      start is tried first), the group is lazy (an earlier close is tried first) and the
      closing `\s*` is greedy (a later end is tried first). */
  predicate TriedFirst(a: Fence, b: Fence) {
    || a.body > b.body
    || (a.body == b.body && a.close < b.close)
    || (a.body == b.body && a.close == b.close && a.end >= b.end)
  }

  /** The closing `\n---\s*\n` at index `e`, and where its greedy `\s*` lets the match end:
      one past the last newline of the whitespace run after `---`. */
  function CloseEnd(s: string, e: nat): (r: Option<nat>)
    ensures r.Some? ==> ClosesAt(s, e, r.value)
  {
    if OccursAt(s, "\n---", e) then
      match LastIndexIn(s, '\n', e + 4, SpaceRunEnd(s, e + 4))
      case Some(k) => Some(k + 1)
      case None => None
    else None
  }

  /** Every way for the closing fence to match at `e` is found, and the one found ends
      last. */
  lemma CloseEndComplete(s: string, e: nat, n: nat)
    requires ClosesAt(s, e, n)
    ensures CloseEnd(s, e).Some? && n <= CloseEnd(s, e).value
  {
    var w := SpaceRunEnd(s, e + 4);
    assert n <= w by {
      if w < n {
        assert IsSpace(s[w]);
      }
    }
  }

  /** The lazy group `(.*?)` starting at `g`: the first index at or after `g` where the
      closing fence matches (DOTALL, so any character may be passed over). */
  function FirstClose(s: string, g: nat): (r: Option<nat>)
    requires g <= |s|
    ensures r.Some? ==> g <= r.value <= |s| && CloseEnd(s, r.value).Some?
    ensures forall e :: g <= e && (r.Some? ==> e < r.value) ==> CloseEnd(s, e).None?
    decreases |s| - g
  {
    if CloseEnd(s, g).Some? then Some(g)
    else if g == |s| then None
    else FirstClose(s, g + 1)
  }

  /** The greedy opening `\s*\n`, backtracking: the group starts after the last newline
      before `hi` from which the lazy group can reach a closing fence, later newlines
      tried first. */
  function OpenFrom(s: string, hi: nat): (r: Option<Fence>)
    requires OccursAt(s, "---", 0) && 3 <= hi <= |s| && SpaceBetween(s, 3, hi)
    ensures r.Some? ==> FenceAt(s, r.value) && r.value.body <= hi
    decreases hi
  {
    match LastIndexIn(s, '\n', 3, hi)
    case None => None
    case Some(q) =>
      match FirstClose(s, q + 1)
      case Some(e) => Some(Fence(q + 1, e, CloseEnd(s, e).value))
      case None => OpenFrom(s, q)
  }

  /** Every match whose group starts at or before `hi` is found, or one the engine tries
      before it. */
  lemma {:induction false} OpenFromFirst(s: string, hi: nat, f: Fence)
    requires OccursAt(s, "---", 0) && 3 <= hi <= |s| && SpaceBetween(s, 3, hi)
    requires FenceAt(s, f) && f.body <= hi
    ensures OpenFrom(s, hi).Some? && TriedFirst(OpenFrom(s, hi).value, f)
    decreases hi
  {
    var q0 := f.body - 1;
    assert s[q0] == '\n';
    CloseEndComplete(s, f.close, f.end);
    match LastIndexIn(s, '\n', 3, hi)
    case Some(q) =>
      match FirstClose(s, q + 1)
      case Some(e) =>
      case None =>
        OpenFromFirst(s, q, f);
  }

  /** `re.search(r'^---\s*\n(.*?)\n---\s*\n', s, re.DOTALL)`: without MULTILINE, `^`
      anchors at index 0 only. */
  function MatchFrontMatter(s: string): (r: Option<Fence>)
    ensures r.Some? ==> FenceAt(s, r.value)
  {
    if OccursAt(s, "---", 0) then OpenFrom(s, SpaceRunEnd(s, 3)) else None
  }

  /** Whenever the pattern can match, the match returned is the first the engine tries. */
  lemma MatchFrontMatterFirst(s: string, f: Fence)
    requires FenceAt(s, f)
    ensures MatchFrontMatter(s).Some? && TriedFirst(MatchFrontMatter(s).value, f)
  {
    var w := SpaceRunEnd(s, 3);
    assert IsSpace(s[f.body - 1]);
    OpenFromFirst(s, w, f);
  }

  /** `re.sub(r'^---\s*\n.*?\n---\s*\n', '', s, flags=re.DOTALL)`. The `^` only matches at
      index 0, so at most the one block at the very start is removed. */
  function StripFrontMatter(s: string): (r: string)
    ensures |r| <= |s| && r == s[|s| - |r|..]
  {
    match MatchFrontMatter(s)
    case None => s
    case Some(f) => s[f.end..]
  }

  /** The text is kept whole when no front-matter block opens it; otherwise exactly the
      block the engine matches first is cut, and nothing after it. */
  lemma {:induction false} StripFrontMatterCuts(s: string)
    ensures (forall f :: !FenceAt(s, f)) ==> StripFrontMatter(s) == s
    ensures forall f :: FenceAt(s, f) ==>
      exists g :: FenceAt(s, g) && TriedFirst(g, f) && StripFrontMatter(s) == s[g.end..]
  {
    forall f | FenceAt(s, f)
      ensures exists g :: FenceAt(s, g) && TriedFirst(g, f) && StripFrontMatter(s) == s[g.end..]
    {
      MatchFrontMatterFirst(s, f);
      var g := MatchFrontMatter(s).value;
      assert FenceAt(s, g) && TriedFirst(g, f) && StripFrontMatter(s) == s[g.end..];
    }
  }

  /** A post laid out as `---`, newline, front matter, newline, `---`, newline, body. */
  function Block(fm: string, body: string): string {
    "---\n" + fm + "\n---\n" + body
  }

  /** The layout of `Block(fm, body)`, index by index. */
  lemma BlockLayout(fm: string, body: string)
    ensures var s := Block(fm, body); var c := 4 + |fm|;
      && |s| == c + 5 + |body|
      && s[..3] == "---" && s[3] == '\n'
      && s[4..c] == fm
      && s[c] == '\n' && s[c + 1] == '-' && s[c + 2] == '-' && s[c + 3] == '-' && s[c + 4] == '\n'
      && s[c + 5..] == body
      && (forall k :: 0 <= k < |fm| ==> s[4 + k] == fm[k])
      && (forall k :: 0 <= k < |body| ==> s[c + 5 + k] == body[k])
  {
    var s := Block(fm, body);
    assert s == "---\n" + fm + "\n---\n" + body;
  }

  /** A fence at the start of `Block(fm, body)` that the engine tries no later than the
      intended one has the intended group start, provided the front matter does not start
      with whitespace. */
  lemma BlockBody(fm: string, body: string, f: Fence)
    requires |fm| > 0 && !IsSpace(fm[0])
    requires FenceAt(Block(fm, body), f)
    ensures f.body == 4
  {
    var s := Block(fm, body);
    BlockLayout(fm, body);
    assert s[4] == fm[0];
    assert !IsSpace(s[4]) && s[f.body - 1] == '\n';
  }

  /** The first `\n---` at or after the group start of `Block(fm, body)` is the intended
      one, provided the front matter holds no line starting with `---`. */
  lemma BlockClose(fm: string, body: string, e: nat)
    requires forall k :: !OccursAt(fm, "\n---", k)
    requires 4 <= e < 4 + |fm|
    ensures !OccursAt(Block(fm, body), "\n---", e)
  {
    var s := Block(fm, body);
    var c := 4 + |fm|;
    BlockLayout(fm, body);
    if OccursAt(s, "\n---", e) {
      OccursAtSlices(s, "\n---", e);
      assert s[e + 1] == '-' && s[e + 2] == '-' && s[e + 3] == '-' by {
        assert s[e..e + 4][1] == '-' && s[e..e + 4][2] == '-' && s[e..e + 4][3] == '-';
      }
      assert e + 4 <= c;
      assert fm[e - 4..e] == s[e..e + 4];
      OccursAtSlices(fm, "\n---", e - 4);
      assert false;
    }
  }

  /** The intended block of `Block(fm, body)` is a way for the pattern to match. */
  lemma BlockFence(fm: string, body: string)
    ensures FenceAt(Block(fm, body), Fence(4, 4 + |fm|, 9 + |fm|))
  {
    var s := Block(fm, body);
    var c := 4 + |fm|;
    BlockLayout(fm, body);
    OccursAtSlices(s, "---", 0);
    assert s[c..c + 4] == "\n---";
    OccursAtSlices(s, "\n---", c);
  }

  /** A closing fence at the intended place ends at the intended place, provided the body
      does not start with whitespace. */
  lemma BlockEnd(fm: string, body: string, n: nat)
    requires |body| > 0 ==> !IsSpace(body[0])
    requires ClosesAt(Block(fm, body), 4 + |fm|, n)
    ensures n == 9 + |fm|
  {
    var s := Block(fm, body);
    BlockLayout(fm, body);
    assert s[n - 1] == '\n';
    if |body| > 0 {
      assert !IsSpace(s[9 + |fm|]);
    }
  }

  /** The engine matches exactly the intended block of `Block(fm, body)` when the front
      matter does not start with whitespace and holds no line starting with `---`, and the
      body does not start with whitespace. */
  lemma {:induction false} BlockMatches(fm: string, body: string)
    requires |fm| > 0 && !IsSpace(fm[0])
    requires forall k :: !OccursAt(fm, "\n---", k)
    requires |body| > 0 ==> !IsSpace(body[0])
    ensures MatchFrontMatter(Block(fm, body)) == Some(Fence(4, 4 + |fm|, 9 + |fm|))
  {
    var s := Block(fm, body);
    var c := 4 + |fm|;
    var f0 := Fence(4, c, c + 5);
    assert MatchFrontMatter(s).Some? && TriedFirst(MatchFrontMatter(s).value, f0) by {
      BlockFence(fm, body);
      MatchFrontMatterFirst(s, f0);
    }
    var f := MatchFrontMatter(s).value;
    assert f.body == 4 by {
      BlockBody(fm, body, f);
    }
    assert f.close == c by {
      if f.close < c {
        BlockClose(fm, body, f.close);
      }
    }
    assert f.end == c + 5 by {
      BlockEnd(fm, body, f.end);
    }
  }

  /** Rendering drops exactly the block and reads the title from it. */
  lemma {:induction false} BlockTitleAndRest(fm: string, body: string)
    requires |fm| > 0 && !IsSpace(fm[0])
    requires forall k :: !OccursAt(fm, "\n---", k)
    requires |body| > 0 ==> !IsSpace(body[0])
    ensures StripFrontMatter(Block(fm, body)) == body
    ensures ExtractTitle(Block(fm, body)) == TitleIn(fm)
  {
    BlockMatches(fm, body);
    BlockLayout(fm, body);
    ExtractTitleReads(Block(fm, body));
  }

  predicate IsQuote(c: char) {
    c == '"' || c == '\''
  }

  /** `\s*$` under MULTILINE matches at index `x`: the whitespace run from `x` reaches a
      line end, that is a newline or the end of the text. */
  predicate LineEndsAfterSpace(s: string, x: nat)
    requires x <= |s|
    decreases |s| - x
  {
    x == |s| || s[x] == '\n' || (IsSpace(s[x]) && LineEndsAfterSpace(s, x + 1))
  }

  /** `["\']?\s*$` matches at index `x`. */
  predicate TrailerAt(s: string, x: nat)
    requires x <= |s|
  {
    LineEndsAfterSpace(s, x) || (x < |s| && IsQuote(s[x]) && LineEndsAfterSpace(s, x + 1))
  }

  /** The lazy `(.*?)` of the title pattern from `g`: the first index at or after `g`
      where the trailer matches; `.` does not pass a newline. */
  function LazyTitleEnd(s: string, g: nat): (r: nat)
    requires g <= |s|
    ensures g <= r <= |s| && TrailerAt(s, r) && NoneBetween(s, '\n', g, r)
    ensures forall k :: g <= k < r ==> !TrailerAt(s, k)
    decreases |s| - g
  {
    if TrailerAt(s, g) then g else LazyTitleEnd(s, g + 1)
  }

  /** `re.search(r'title:\s*["\']?(.*?)["\']?\s*$', fm, re.MULTILINE)`, group 1. A match
      can only start at a `title:`, and one always succeeds at the first: the greedy `\s*`
      (which crosses line breaks) and the optional opening quote keep what they take, and
      the lazy group stops at the first index where an optional closing quote and
      whitespace reach a line end. */
  function TitleMatch(fm: string): (r: Option<string>)
    ensures r.None? <==> FindFrom(fm, "title:", 0).None?
  {
    match FindFrom(fm, "title:", 0)
    case None => None
    case Some(t) =>
      var g := GroupStart(fm, t + 6);
      Some(fm[g..LazyTitleEnd(fm, g)])
  }

  /** Where group 1 starts when `title:` ends at `a`: after the whitespace run and one
      optional opening quote. */
  function GroupStart(fm: string, a: nat): (g: nat)
    requires a <= |fm|
    ensures a <= g <= |fm|
  {
    var w := SpaceRunEnd(fm, a);
    if w < |fm| && IsQuote(fm[w]) then w + 1 else w
  }

  function DropLeadingQuote(s: string): string {
    if |s| > 0 && IsQuote(s[0]) then s[1..] else s
  }

  function DropTrailingQuote(s: string): string {
    if |s| > 0 && IsQuote(s[|s| - 1]) then s[..|s| - 1] else s
  }

  /** The title as read off the text after `title:`, line by line: skip whitespace (line
      breaks included), drop one opening quote, keep the rest of that line, cut its
      trailing whitespace and then one closing quote. */
  function TitleValue(rest: string): string {
    DropTrailingQuote(TrimEnd(BeforeFirst(DropLeadingQuote(TrimStart(rest)), '\n')))
  }

  /** Up to the end of its line, `\s*$` holds exactly when only whitespace remains. */
  lemma {:induction false} LineEndsAfterSpaceIff(s: string, x: nat, l: nat)
    requires x <= l <= |s| && (l == |s| || s[l] == '\n') && NoneBetween(s, '\n', x, l)
    ensures LineEndsAfterSpace(s, x) <==> SpaceBetween(s, x, l)
    decreases l - x
  {
    if x < l {
      LineEndsAfterSpaceIff(s, x + 1, l);
    }
  }

  /** The lazy group ends where the line, cut of trailing whitespace and of one closing
      quote, ends. */
  lemma LazyTitleEndIs(s: string, g: nat)
    requires g <= |s|
    ensures var l := IndexOfFrom(s, '\n', g);
      var n := SpaceRunStart(s, g, l);
      LazyTitleEnd(s, g) == if n > g && IsQuote(s[n - 1]) then n - 1 else n
  {
    var l := IndexOfFrom(s, '\n', g);
    var n := SpaceRunStart(s, g, l);
    var e := if n > g && IsQuote(s[n - 1]) then n - 1 else n;
    LineEndsAfterSpaceIff(s, n, l);
    assert TrailerAt(s, e);
    forall k | g <= k < e
      ensures !TrailerAt(s, k)
    {
      LineEndsAfterSpaceIff(s, k, l);
      LineEndsAfterSpaceIff(s, k + 1, l);
      assert !IsSpace(s[n - 1]);
    }
  }

  lemma DropLeadingQuoteFrom(s: string, w: nat)
    requires w <= |s|
    ensures DropLeadingQuote(s[w..]) == s[if w < |s| && IsQuote(s[w]) then w + 1 else w..]
  {
    if w < |s| && IsQuote(s[w]) {
      assert s[w..][0] == s[w];
      assert s[w..][1..] == s[w + 1..];
    }
  }

  lemma DropTrailingQuoteOfSlice(s: string, g: nat, n: nat)
    requires g <= n <= |s|
    ensures DropTrailingQuote(s[g..n]) == s[g..if n > g && IsQuote(s[n - 1]) then n - 1 else n]
  {
    if n > g && IsQuote(s[n - 1]) {
      assert s[g..n][n - g - 1] == s[n - 1];
      assert s[g..n][..n - g - 1] == s[g..n - 1];
    }
  }

  /** Skipping the whitespace and one opening quote after `title:` lands where group 1
      starts. */
  lemma OpeningSkipped(fm: string, a: nat)
    requires a <= |fm|
    ensures DropLeadingQuote(TrimStart(fm[a..])) == fm[GroupStart(fm, a)..]
  {
    TrimStartFrom(fm, a);
    DropLeadingQuoteFrom(fm, SpaceRunEnd(fm, a));
  }

  /** Cutting one closing quote from the right-stripped line leaves group 1. */
  lemma ClosingCut(fm: string, g: nat)
    requires g <= |fm|
    ensures var n := SpaceRunStart(fm, g, IndexOfFrom(fm, '\n', g));
      DropTrailingQuote(fm[g..n]) == fm[g..LazyTitleEnd(fm, g)]
  {
    var n := SpaceRunStart(fm, g, IndexOfFrom(fm, '\n', g));
    DropTrailingQuoteOfSlice(fm, g, n);
    LazyTitleEndIs(fm, g);
  }

  /** Reading the title off the text after `title:` yields the group the engine matches. */
  lemma {:induction false} TitleValueIsGroup(fm: string, a: nat)
    requires a <= |fm|
    ensures var g := GroupStart(fm, a); TitleValue(fm[a..]) == fm[g..LazyTitleEnd(fm, g)]
  {
    var g := GroupStart(fm, a);
    var l := IndexOfFrom(fm, '\n', g);
    OpeningSkipped(fm, a);
    BeforeFirstFrom(fm, '\n', g);
    TrimEndOfSlice(fm, g, l);
    ClosingCut(fm, g);
  }

  /** The engine's title match agrees with the line-by-line reading of the title. */
  lemma {:induction false} TitleMatchIsTitleValue(fm: string)
    ensures TitleMatch(fm) == match FindFrom(fm, "title:", 0)
      case None => None
      case Some(t) => Some(TitleValue(fm[t + 6..]))
  {
    match FindFrom(fm, "title:", 0)
    case None =>
    case Some(t) =>
      TitleValueIsGroup(fm, t + 6);
  }

  /** The sentinel title of a post without one. */
  const UnknownTitle: string := "未知标题"

  /** The title read line by line from the front matter `fm`, stripped, or the sentinel
      when `fm` has no `title:`. */
  function TitleIn(fm: string): string {
    match FindFrom(fm, "title:", 0)
    case None => UnknownTitle
    case Some(t) => Strip(TitleValue(fm[t + 6..]))
  }

  /** `extract_frontmatter_title`: group 1 of the title pattern in the front matter,
      stripped, or the sentinel when there is no front matter or no `title:` in it. */
  function ExtractTitle(content: string): string {
    match MatchFrontMatter(content)
    case None => UnknownTitle
    case Some(f) =>
      match TitleMatch(content[f.body..f.close])
      case None => UnknownTitle
      case Some(v) => Strip(v)
  }

  /** The title extracted is the sentinel without front matter and otherwise the title
      read line by line from the block the engine matches. */
  lemma {:induction false} ExtractTitleReads(content: string)
    ensures MatchFrontMatter(content).None? ==> ExtractTitle(content) == UnknownTitle
    ensures MatchFrontMatter(content).Some? ==>
      var f := MatchFrontMatter(content).value;
      ExtractTitle(content) == TitleIn(content[f.body..f.close])
  {
    if MatchFrontMatter(content).Some? {
      var f := MatchFrontMatter(content).value;
      TitleMatchIsTitleValue(content[f.body..f.close]);
    }
  }
}
