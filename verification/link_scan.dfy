/** The link syntax the backup tool's regular expressions recognise, as exact scanners.

    The three substitution patterns of `fix_paths_in_content` share one shape:

        <opener> <label> "](" <literal> <tail> ")"

    where the label runs up to the first `]` (`[^\]]*` or `[^\]]+`), the literal is the
    escaped configured prefix, and the tail runs up to the first `)` (`[^)]+`, `([^)]*)?`
    or `(/[^)]*)?`). The image template `![\1](<to>\2)` writes the link back with its new
    target. The article templates `[\1](<new>\2\3)` end in group 3, the `)` just matched,
    followed by a literal `)`, so every article rewrite leaves a second `)` after the link.
    Because every variable part stops at the first occurrence of a fixed
    character, a match at a given position is unique and the regex engine's backtracking
    never changes the outcome: `MatchSpan` is the regex anchored at one position, and
    `SubstFrom` is the leftmost, non-overlapping scan `re.sub` performs.

    The `findall` pattern of `extract_image_paths` (`!\[.*?\]\(([^)]+)\)`) differs: its alt
    text is lazy and stops at a newline, so it has its own matcher, `ImageSpan`. */
module LinkScan {
  import opened Options
  import opened Strings

  /** What a pattern demands of the text between its literal and the closing `)`. */
  datatype TailRule =
    | NonEmptyTail   // ([^)]+)
    | AnyTail        // ([^)]*)?
    | BareOrSubpath  // (/[^)]*)?

  /** A substitution pattern together with the shape of its template: `extraClose` counts
      the `)` the template writes after the link's own closing `)`. */
  datatype Pattern = Pattern(opener: string, minLabel: nat, lit: string, tail: TailRule, extraClose: nat)

  /** `![alt](target)` or `[text](target)` */
  function Link(opener: string, text: string, target: string): string {
    opener + text + "](" + target + ")"
  }

  /** `n` closing parentheses. */
  function Closers(n: nat): (r: string)
    ensures |r| == n && forall k :: 0 <= k < n ==> r[k] == ')'
  {
    seq(n, _ => ')')
  }

  /** Equal counts give equal runs; stated once so that proofs need not rediscover it
      through arithmetic. */
  lemma ClosersEqual(a: nat, b: nat)
    requires a == b
    ensures Closers(a) == Closers(b)
  {
  }

  lemma ClosersAdd(a: nat, b: nat)
    ensures Closers(a) + Closers(b) == Closers(a + b)
  {
  }

  /** `!\[([^\]]*)\]\(<from>([^)]+)\)`, rewritten as `![\1](<to>\2)` */
  function ImagePattern(from: string): Pattern {
    Pattern("![", 0, from, NonEmptyTail, 0)
  }

  /** `\[([^\]]+)\]\(/<dir>/([^)]*)?(\))`, rewritten as `[\1](<new>\2\3)` */
  function ArticlePattern(dir: string): Pattern {
    Pattern("[", 1, "/" + dir + "/", AnyTail, 1)
  }

  /** `\[([^\]]+)\]\(/<dir>(/[^)]*)?(\))`, rewritten as `[\1](<new>\2\3)` */
  function BareArticlePattern(dir: string): Pattern {
    Pattern("[", 1, "/" + dir, BareOrSubpath, 1)
  }

  predicate TailAllowed(rule: TailRule, tail: string) {
    match rule
    case NonEmptyTail => |tail| > 0
    case AnyTail => true
    case BareOrSubpath => tail == [] || tail[0] == '/'
  }

  /** The two captured parts of one match: the label (group 1) and the tail (group 2). */
  datatype Hit = Hit(text: string, tail: string)

  /** The captures of `h` are ones the pattern's character classes admit. */
  predicate WellFormed(p: Pattern, h: Hit) {
    && |h.text| >= p.minLabel
    && Lacks(h.text, ']')
    && Lacks(h.tail, ')')
    && TailAllowed(p.tail, h.tail)
  }

  /** The text a match of `p` with captures `h` spans. */
  function Source(p: Pattern, h: Hit): string {
    Link(p.opener, h.text, p.lit + h.tail)
  }

  /** Where a match starting at `i` puts its `]` and its closing `)`. */
  datatype Span = Span(close: nat, end: nat)

  /** The tail rule, read on the indices `[ts, k)` of `s`. */
  predicate TailAllowedAt(rule: TailRule, s: string, ts: nat, k: nat)
    requires ts <= k <= |s|
  {
    match rule
    case NonEmptyTail => ts < k
    case AnyTail => true
    case BareOrSubpath => ts == k || s[ts] == '/'
  }

  /** `p` matches at `i` with its `]` at `sp.close` and its final `)` at `sp.end`: the
      opener at `i`, a label free of `]`, `](`, the literal, a tail free of `)`, `)`. */
  predicate SpanOk(p: Pattern, s: string, i: nat, sp: Span) {
    var ls := i + |p.opener|;
    var ts := sp.close + 2 + |p.lit|;
    && OccursAt(s, p.opener, i)
    && ls + p.minLabel <= sp.close
    && NoneBetween(s, ']', ls, sp.close)
    && ts <= sp.end < |s|
    && s[sp.close] == ']' && s[sp.close + 1] == '('
    && OccursAt(s, p.lit, sp.close + 2)
    && NoneBetween(s, ')', ts, sp.end)
    && s[sp.end] == ')'
    && TailAllowedAt(p.tail, s, ts, sp.end)
  }

  /** `p` anchored at index `i` of `s`: where the match there ends, if there is one. */
  function MatchSpan(p: Pattern, s: string, i: nat): (r: Option<Span>)
    requires i <= |s|
    ensures r.Some? ==> SpanOk(p, s, i, r.value)
  {
    if OccursAt(s, p.opener, i) then
      var ls := i + |p.opener|;
      var j := IndexOfFrom(s, ']', ls);
      if ls + p.minLabel <= j && j + 1 < |s| && s[j + 1] == '(' && OccursAt(s, p.lit, j + 2) then
        var ts := j + 2 + |p.lit|;
        var k := IndexOfFrom(s, ')', ts);
        if k < |s| && TailAllowedAt(p.tail, s, ts, k) then Some(Span(j, k)) else None
      else None
    else None
  }

  /** A match at a position is unique: whatever satisfies the pattern there is what
      `MatchSpan` finds. */
  lemma MatchSpanComplete(p: Pattern, s: string, i: nat, sp: Span)
    requires i <= |s| && SpanOk(p, s, i, sp)
    ensures MatchSpan(p, s, i) == Some(sp)
  {
    var ts := sp.close + 2 + |p.lit|;
    IndexOfFromAt(s, ']', i + |p.opener|, sp.close);
    IndexOfFromAt(s, ')', ts, sp.end);
  }

  /** The captures of the match described by `sp`. */
  function Captures(p: Pattern, s: string, i: nat, sp: Span): (h: Hit)
    requires SpanOk(p, s, i, sp)
    ensures WellFormed(p, h)
  {
    var ls := i + |p.opener|;
    var ts := sp.close + 2 + |p.lit|;
    LacksSlice(s, ']', ls, sp.close);
    LacksSlice(s, ')', ts, sp.end);
    Hit(s[ls..sp.close], s[ts..sp.end])
  }

  /** The parts of the link `opener text](lit tail)` lie in sequence from index `i`. */
  predicate LinkPartsAt(s: string, opener: string, text: string, lit: string, tail: string, i: nat) {
    var j := i + |opener| + |text|;
    var e := j + 2 + |lit| + |tail|;
    && OccursAt(s, opener, i)
    && OccursAt(s, text, i + |opener|)
    && e < |s|
    && s[j] == ']' && s[j + 1] == '('
    && OccursAt(s, lit, j + 2)
    && OccursAt(s, tail, j + 2 + |lit|)
    && s[e] == ')'
  }

  /** A link occurs at `i` exactly when its parts lie in sequence there. */
  lemma LinkOccurs(s: string, opener: string, text: string, lit: string, tail: string, i: nat)
    ensures OccursAt(s, Link(opener, text, lit + tail), i) <==> LinkPartsAt(s, opener, text, lit, tail, i)
  {
    var j := i + |opener| + |text|;
    var e := j + 2 + |lit| + |tail|;
    OccursAtAppend(s, opener + text + "](" + (lit + tail), ")", i);
    OccursAtAppend(s, opener + text + "](", lit + tail, i);
    OccursAtAppend(s, opener + text, "](", i);
    OccursAtAppend(s, opener, text, i);
    OccursAtAppend(s, lit, tail, j + 2);
    assert "](" == [']'] + ['('];
    OccursAtAppend(s, [']'], ['('], j);
    OccursAtChar(s, ']', j);
    OccursAtChar(s, '(', j + 1);
    OccursAtChar(s, ')', e);
  }

  /** The match text is exactly `s[i..sp.end + 1]`. */
  lemma SpanText(p: Pattern, s: string, i: nat, sp: Span)
    requires SpanOk(p, s, i, sp)
    ensures Source(p, Captures(p, s, i, sp)) == s[i..sp.end + 1]
  {
    var h := Captures(p, s, i, sp);
    SpanParts(p, s, i, sp);
    LinkOccurs(s, p.opener, h.text, p.lit, h.tail, i);
    OccursAtSlices(s, Source(p, h), i);
  }

  /** The parts of the match described by `sp` lie in sequence from `i`. */
  lemma SpanParts(p: Pattern, s: string, i: nat, sp: Span)
    requires SpanOk(p, s, i, sp)
    ensures var h := Captures(p, s, i, sp);
      && LinkPartsAt(s, p.opener, h.text, p.lit, h.tail, i)
      && i + |Source(p, h)| == sp.end + 1
  {
    var h := Captures(p, s, i, sp);
    OccursAtSlice(s, i + |p.opener|, sp.close);
    OccursAtSlice(s, sp.close + 2 + |p.lit|, sp.end);
  }

  /** Any well-formed match text at `i` is what the pattern finds there, with the same
      captures. */
  lemma MatchComplete(p: Pattern, s: string, i: nat, h: Hit)
    requires i <= |s|
    requires WellFormed(p, h) && OccursAt(s, Source(p, h), i)
    ensures MatchSpan(p, s, i) == Some(HitSpan(p, i, h))
    ensures Captures(p, s, i, HitSpan(p, i, h)) == h
    ensures HitSpan(p, i, h).end + 1 == i + |Source(p, h)|
  {
    LinkOccurs(s, p.opener, h.text, p.lit, h.tail, i);
    PartsSpan(p, s, i, h);
    MatchSpanComplete(p, s, i, HitSpan(p, i, h));
  }

  /** Where the `]` and the final `)` of the match text `Source(p, h)` placed at `i` lie. */
  function HitSpan(p: Pattern, i: nat, h: Hit): Span {
    var close := i + |p.opener| + |h.text|;
    Span(close, close + 2 + |p.lit| + |h.tail|)
  }

  /** A well-formed match text whose parts lie in sequence from `i` satisfies the pattern
      there, and its captures are read back unchanged. */
  lemma PartsSpan(p: Pattern, s: string, i: nat, h: Hit)
    requires WellFormed(p, h) && LinkPartsAt(s, p.opener, h.text, p.lit, h.tail, i)
    ensures SpanOk(p, s, i, HitSpan(p, i, h)) && Captures(p, s, i, HitSpan(p, i, h)) == h
  {
    var sp := HitSpan(p, i, h);
    OccursAtSlices(s, h.text, i + |p.opener|);
    OccursAtSlices(s, h.tail, sp.close + 2 + |p.lit|);
    PartsSpanOk(p, s, i, h);
  }

  lemma PartsSpanOk(p: Pattern, s: string, i: nat, h: Hit)
    requires WellFormed(p, h) && LinkPartsAt(s, p.opener, h.text, p.lit, h.tail, i)
    ensures SpanOk(p, s, i, HitSpan(p, i, h))
  {
    var ls := i + |p.opener|;
    var sp := HitSpan(p, i, h);
    var ts := sp.close + 2 + |p.lit|;
    OccursAtSlices(s, h.text, ls);
    OccursAtSlices(s, h.tail, ts);
    LacksSlice(s, ']', ls, sp.close);
    LacksSlice(s, ')', ts, sp.end);
  }


  /** The replacement template: `<opener>\1](<lit>\2)` followed by the template's extra `)`. */
  function Replacement(p: Pattern, h: Hit, lit: string): string {
    Link(p.opener, h.text, lit + h.tail) + Closers(p.extraClose)
  }

  /** What one step of the scan at index `i` emits, and where the scan resumes. */
  datatype Emit = Emit(out: string, next: nat)

  /** One step of a `re.sub` pass of `p`: a match at `i` is replaced by its template and
      scanning resumes after it; any other character is kept and scanning resumes at the
      next. */
  function StepAt(p: Pattern, s: string, i: nat, lit: string): (e: Emit)
    requires i < |s|
    ensures i < e.next <= |s|
  {
    match MatchSpan(p, s, i)
    case Some(sp) => Emit(Replacement(p, Captures(p, s, i, sp), lit), sp.end + 1)
    case None => Emit([s[i]], i + 1)
  }

  /** A `re.sub` pass of `p` from index `i`. */
  function SubstFrom(p: Pattern, s: string, i: nat, lit: string): string
    requires i <= |s|
    decreases |s| - i
  {
    if i == |s| then []
    else
      var e := StepAt(p, s, i, lit);
      e.out + SubstFrom(p, s, e.next, lit)
  }

  /** With the literal left as it was and no extra `)` in the template, a step puts back
      exactly the text it passes over. */
  lemma StepCovers(p: Pattern, s: string, i: nat)
    requires i < |s| && p.extraClose == 0
    ensures StepAt(p, s, i, p.lit).out == s[i..StepAt(p, s, i, p.lit).next]
  {
    match MatchSpan(p, s, i)
    case Some(sp) => SpanText(p, s, i, sp);
    case None =>
  }

  lemma SliceJoin(s: string, i: nat, e: nat, x: string, y: string)
    requires i <= e <= |s| && x == s[i..e] && y == s[e..]
    ensures x + y == s[i..]
  {
  }

  /** The scan partitions the text: with the literal left as it was and a template that
      adds nothing after the link, every match is put back as it stood, so everything
      outside the matches is kept. */
  lemma {:induction false} SubstCovers(p: Pattern, s: string, i: nat)
    requires i <= |s| && p.extraClose == 0
    ensures SubstFrom(p, s, i, p.lit) == s[i..]
    decreases |s| - i
  {
    if i < |s| {
      var e := StepAt(p, s, i, p.lit);
      StepCovers(p, s, i);
      SubstCovers(p, s, e.next);
      SliceJoin(s, i, e.next, e.out, SubstFrom(p, s, e.next, p.lit));
    }
  }

  /** One `re.sub` pass of `p` over `s`, the matched literal replaced by `lit`. */
  function Substitute(p: Pattern, s: string, lit: string): (r: string)
    ensures lit == p.lit && p.extraClose == 0 ==> r == s
  {
    var r := SubstFrom(p, s, 0, lit);
    if p.extraClose == 0 then SubstCovers(p, s, 0); r else r
  }

  /** A text that is a single match becomes its replacement: the label and the tail are
      kept, only the literal changes, and the template's extra `)` follows. */
  lemma SubstituteLoneLink(p: Pattern, h: Hit, lit: string)
    requires WellFormed(p, h)
    ensures Substitute(p, Source(p, h), lit) == Link(p.opener, h.text, lit + h.tail) + Closers(p.extraClose)
  {
    var s := Source(p, h);
    assert OccursAt(s, s, 0) by {
      assert s[0..|s|] == s;
      OccursAtSlice(s, 0, |s|);
    }
    MatchComplete(p, s, 0, h);
    assert StepAt(p, s, 0, lit).next == |s|;
    assert SubstFrom(p, s, |s|, lit) == [];
  }

  /** The opener of `p` starts nowhere in `s` at or after index `i`. */
  predicate OpenerAbsentFrom(p: Pattern, s: string, i: nat) {
    forall j :: i <= j <= |s| ==> !OccursAt(s, p.opener, j)
  }

  /** Past the last place the opener starts, the scan copies the text. */
  lemma {:induction false} SubstituteWithoutOpener(p: Pattern, s: string, i: nat, lit: string)
    requires i <= |s| && OpenerAbsentFrom(p, s, i)
    ensures SubstFrom(p, s, i, lit) == s[i..]
    decreases |s| - i
  {
    if i < |s| {
      assert !OccursAt(s, p.opener, i);
      assert StepAt(p, s, i, lit) == Emit([s[i]], i + 1);
      SubstituteWithoutOpener(p, s, i + 1, lit);
      SliceJoin(s, i, i + 1, [s[i]], SubstFrom(p, s, i + 1, lit));
    }
  }

  /** A text lacking the last character of the opener is left unchanged by a pass. */
  lemma SubstituteLackingOpener(p: Pattern, s: string, lit: string)
    requires |p.opener| > 0 && Lacks(s, p.opener[|p.opener| - 1])
    ensures Substitute(p, s, lit) == s
  {
    forall j | 0 <= j <= |s|
      ensures !OccursAt(s, p.opener, j)
    {
      OccursAtSlices(s, p.opener, j);
    }
    SubstituteWithoutOpener(p, s, 0, lit);
  }

  /** `p` rewrites the lone link `<opener>text](target)`: the label is long enough and the
      target is the literal followed by a tail the pattern admits. */
  predicate LoneMatches(p: Pattern, text: string, target: string) {
    && |text| >= p.minLabel
    && |p.lit| <= |target| && target[..|p.lit|] == p.lit
    && TailAllowed(p.tail, target[|p.lit|..])
  }

  /** The target a pass of `p` leaves in the lone link `<opener>text](target)`. */
  function Retarget(p: Pattern, text: string, target: string, lit: string): string {
    if LoneMatches(p, text, target) then lit + target[|p.lit|..] else target
  }

  /** How many `)` a pass of `p` adds after the lone link `<opener>text](target)`. */
  function LoneCloses(p: Pattern, text: string, target: string): nat {
    if LoneMatches(p, text, target) then p.extraClose else 0
  }

  /** Where the parts of `Link(opener, text, target)` lie. */
  lemma LinkLayout(opener: string, text: string, target: string)
    ensures var s := Link(opener, text, target);
      var j := |opener| + |text|;
      && |s| == j + |target| + 3
      && s[..|opener|] == opener
      && s[|opener|..j] == text
      && s[j] == ']' && s[j + 1] == '('
      && s[j + 2..|s| - 1] == target
      && s[|s| - 1] == ')'
  {
  }

  /** When `p` does not rewrite the lone link, it does not match at its start either. */
  lemma LoneNoMatch(p: Pattern, text: string, target: string)
    requires Lacks(text, ']') && Lacks(target, ')')
    requires !LoneMatches(p, text, target)
    ensures MatchSpan(p, Link(p.opener, text, target), 0) == None
  {
    var s := Link(p.opener, text, target);
    var j := |p.opener| + |text|;
    LinkLayout(p.opener, text, target);
    LacksSlice(s, ']', |p.opener|, j);
    LacksSlice(s, ')', j + 2, |s| - 1);
    NoMatchAfterLabel(p, s, j, target);
  }

  /** The same, read on a text laid out as `<label>](target)` after the opener. */
  lemma NoMatchAfterLabel(p: Pattern, s: string, j: nat, target: string)
    requires |p.opener| <= j && j + 2 <= |s| - 1
    requires NoneBetween(s, ']', |p.opener|, j) && s[j] == ']' && s[j + 1] == '('
    requires s[j + 2..|s| - 1] == target && s[|s| - 1] == ')' && NoneBetween(s, ')', j + 2, |s| - 1)
    requires !LoneMatches(p, s[|p.opener|..j], target)
    ensures MatchSpan(p, s, 0) == None
  {
    var ls := |p.opener|;
    IndexOfFromIs(s, ']', ls, j);
    if ls + p.minLabel <= j && OccursAt(s, p.lit, j + 2) {
      var ts := j + 2 + |p.lit|;
      OccursAtSlices(s, p.lit, j + 2);
      if ts < |s| {
        IndexOfFromIs(s, ')', ts, |s| - 1);
        TailRejected(p, s, j, target);
      } else {
        IndexOfFromIs(s, ')', ts, |s|);
      }
    }
  }

  /** Once the label is long enough and the target starts with the literal, a link that
      does not match alone has a tail the rule rejects. */
  lemma TailRejected(p: Pattern, s: string, j: nat, target: string)
    requires |p.opener| + p.minLabel <= j && j + 2 + |p.lit| < |s|
    requires s[j + 2..|s| - 1] == target && s[j + 2..j + 2 + |p.lit|] == p.lit
    requires !LoneMatches(p, s[|p.opener|..j], target)
    ensures !TailAllowedAt(p.tail, s, j + 2 + |p.lit|, |s| - 1)
  {
    var ts := j + 2 + |p.lit|;
    assert target[..|p.lit|] == p.lit by {
      assert s[j + 2..ts] == s[j + 2..|s| - 1][..|p.lit|];
    }
    TailAt(p.tail, s, ts, target[|p.lit|..]);
  }

  lemma TailAt(rule: TailRule, s: string, ts: nat, tail: string)
    requires ts < |s| && s[ts..|s| - 1] == tail
    ensures TailAllowedAt(rule, s, ts, |s| - 1) <==> TailAllowed(rule, tail)
  {
    if ts < |s| - 1 {
      assert s[ts] == tail[0];
    }
  }

  /** In a link whose label and target hold no `[`, an opener whose only `[` is its last
      character starts nowhere but at the link's first index. */
  lemma LoneOpener(p: Pattern, text: string, target: string)
    requires |p.opener| > 0 && p.opener[|p.opener| - 1] == '['
    requires Lacks(p.opener[..|p.opener| - 1], '[')
    requires Lacks(text, '[') && Lacks(target, '[')
    ensures OpenerAbsentFrom(p, Link(p.opener, text, target), 1)
  {
    var o := p.opener;
    var s := Link(o, text, target);
    LinkLayout(o, text, target);
    forall m | |o| <= m < |s|
      ensures s[m] != '['
    {
      var j := |o| + |text|;
      if m < j {
        assert s[m] == s[|o|..j][m - |o|];
      } else if j + 2 <= m < |s| - 1 {
        assert s[m] == s[j + 2..|s| - 1][m - j - 2];
      }
    }
    forall j | 1 <= j <= |s|
      ensures !OccursAt(s, o, j)
    {
      OccursAtSlices(s, o, j);
      if j + |o| <= |s| {
        assert s[j..j + |o|][|o| - 1] == s[j + |o| - 1];
      }
    }
  }

  /** One pass over a lone link whose opener starts nowhere else: the link keeps its label,
      gets the target `Retarget` describes, and is followed by the `)` the template adds
      when it matched. */
  lemma SubstituteLone(p: Pattern, text: string, target: string, lit: string)
    requires Lacks(text, ']') && Lacks(target, ')')
    requires OpenerAbsentFrom(p, Link(p.opener, text, target), 1)
    ensures Substitute(p, Link(p.opener, text, target), lit)
         == Link(p.opener, text, Retarget(p, text, target, lit)) + Closers(LoneCloses(p, text, target))
  {
    var s := Link(p.opener, text, target);
    if LoneMatches(p, text, target) {
      var h := Hit(text, target[|p.lit|..]);
      assert target == p.lit + h.tail;
      assert Lacks(h.tail, ')') by {
        LacksSlice(target, ')', |p.lit|, |target|);
        LacksSlice(target, ')', 0, |target|);
        assert target[0..|target|] == target;
      }
      SubstituteLoneLink(p, h, lit);
    } else {
      LoneNoMatch(p, text, target);
      assert StepAt(p, s, 0, lit) == Emit([s[0]], 1);
      SubstituteWithoutOpener(p, s, 1, lit);
      assert [s[0]] + s[1..] == s;
      assert s + Closers(0) == s;
    }
  }

  // ------------------------------------------------------------------ locality

  /** A match only reads forward: text placed before `t` does not change what matches at
      an index of `t`. */
  lemma OccursAtShift(x: string, t: string, pat: string, j: nat)
    ensures OccursAt(x + t, pat, |x| + j) <==> OccursAt(t, pat, j)
  {
    OccursAtSlices(x + t, pat, |x| + j);
    OccursAtSlices(t, pat, j);
    if j + |pat| <= |t| {
      SliceShift(x, t, j, j + |pat|);
    }
  }

  lemma NoneBetweenShift(x: string, t: string, c: char, a: nat, b: nat)
    ensures NoneBetween(x + t, c, |x| + a, |x| + b) <==> NoneBetween(t, c, a, b)
  {
    if NoneBetween(t, c, a, b) {
      forall m | |x| + a <= m < |x| + b && m < |x + t|
        ensures (x + t)[m] != c
      {
        assert (x + t)[m] == t[m - |x|];
      }
    }
    if NoneBetween(x + t, c, |x| + a, |x| + b) {
      forall m | a <= m < b && m < |t|
        ensures t[m] != c
      {
        assert (x + t)[|x| + m] == t[m];
      }
    }
  }

  function ShiftSpan(sp: Span, d: nat): Span {
    Span(sp.close + d, sp.end + d)
  }

  lemma SpanOkShift(p: Pattern, x: string, t: string, j: nat, sp: Span)
    ensures SpanOk(p, x + t, |x| + j, ShiftSpan(sp, |x|)) <==> SpanOk(p, t, j, sp)
  {
    var d := |x|;
    var ts := sp.close + 2 + |p.lit|;
    OccursAtShift(x, t, p.opener, j);
    OccursAtShift(x, t, p.lit, sp.close + 2);
    NoneBetweenShift(x, t, ']', j + |p.opener|, sp.close);
    NoneBetweenShift(x, t, ')', ts, sp.end);
    assert j + |p.opener| + d == d + j + |p.opener|;
    if ts <= sp.end < |t| {
      assert (x + t)[d + sp.close] == t[sp.close] && (x + t)[d + sp.close + 1] == t[sp.close + 1];
      assert (x + t)[d + sp.end] == t[sp.end] && (x + t)[d + ts] == t[ts];
    }
  }

  /** What matches at index `j` of `t` matches, moved by `|x|`, at index `|x| + j` of `x + t`. */
  lemma MatchSpanShift(p: Pattern, x: string, t: string, j: nat)
    requires j <= |t|
    ensures MatchSpan(p, x + t, |x| + j).Some? <==> MatchSpan(p, t, j).Some?
    ensures MatchSpan(p, t, j).Some? ==>
      MatchSpan(p, x + t, |x| + j) == Some(ShiftSpan(MatchSpan(p, t, j).value, |x|))
  {
    match MatchSpan(p, t, j)
    case Some(sp) =>
      SpanOkShift(p, x, t, j, sp);
      MatchSpanComplete(p, x + t, |x| + j, ShiftSpan(sp, |x|));
    case None =>
      if MatchSpan(p, x + t, |x| + j).Some? {
        var sp2 := MatchSpan(p, x + t, |x| + j).value;
        var sp := Span(sp2.close - |x|, sp2.end - |x|);
        assert ShiftSpan(sp, |x|) == sp2;
        SpanOkShift(p, x, t, j, sp);
        MatchSpanComplete(p, t, j, sp);
      }
  }

  lemma CapturesShift(p: Pattern, x: string, t: string, j: nat, sp: Span)
    requires SpanOk(p, t, j, sp)
    ensures SpanOk(p, x + t, |x| + j, ShiftSpan(sp, |x|))
    ensures Captures(p, x + t, |x| + j, ShiftSpan(sp, |x|)) == Captures(p, t, j, sp)
  {
    SpanOkShift(p, x, t, j, sp);
    var ls := j + |p.opener|;
    var ts := sp.close + 2 + |p.lit|;
    SliceShift(x, t, ls, sp.close);
    SliceShift(x, t, ts, sp.end);
  }

  /** A slice of `t` is the same slice of `x + t`, moved by `|x|`. */
  lemma SliceShift(x: string, t: string, a: nat, b: nat)
    requires a <= b <= |t|
    ensures (x + t)[|x| + a..|x| + b] == t[a..b]
  {
  }

  lemma StepAtShift(p: Pattern, x: string, t: string, j: nat, lit: string)
    requires j < |t|
    ensures StepAt(p, x + t, |x| + j, lit).out == StepAt(p, t, j, lit).out
    ensures StepAt(p, x + t, |x| + j, lit).next == |x| + StepAt(p, t, j, lit).next
  {
    MatchSpanShift(p, x, t, j);
    match MatchSpan(p, t, j)
    case Some(sp) => CapturesShift(p, x, t, j, sp);
    case None => assert (x + t)[|x| + j] == t[j];
  }

  /** A pass resumed at index `|x| + j` of `x + t` produces what a pass over `t` resumed at
      `j` produces: the scan never looks back. */
  lemma SubstFromShift(p: Pattern, x: string, t: string, j: nat, lit: string)
    requires j <= |t|
    ensures SubstFrom(p, x + t, |x| + j, lit) == SubstFrom(p, t, j, lit)
  {
    StepsShift(p, x, t, j, lit);
    SubstFromStepsAgree(p, x + t, |x|, t, j, lit);
  }

  /** The steps of a scan over `s` from `d + j` on are those over `t` from `j` on, moved by `d`. */
  ghost predicate StepsAgree(p: Pattern, s: string, d: nat, t: string, j: nat, lit: string)
  {
    && |s| == d + |t|
    && forall k :: j <= k < |t| ==>
      && StepAt(p, s, d + k, lit).out == StepAt(p, t, k, lit).out
      && StepAt(p, s, d + k, lit).next == d + StepAt(p, t, k, lit).next
  }

  /** Every step of a scan over `t` from `j` on is the matching step over `x + t`, moved by `|x|`. */
  lemma StepsShift(p: Pattern, x: string, t: string, j: nat, lit: string)
    ensures StepsAgree(p, x + t, |x|, t, j, lit)
  {
    forall k | j <= k < |t|
      ensures StepAt(p, x + t, |x| + k, lit).out == StepAt(p, t, k, lit).out
      ensures StepAt(p, x + t, |x| + k, lit).next == |x| + StepAt(p, t, k, lit).next
    {
      StepAtShift(p, x, t, k, lit);
    }
  }

  /** Two scans whose steps agree from `j` on, one of them `d` indices further along,
      produce the same text. */
  lemma {:induction false} SubstFromStepsAgree(p: Pattern, s: string, d: nat, t: string, j: nat, lit: string)
    requires j <= |t| && StepsAgree(p, s, d, t, j, lit)
    ensures SubstFrom(p, s, d + j, lit) == SubstFrom(p, t, j, lit)
    decreases |t| - j
  {
    if j < |t| {
      var e := StepAt(p, t, j, lit);
      assert StepAt(p, s, d + j, lit).out == e.out && StepAt(p, s, d + j, lit).next == d + e.next;
      StepsAgreeLater(p, s, d, t, j, e.next, lit);
      SubstFromStepsAgree(p, s, d, t, e.next, lit);
    }
  }

  lemma StepsAgreeLater(p: Pattern, s: string, d: nat, t: string, j: nat, j': nat, lit: string)
    requires j <= j' && StepsAgree(p, s, d, t, j, lit)
    ensures StepsAgree(p, s, d, t, j', lit)
  {
  }

  /** A match that ends inside `x` does not see what follows `x`. */
  lemma OccursAtPrefix(x: string, y: string, pat: string, i: nat)
    requires i + |pat| <= |x|
    ensures OccursAt(x + y, pat, i) <==> OccursAt(x, pat, i)
  {
    OccursAtSlices(x + y, pat, i);
    OccursAtSlices(x, pat, i);
    assert (x + y)[i..i + |pat|] == x[i..i + |pat|];
  }

  lemma NoneBetweenPrefix(x: string, y: string, c: char, a: nat, b: nat)
    requires b <= |x|
    ensures NoneBetween(x + y, c, a, b) <==> NoneBetween(x, c, a, b)
  {
    assert forall m :: a <= m < b ==> (x + y)[m] == x[m];
  }

  lemma SpanOkPrefix(p: Pattern, x: string, y: string, i: nat, sp: Span)
    requires SpanOk(p, x + y, i, sp) && sp.end < |x|
    ensures SpanOk(p, x, i, sp)
  {
    var s := x + y;
    NoneBetweenPrefix(x, y, ']', i + |p.opener|, sp.close);
    NoneBetweenPrefix(x, y, ')', sp.close + 2 + |p.lit|, sp.end);
    OccursAtPrefix(x, y, p.opener, i);
    OccursAtPrefix(x, y, p.lit, sp.close + 2);
    assert s[sp.close] == x[sp.close] && s[sp.close + 1] == x[sp.close + 1] && s[sp.end] == x[sp.end];
    var ts := sp.close + 2 + |p.lit|;
    assert ts < |s| ==> s[ts] == x[ts];
  }

  /** The scan passes over indices `[i, k)` where the opener does not start, copying them. */
  lemma {:induction false} CopyUpTo(p: Pattern, s: string, i: nat, k: nat, lit: string)
    requires i <= k <= |s|
    requires forall j :: i <= j < k ==> !OccursAt(s, p.opener, j)
    ensures SubstFrom(p, s, i, lit) == s[i..k] + SubstFrom(p, s, k, lit)
    decreases k - i
  {
    if i < k {
      NoOpenerNoMatch(p, s, i);
      KeptStep(p, s, i, lit);
      CopyUpTo(p, s, i + 1, k, lit);
      AppendRegroup([s[i]], s[i + 1..k], SubstFrom(p, s, k, lit));
      SliceFirst(s, i, k);
    }
  }

  /** Text in which the opener starts nowhere is copied, and the scan continues on what
      follows it as if that stood alone. */
  lemma HeadCopy(p: Pattern, x: string, rest: string, lit: string)
    requires forall j :: 0 <= j < |x| ==> !OccursAt(x + rest, p.opener, j)
    ensures SubstFrom(p, x + rest, 0, lit) == x + SubstFrom(p, rest, 0, lit)
  {
    CopyUpTo(p, x + rest, 0, |x|, lit);
    assert (x + rest)[0..|x|] == x;
    SubstFromShift(p, x, rest, 0, lit);
  }

  /** The openers of the patterns in use: `![` for images, `[` for links. */
  predicate IsOpener(o: string) {
    o == "![" || o == "["
  }

  /** A literal free of `)` that occurs at `a` ends before a `)` at or after `a`. */
  lemma LitBeforeClose(s: string, lit: string, a: nat, e: nat)
    requires OccursAt(s, lit, a) && a <= e < |s| && s[e] == ')' && Lacks(lit, ')')
    ensures a + |lit| <= e
  {
    OccursAtSlices(s, lit, a);
  }

  /** A link at the head of a longer text does not match when it does not match alone,
      provided the literal holds no `)` and so cannot run past the link's end. */
  lemma HeadNoMatch(p: Pattern, text: string, target: string, rest: string)
    requires Lacks(text, ']') && Lacks(target, ')') && Lacks(p.lit, ')')
    requires !LoneMatches(p, text, target)
    ensures MatchSpan(p, Link(p.opener, text, target) + rest, 0) == None
  {
    var l := Link(p.opener, text, target);
    var s := l + rest;
    LoneNoMatch(p, text, target);
    if MatchSpan(p, s, 0).Some? {
      var sp := MatchSpan(p, s, 0).value;
      HeadSpanWithin(p, text, target, rest, sp);
      SpanOkPrefix(p, l, rest, 0, sp);
      MatchSpanComplete(p, l, 0, sp);
    }
  }

  /** A match at the head of a link followed by more text ends inside the link. */
  lemma HeadSpanWithin(p: Pattern, text: string, target: string, rest: string, sp: Span)
    requires Lacks(text, ']') && Lacks(target, ')') && Lacks(p.lit, ')')
    requires MatchSpan(p, Link(p.opener, text, target) + rest, 0) == Some(sp)
    ensures sp.end < |Link(p.opener, text, target)|
  {
    var l := Link(p.opener, text, target);
    var s := l + rest;
    var j := |p.opener| + |text|;
    LinkLayout(p.opener, text, target);
    assert s[j] == ']' && s[|l| - 1] == ')';
    assert NoneBetween(s, ']', |p.opener|, j) by {
      LacksSlice(l, ']', |p.opener|, j);
    }
    SpanEndsBy(p, s, sp, j, |l| - 1);
  }

  /** A match whose label stops at the first `]`, at `j`, and whose literal holds no `)`,
      ends at or before the first `)` at `e` past `j + 1`. */
  lemma SpanEndsBy(p: Pattern, s: string, sp: Span, j: nat, e: nat)
    requires SpanOk(p, s, 0, sp) && Lacks(p.lit, ')')
    requires |p.opener| <= j && j + 2 <= e < |s|
    requires s[j] == ']' && NoneBetween(s, ']', |p.opener|, j) && s[e] == ')'
    ensures sp.end <= e
  {
    assert sp.close == j;
    LitBeforeClose(s, p.lit, j + 2, e);
  }

  /** A link at the head of a longer text matches when it matches alone, and is rewritten
      as it would be alone. */
  lemma HeadMatch(p: Pattern, text: string, target: string, rest: string, lit: string)
    requires Lacks(text, ']') && Lacks(target, ')')
    requires LoneMatches(p, text, target)
    ensures var l := Link(p.opener, text, target);
      StepAt(p, l + rest, 0, lit)
        == Emit(Link(p.opener, text, Retarget(p, text, target, lit)) + Closers(p.extraClose), |l|)
  {
    var l := Link(p.opener, text, target);
    var s := l + rest;
    var h := Hit(text, target[|p.lit|..]);
    assert target == p.lit + h.tail;
    assert Lacks(h.tail, ')') by {
      LacksSlice(target, ')', |p.lit|, |target|);
      LacksSlice(target, ')', 0, |target|);
      assert target[0..|target|] == target;
    }
    assert Source(p, h) == l;
    assert OccursAt(s, l, 0) by {
      OccursAtSlices(s, l, 0);
      assert s[0..|l|] == l;
    }
    MatchComplete(p, s, 0, h);
  }

  /** Inside a link whose label and target hold no `[`, neither opener starts anywhere but
      at its first index, whatever follows the link. */
  lemma HeadOpenerOnce(p: Pattern, text: string, target: string, rest: string)
    requires IsOpener(p.opener)
    requires Lacks(text, '[') && Lacks(target, '[')
    ensures var l := Link(p.opener, text, target);
      forall j :: 1 <= j < |l| ==> !OccursAt(l + rest, p.opener, j)
  {
    var l := Link(p.opener, text, target);
    assert p.opener[..|p.opener| - 1] == (if p.opener == "[" then "" else "!");
    LoneOpener(p, text, target);
    LinkLayout(p.opener, text, target);
    forall j | 1 <= j < |l|
      ensures !OccursAt(l + rest, p.opener, j)
    {
      if j + |p.opener| <= |l| {
        OccursAtPrefix(l, rest, p.opener, j);
      } else {
        OccursAtSlices(l + rest, p.opener, j);
        assert (l + rest)[j] == ')';
      }
    }
  }

  /** One pass over a link followed by any text: the link gets the target `Retarget`
      describes, followed by the `)` the template adds when it matched, and the pass
      carries on over the rest as over a text of its own. */
  lemma LinkHead(p: Pattern, text: string, target: string, rest: string, lit: string)
    requires IsOpener(p.opener) && Lacks(p.lit, ')')
    requires Lacks(text, '[') && Lacks(text, ']') && Lacks(target, '[') && Lacks(target, ')')
    ensures SubstFrom(p, Link(p.opener, text, target) + rest, 0, lit)
         == Link(p.opener, text, Retarget(p, text, target, lit)) + Closers(LoneCloses(p, text, target))
            + SubstFrom(p, rest, 0, lit)
  {
    HeadSplit(p, text, target, rest, lit);
    SplitRest(p, Link(p.opener, text, target), rest, lit,
              Link(p.opener, text, Retarget(p, text, target, lit)) + Closers(LoneCloses(p, text, target)));
  }

  /** One pass over a link followed by `)` only, as an earlier article pass leaves it:
      the link is rewritten as a lone link would be and the `)` after it stay. */
  lemma SubstituteLinkClosed(p: Pattern, text: string, target: string, m: nat, lit: string)
    requires IsOpener(p.opener) && Lacks(p.lit, ')')
    requires Lacks(text, '[') && Lacks(text, ']') && Lacks(target, '[') && Lacks(target, ')')
    ensures Substitute(p, Link(p.opener, text, target) + Closers(m), lit)
         == Link(p.opener, text, Retarget(p, text, target, lit)) + Closers(LoneCloses(p, text, target) + m)
  {
    var c := LoneCloses(p, text, target);
    var out := Link(p.opener, text, Retarget(p, text, target, lit));
    LinkHead(p, text, target, Closers(m), lit);
    assert Lacks(Closers(m), p.opener[|p.opener| - 1]);
    SubstituteLackingOpener(p, Closers(m), lit);
    assert SubstFrom(p, Closers(m), 0, lit) == Closers(m);
    ClosersAdd(c, m);
    AppendRegroup(out, Closers(c), Closers(m));
  }

  /** If a pass turns a text `x` at the front into `out`, what follows `out` is the
      pass over the rest alone. */
  lemma SplitRest(p: Pattern, x: string, rest: string, lit: string, out: string)
    requires SubstFrom(p, x + rest, 0, lit) == out + SubstFrom(p, x + rest, |x|, lit)
    ensures SubstFrom(p, x + rest, 0, lit) == out + SubstFrom(p, rest, 0, lit)
  {
    SubstFromShift(p, x, rest, 0, lit);
  }

  /** The first step of `LinkHead`: what the pass makes of the link itself, up to the
      position just past it. */
  lemma HeadSplit(p: Pattern, text: string, target: string, rest: string, lit: string)
    requires IsOpener(p.opener) && Lacks(p.lit, ')')
    requires Lacks(text, '[') && Lacks(text, ']') && Lacks(target, '[') && Lacks(target, ')')
    ensures SubstFrom(p, Link(p.opener, text, target) + rest, 0, lit)
         == Link(p.opener, text, Retarget(p, text, target, lit)) + Closers(LoneCloses(p, text, target))
            + SubstFrom(p, Link(p.opener, text, target) + rest, |Link(p.opener, text, target)|, lit)
  {
    var l := Link(p.opener, text, target);
    if LoneMatches(p, text, target) {
      HeadReplaced(p, text, target, rest, lit);
    } else {
      assert Link(p.opener, text, Retarget(p, text, target, lit)) + Closers(LoneCloses(p, text, target)) == l by {
        assert Retarget(p, text, target, lit) == target && LoneCloses(p, text, target) == 0;
        assert l + Closers(0) == l;
      }
      HeadKept(p, text, target, rest, lit);
    }
  }

  lemma HeadReplaced(p: Pattern, text: string, target: string, rest: string, lit: string)
    requires Lacks(text, ']') && Lacks(target, ')')
    requires LoneMatches(p, text, target)
    ensures var l := Link(p.opener, text, target);
      SubstFrom(p, l + rest, 0, lit)
        == Link(p.opener, text, Retarget(p, text, target, lit)) + Closers(p.extraClose)
           + SubstFrom(p, l + rest, |l|, lit)
  {
    var l := Link(p.opener, text, target);
    HeadMatch(p, text, target, rest, lit);
    assert |l + rest| > 0;
  }

  lemma HeadKept(p: Pattern, text: string, target: string, rest: string, lit: string)
    requires IsOpener(p.opener) && Lacks(p.lit, ')')
    requires Lacks(text, '[') && Lacks(text, ']') && Lacks(target, '[') && Lacks(target, ')')
    requires !LoneMatches(p, text, target)
    ensures var l := Link(p.opener, text, target);
      SubstFrom(p, l + rest, 0, lit) == l + SubstFrom(p, l + rest, |l|, lit)
  {
    var l := Link(p.opener, text, target);
    HeadNoMatch(p, text, target, rest);
    HeadOpenerOnce(p, text, target, rest);
    KeptPrefix(p, l + rest, |l|, lit);
    assert (l + rest)[..|l|] == l;
  }

  /** Where nothing matches at the first index and the opener starts nowhere else before
      `n`, the first `n` characters are kept. */
  lemma KeptPrefix(p: Pattern, s: string, n: nat, lit: string)
    requires 0 < n <= |s| && MatchSpan(p, s, 0) == None
    requires forall j :: 1 <= j < n ==> !OccursAt(s, p.opener, j)
    ensures SubstFrom(p, s, 0, lit) == s[..n] + SubstFrom(p, s, n, lit)
  {
    KeptStep(p, s, 0, lit);
    CopyUpTo(p, s, 1, n, lit);
    AppendRegroup([s[0]], s[1..n], SubstFrom(p, s, n, lit));
    SliceFirst(s, 0, n);
    assert s[0..n] == s[..n];
  }

  /** Where nothing matches, a pass keeps the character it stands on. */
  lemma KeptStep(p: Pattern, s: string, i: nat, lit: string)
    requires i < |s| && MatchSpan(p, s, i) == None
    ensures SubstFrom(p, s, i, lit) == [s[i]] + SubstFrom(p, s, i + 1, lit)
  {
  }

  /** Where the opener does not start, nothing matches. */
  lemma NoOpenerNoMatch(p: Pattern, s: string, i: nat)
    requires i <= |s| && !OccursAt(s, p.opener, i)
    ensures MatchSpan(p, s, i) == None
  {
  }


  /** An image embed as `!\[.*?\]\(([^)]+)\)` reads it. */
  datatype ImageRef = ImageRef(alt: string, target: string)

  /** The alt text holds no newline (`.` without DOTALL); the target is non-empty and
      holds no `)`. */
  predicate ImageRefWellFormed(r: ImageRef) {
    Lacks(r.alt, '\n') && |r.target| > 0 && Lacks(r.target, ')')
  }

  function ImageText(r: ImageRef): string {
    Link("![", r.alt, r.target)
  }

  /** `\]\(([^)]+)\)` matches at index `j`. */
  predicate CloseAt(s: string, j: nat) {
    && j + 2 < |s|
    && s[j] == ']' && s[j + 1] == '(' && s[j + 2] != ')'
    && IndexOfFrom(s, ')', j + 2) < |s|
  }

  /** The lazy `.*?`: the first index at or after `j`, reached without crossing a newline,
      where the rest of the pattern matches. */
  function LazyClose(s: string, j: nat): (r: Option<nat>)
    requires j <= |s|
    ensures r.Some? ==> j <= r.value <= |s| && CloseAt(s, r.value) && NoneBetween(s, '\n', j, r.value)
    ensures forall m {:trigger CloseAt(s, m)} ::
      j <= m <= |s| && NoneBetween(s, '\n', j, m) && (r.Some? ==> m < r.value) ==> !CloseAt(s, m)
    decreases |s| - j
  {
    if CloseAt(s, j) then Some(j)
    else if j < |s| && s[j] != '\n' then LazyClose(s, j + 1)
    else None
  }

  /** `!\[.*?\]\(([^)]+)\)` anchored at index `i`: the index of its `]`, if it matches. */
  function ImageSpan(s: string, i: nat): (r: Option<nat>)
    requires i <= |s|
    ensures r.Some? ==> i + 2 <= r.value && CloseAt(s, r.value) && NoneBetween(s, '\n', i + 2, r.value)
  {
    if OccursAt(s, "![", i) then LazyClose(s, i + 2) else None
  }

  /** The embed found at `i` when its `]` is at `j`. */
  function ImageAtClose(s: string, i: nat, j: nat): (r: ImageRef)
    requires i + 2 <= j && CloseAt(s, j) && NoneBetween(s, '\n', i + 2, j)
    ensures ImageRefWellFormed(r)
  {
    var k := IndexOfFrom(s, ')', j + 2);
    LacksSlice(s, '\n', i + 2, j);
    LacksSlice(s, ')', j + 2, k);
    ImageRef(s[i + 2..j], s[j + 2..k])
  }

  /** The embed text found at `i` is `s[i..]` up to and including its `)`. */
  lemma ImageAtCloseText(s: string, i: nat, j: nat)
    requires OccursAt(s, "![", i)
    requires i + 2 <= j && CloseAt(s, j) && NoneBetween(s, '\n', i + 2, j)
    ensures var r := ImageAtClose(s, i, j);
      j + 3 + |r.target| <= |s| && ImageText(r) == s[i..j + 3 + |r.target|]
  {
    var r := ImageAtClose(s, i, j);
    ImageParts(s, i, j);
    LinkOccurs(s, "![", r.alt, "", r.target, i);
    assert "" + r.target == r.target;
    OccursAtSlices(s, ImageText(r), i);
  }

  /** The parts of the embed found at `i` lie in sequence from `i`. */
  lemma ImageParts(s: string, i: nat, j: nat)
    requires OccursAt(s, "![", i)
    requires i + 2 <= j && CloseAt(s, j) && NoneBetween(s, '\n', i + 2, j)
    ensures var r := ImageAtClose(s, i, j);
      LinkPartsAt(s, "![", r.alt, "", r.target, i) && j + 3 + |r.target| <= |s|
  {
    var r := ImageAtClose(s, i, j);
    OccursAtSlice(s, i + 2, j);
    OccursAtSlice(s, j + 2, j + 2);
    OccursAtSlice(s, j + 2, j + 2 + |r.target|);
  }

  /** Any well-formed image embed at `i` makes the findall pattern match there, with an
      alt text no longer than that embed's: the lazy alt picks the shortest candidate. */
  lemma ImageAtComplete(s: string, i: nat, r: ImageRef)
    requires i <= |s|
    requires ImageRefWellFormed(r) && OccursAt(s, ImageText(r), i)
    ensures ImageSpan(s, i).Some? && ImageSpan(s, i).value <= i + 2 + |r.alt|
  {
    assert "" + r.target == r.target;
    LinkOccurs(s, "![", r.alt, "", r.target, i);
    ImagePartsClose(s, i, r);
  }

  /** The `]` of a well-formed embed whose parts lie in sequence from `i` is a place where
      the rest of the findall pattern matches, reached without crossing a newline. */
  lemma ImagePartsClose(s: string, i: nat, r: ImageRef)
    requires ImageRefWellFormed(r) && LinkPartsAt(s, "![", r.alt, "", r.target, i)
    ensures var j := i + 2 + |r.alt|; CloseAt(s, j) && NoneBetween(s, '\n', i + 2, j)
  {
    var j := i + 2 + |r.alt|;
    var k := j + 2 + |r.target|;
    OccursAtSlices(s, r.alt, i + 2);
    OccursAtSlices(s, r.target, j + 2);
    LacksSlice(s, '\n', i + 2, j);
    LacksSlice(s, ')', j + 2, k);
    IndexOfFromAt(s, ')', j + 2, k);
  }

  /** `re.findall(r'!\[.*?\]\(([^)]+)\)', s)`: the targets of the leftmost,
      non-overlapping image embeds, in order. */
  function ImageTargets(s: string, i: nat): (ts: seq<string>)
    requires i <= |s|
    ensures forall k :: 0 <= k < |ts| ==> |ts[k]| > 0 && Lacks(ts[k], ')')
    decreases |s| - i
  {
    if i == |s| then []
    else
      match ImageSpan(s, i)
      case Some(j) =>
        var r := ImageAtClose(s, i, j);
        [r.target] + ImageTargets(s, IndexOfFrom(s, ')', j + 2) + 1)
      case None => ImageTargets(s, i + 1)
  }

  /** A text that is a single image embed whose alt text holds no `]` yields exactly its
      target. */
  lemma ImageTargetsOfLoneEmbed(r: ImageRef)
    requires ImageRefWellFormed(r) && Lacks(r.alt, ']')
    ensures ImageTargets(ImageText(r), 0) == [r.target]
  {
    var s := ImageText(r);
    assert OccursAt(s, s, 0) by {
      assert s[0..|s|] == s;
      OccursAtSlice(s, 0, |s|);
    }
    ImageAtComplete(s, 0, r);
    var j := ImageSpan(s, 0).value;
    assert "" + r.target == r.target;
    LinkOccurs(s, "![", r.alt, "", r.target, 0);
    OccursAtSlices(s, r.alt, 2);
    LacksSlice(s, ']', 2, 2 + |r.alt|);
    assert j == 2 + |r.alt|;
    ImageAtCloseText(s, 0, j);
    assert ImageAtClose(s, 0, j) == r;
    assert ImageTargets(s, |s|) == [];
  }

  /** A text without `[` embeds no image. */
  lemma {:induction false} ImageTargetsWithoutEmbed(s: string, i: nat)
    requires i <= |s| && Lacks(s, '[')
    ensures ImageTargets(s, i) == []
    decreases |s| - i
  {
    if i < |s| {
      OccursAtSlices(s, "![", i);
      if i + 2 <= |s| {
        assert s[i..i + 2][1] == s[i + 1];
      }
      ImageTargetsWithoutEmbed(s, i + 1);
    }
  }
}
