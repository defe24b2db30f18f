/**
 * The index page of the backup (`generate_readme`): one section per configured category in
 * configured order, each listing its articles by year, newest first, and the undated ones
 * last.
 */
module Manifest {
  import opened Options
  import opened Strings
  import opened StableSort

  /** What the run records about each backed-up article. */
  datatype ArticleInfo = ArticleInfo(
    title: string,
    filename: string,
    path: string,       // relative to the backup root
    year: int,
    month: int,
    day: int,
    dateStr: string)

  /** One entry of `readme.categories`: its key, and its optional `name` and `order`. */
  datatype CategoryConfig = CategoryConfig(key: string, name: Option<string>, order: Option<int>)

  const DefaultTitle := "博客文章备份"
  const DefaultOrder := 999
  const EmptyNote := "暂无内容"
  const OtherHeading := "其他"

  function DisplayName(c: CategoryConfig): string {
    c.name.GetOr(c.key)
  }

  /** The `order` a category sorts by. */
  function OrderOf(c: CategoryConfig): int {
    c.order.GetOr(DefaultOrder)
  }

  function CategoryKey(c: CategoryConfig): seq<int> {
    [OrderOf(c)]
  }

  /** The categories in the order their sections appear: ascending `order` (999 when
      absent), ties in configuration order. */
  function CategoryOrder(cats: seq<CategoryConfig>): (r: seq<CategoryConfig>)
    ensures multiset(r) == multiset(cats)
    ensures forall i, j :: 0 <= i < j < |r| ==> OrderOf(r[i]) <= OrderOf(r[j])
    ensures forall k :: WithKey(r, CategoryKey, k) == WithKey(cats, CategoryKey, k)
  {
    var r := Sort(cats, CategoryKey);
    SortSorted(cats, CategoryKey);
    SortPermutes(cats, CategoryKey);
    forall k
      ensures WithKey(r, CategoryKey, k) == WithKey(cats, CategoryKey, k)
    {
      SortStable(cats, CategoryKey, k);
    }
    assert forall i, j :: 0 <= i < j < |r| ==> KeyLe(CategoryKey(r[i]), CategoryKey(r[j]));
    r
  }

  // ---------------------------------------------------------------- years

  predicate StrictlyDescending(ys: seq<int>) {
    forall i, j :: 0 <= i < j < |ys| ==> ys[i] > ys[j]
  }

  function InsertDescending(y: int, ys: seq<int>): (r: seq<int>)
    requires StrictlyDescending(ys)
    ensures StrictlyDescending(r)
    ensures forall z :: z in r <==> z == y || z in ys
  {
    if ys == [] || y > ys[0] then [y] + ys
    else if y == ys[0] then ys
    else
      var rest := InsertDescending(y, ys[1..]);
      assert forall j :: 0 <= j < |rest| ==> rest[j] < ys[0] by {
        assert forall j :: 0 <= j < |rest| ==> rest[j] in rest;
      }
      [ys[0]] + rest
  }

  /** The distinct positive years of `arts`, newest first: the year headings of a section. */
  function YearsOf(arts: seq<ArticleInfo>): (ys: seq<int>)
    ensures StrictlyDescending(ys)
    ensures forall y :: y in ys <==> y > 0 && exists a :: a in arts && a.year == y
  {
    if arts == [] then []
    else
      var init := arts[..|arts| - 1];
      var last := arts[|arts| - 1];
      assert forall a :: a in arts <==> a in init || a == last by {
        assert arts == init + [last];
      }
      var ys := YearsOf(init);
      if last.year > 0 then InsertDescending(last.year, ys) else ys
  }

  function YearKey(a: ArticleInfo): seq<int> {
    [a.year]
  }

  /** The articles of year `y`, in discovery order. */
  function OfYear(arts: seq<ArticleInfo>, y: int): seq<ArticleInfo> {
    WithKey(arts, YearKey, [y])
  }

  /** `(year, month, day)` negated: ascending on it is newest first. */
  function NewestFirstKey(a: ArticleInfo): seq<int> {
    [-a.year, -a.month, -a.day]
  }

  /** Python's tuple order on dates, newest first: `a` is listed no later than `b`. */
  predicate NoOlder(a: ArticleInfo, b: ArticleInfo) {
    || a.year > b.year
    || (a.year == b.year && a.month > b.month)
    || (a.year == b.year && a.month == b.month && a.day >= b.day)
  }

  lemma NewestFirstKeyOrder(a: ArticleInfo, b: ArticleInfo)
    ensures KeyLe(NewestFirstKey(a), NewestFirstKey(b)) <==> NoOlder(a, b)
  {
    var ka, kb := NewestFirstKey(a), NewestFirstKey(b);
    assert ka[1..] == [-a.month, -a.day] && kb[1..] == [-b.month, -b.day];
    assert KeyLe([-a.day], [-b.day]) <==> a.day >= b.day by {
      assert [-a.day][1..] == [];
    }
    assert KeyLe([-a.month, -a.day], [-b.month, -b.day])
      <==> a.month > b.month || (a.month == b.month && a.day >= b.day) by {
      assert [-a.month, -a.day][1..] == [-a.day] && [-b.month, -b.day][1..] == [-b.day];
    }
  }

  // ---------------------------------------------------------------- structure

  datatype YearGroup = YearGroup(year: int, entries: seq<ArticleInfo>)

  /** The body of one section: the placeholder, or the year groups and the undated list. */
  datatype Listing = Placeholder | Listing(years: seq<YearGroup>, undated: seq<ArticleInfo>)

  /** One category's part of the index: the category it shows, its heading and its body. */
  datatype Section = Section(category: CategoryConfig, heading: string, listing: Listing)

  datatype Readme = Readme(title: string, sections: seq<Section>)

  /** The group for year `y`: its articles, newest first, equal dates in discovery order. */
  function GroupOf(arts: seq<ArticleInfo>, y: int): (g: YearGroup)
    ensures g.year == y
    ensures multiset(g.entries) == multiset(OfYear(arts, y))
    ensures forall i, j :: 0 <= i < j < |g.entries| ==> NoOlder(g.entries[i], g.entries[j])
    ensures forall k :: WithKey(g.entries, NewestFirstKey, k) == WithKey(OfYear(arts, y), NewestFirstKey, k)
  {
    var entries := Sort(OfYear(arts, y), NewestFirstKey);
    SortSorted(OfYear(arts, y), NewestFirstKey);
    SortPermutes(OfYear(arts, y), NewestFirstKey);
    forall k
      ensures WithKey(entries, NewestFirstKey, k) == WithKey(OfYear(arts, y), NewestFirstKey, k)
    {
      SortStable(OfYear(arts, y), NewestFirstKey, k);
    }
    forall i, j | 0 <= i < j < |entries|
      ensures NoOlder(entries[i], entries[j])
    {
      NewestFirstKeyOrder(entries[i], entries[j]);
    }
    YearGroup(y, entries)
  }

  /** The years a listing heads, in order. */
  function Headings(gs: seq<YearGroup>): (ys: seq<int>)
    ensures |ys| == |gs|
  {
    seq(|gs|, i requires 0 <= i < |gs| => gs[i].year)
  }

  /** `g` lists the articles of its year as the index does: all of them, each once, newest
      first, articles of equal date in discovery order. */
  ghost predicate GroupLists(arts: seq<ArticleInfo>, g: YearGroup) {
    && multiset(g.entries) == multiset(OfYear(arts, g.year))
    && (forall i, j :: 0 <= i < j < |g.entries| ==> NoOlder(g.entries[i], g.entries[j]))
    && (forall k :: WithKey(g.entries, NewestFirstKey, k) == WithKey(OfYear(arts, g.year), NewestFirstKey, k))
  }

  /** The listing of one category's articles: the placeholder when there are none;
      otherwise one group per positive year some article carries, newest year first, and
      then the year-0 articles in discovery order. */
  function ListingOf(arts: seq<ArticleInfo>): (r: Listing)
    ensures r.Placeholder? <==> arts == []
    ensures r.Listing? ==> StrictlyDescending(Headings(r.years))
    ensures r.Listing? ==> forall y :: y in Headings(r.years) <==> y > 0 && exists a :: a in arts && a.year == y
    ensures r.Listing? ==> forall i :: 0 <= i < |r.years| ==> GroupLists(arts, r.years[i])
    ensures r.Listing? ==> forall i, a :: 0 <= i < |r.years| && a in r.years[i].entries ==>
      a in arts && a.year == r.years[i].year
    ensures r.Listing? ==> forall a :: a in r.undated <==> a in arts && a.year == 0
    ensures r.Listing? ==> r.undated == OfYear(arts, 0)
  {
    if arts == [] then Placeholder
    else
      var ys := YearsOf(arts);
      var gs := seq(|ys|, i requires 0 <= i < |ys| => GroupOf(arts, ys[i]));
      assert Headings(gs) == ys;
      assert forall i, a :: 0 <= i < |gs| && a in gs[i].entries ==> a in OfYear(arts, gs[i].year) by {
        forall i, a | 0 <= i < |gs| && a in gs[i].entries
          ensures a in OfYear(arts, gs[i].year)
        {
          assert a in multiset(gs[i].entries);
        }
      }
      Listing(gs, OfYear(arts, 0))
  }

  function Lookup(articles: map<string, seq<ArticleInfo>>, key: string): seq<ArticleInfo> {
    if key in articles then articles[key] else []
  }

  /** The categories the sections show, in order. */
  function CategoriesOf(ss: seq<Section>): (cs: seq<CategoryConfig>)
    ensures |cs| == |ss|
  {
    seq(|ss|, i requires 0 <= i < |ss| => ss[i].category)
  }

  /** `generate_readme`, before rendering: the title (`readme.title`, with its default),
      and one section per configured category, ascending by `order` (999 when absent),
      ties in configuration order, each headed by the category's `name` (its key when
      absent) and listing the articles recorded under its key. */
  function BuildReadme(title: Option<string>, cats: seq<CategoryConfig>, articles: map<string, seq<ArticleInfo>>): (r: Readme)
    ensures r.title == if title.Some? then title.value else DefaultTitle
    ensures multiset(CategoriesOf(r.sections)) == multiset(cats)
    ensures forall i, j :: 0 <= i < j < |r.sections| ==> OrderOf(r.sections[i].category) <= OrderOf(r.sections[j].category)
    ensures forall k :: WithKey(CategoriesOf(r.sections), CategoryKey, k) == WithKey(cats, CategoryKey, k)
    ensures forall i :: 0 <= i < |r.sections| ==>
      var c := r.sections[i].category;
      r.sections[i].heading == DisplayName(c) && r.sections[i].listing == ListingOf(Lookup(articles, c.key))
  {
    var ordered := CategoryOrder(cats);
    var ss := seq(|ordered|, i requires 0 <= i < |ordered| =>
      Section(ordered[i], DisplayName(ordered[i]), ListingOf(Lookup(articles, ordered[i].key))));
    assert CategoriesOf(ss) == ordered;
    Readme(title.GetOr(DefaultTitle), ss)
  }

  // ---------------------------------------------------------------- properties

  /** Every configured category gets exactly as many sections as it has entries in the
      configuration, and a section shows the placeholder exactly when its category has no
      articles. */
  lemma SectionsCoverCategories(title: Option<string>, cats: seq<CategoryConfig>, articles: map<string, seq<ArticleInfo>>)
    ensures var r := BuildReadme(title, cats, articles);
      && |r.sections| == |cats|
      && (forall c :: multiset(CategoriesOf(r.sections))[c] == multiset(cats)[c])
      && forall i :: 0 <= i < |r.sections| ==>
        (r.sections[i].listing.Placeholder? <==> Lookup(articles, r.sections[i].category.key) == [])
  {
    var r := BuildReadme(title, cats, articles);
    assert |multiset(CategoriesOf(r.sections))| == |multiset(cats)|;
  }

  /** Within a section, a year is headed exactly when some article of the category carries
      it, and only positive years are. */
  lemma YearHeadingsAreArticleYears(arts: seq<ArticleInfo>, y: int)
    requires arts != []
    ensures (exists i :: 0 <= i < |ListingOf(arts).years| && ListingOf(arts).years[i].year == y)
        <==> y > 0 && exists a :: a in arts && a.year == y
  {
    var ys := YearsOf(arts);
    var l := ListingOf(arts);
    if y in ys {
      var i :| 0 <= i < |ys| && ys[i] == y;
      assert l.years[i].year == y;
    }
    if exists i :: 0 <= i < |l.years| && l.years[i].year == y {
      var i :| 0 <= i < |l.years| && l.years[i].year == y;
      assert ys[i] == y;
    }
  }

  /** The multiset union of the groups for the years `ys`. */
  function GroupedArticles(arts: seq<ArticleInfo>, ys: seq<int>): multiset<ArticleInfo>
    decreases |ys|
  {
    if ys == [] then multiset{} else multiset(OfYear(arts, ys[0])) + GroupedArticles(arts, ys[1..])
  }

  /** The articles whose year is positive, in discovery order. */
  function Dated(arts: seq<ArticleInfo>): seq<ArticleInfo> {
    if arts == [] then []
    else
      var init := Dated(arts[..|arts| - 1]);
      if arts[|arts| - 1].year > 0 then init + [arts[|arts| - 1]] else init
  }

  lemma {:induction false} GroupedAppend(arts: seq<ArticleInfo>, a: ArticleInfo, ys: seq<int>)
    requires StrictlyDescending(ys)
    ensures GroupedArticles(arts + [a], ys)
         == GroupedArticles(arts, ys) + if a.year in ys then multiset{a} else multiset{}
    decreases |ys|
  {
    if ys != [] {
      assert (arts + [a])[..|arts + [a]| - 1] == arts;
      assert StrictlyDescending(ys[1..]);
      GroupedAppend(arts, a, ys[1..]);
      assert a.year in ys <==> a.year == ys[0] || a.year in ys[1..];
      if a.year == ys[0] {
        assert a.year !in ys[1..];
      }
    }
  }

  lemma {:induction false} GroupedCovers(arts: seq<ArticleInfo>, ys: seq<int>)
    requires StrictlyDescending(ys)
    requires forall a :: a in arts ==> (a.year in ys <==> a.year > 0)
    ensures GroupedArticles(arts, ys) == multiset(Dated(arts))
  {
    if arts == [] {
      GroupedEmpty(ys);
    } else {
      var init, last := arts[..|arts| - 1], arts[|arts| - 1];
      assert arts == init + [last];
      GroupedCovers(init, ys);
      GroupedAppend(init, last, ys);
    }
  }

  lemma {:induction false} GroupedEmpty(ys: seq<int>)
    ensures GroupedArticles([], ys) == multiset{}
    decreases |ys|
  {
    if ys != [] {
      GroupedEmpty(ys[1..]);
    }
  }

  /** Every dated article of a category is listed exactly once, under the heading of its
      year; the undated ones follow under the "other" heading in discovery order. */
  lemma {:induction false} ListingCoversArticles(arts: seq<ArticleInfo>)
    requires arts != []
    ensures var l := ListingOf(arts);
      GroupedArticles(arts, YearsOf(arts)) == multiset(Dated(arts)) && l.undated == OfYear(arts, 0)
  {
    GroupedCovers(arts, YearsOf(arts));
  }

  // ---------------------------------------------------------------- rendering

  /** One list line; the date is shown only in year groups and only when there is one. */
  function EntryLine(a: ArticleInfo, showDate: bool): string {
    if showDate && a.dateStr != "" then "* " + a.dateStr + " [" + a.title + "](" + a.path + ")\n"
    else "* [" + a.title + "](" + a.path + ")\n"
  }

  function EntryLines(arts: seq<ArticleInfo>, showDate: bool): string
    decreases |arts|
  {
    if arts == [] then "" else EntryLine(arts[0], showDate) + EntryLines(arts[1..], showDate)
  }

  function YearText(y: int): string {
    if y >= 0 then NatToString(y) else "-" + NatToString(-y)
  }

  function RenderYears(gs: seq<YearGroup>): string
    decreases |gs|
  {
    if gs == [] then ""
    else "## " + YearText(gs[0].year) + "\n\n" + EntryLines(gs[0].entries, true) + "\n" + RenderYears(gs[1..])
  }

  function RenderListing(l: Listing): string {
    match l
    case Placeholder => EmptyNote + "\n\n"
    case Listing(years, undated) =>
      RenderYears(years)
        + if undated == [] then "" else "## " + OtherHeading + "\n\n" + EntryLines(undated, false) + "\n"
  }

  function RenderSections(ss: seq<Section>): string
    decreases |ss|
  {
    if ss == [] then ""
    else "# " + ss[0].heading + "\n\n" + RenderListing(ss[0].listing) + RenderSections(ss[1..])
  }

  /** The text of `README.md`. */
  function Render(r: Readme): (text: string)
    ensures |text| >= |r.title| + 4
    ensures text[..|r.title| + 4] == "# " + r.title + "\n\n"
  {
    var head := "# " + r.title + "\n\n";
    assert (head + RenderSections(r.sections))[..|head|] == head;
    head + RenderSections(r.sections)
  }

  /** An empty category renders as its heading and the placeholder line. */
  lemma EmptyCategoryText(c: CategoryConfig)
    ensures RenderSections([Section(c, DisplayName(c), ListingOf([]))])
         == "# " + DisplayName(c) + "\n\n" + EmptyNote + "\n\n"
  {
  }
}
