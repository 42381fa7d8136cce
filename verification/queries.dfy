/** The read side of the views: the project and blog listings with their
    optional filters, orderings and pages, the tag and category lists shown
    beside them, related projects, the per-status and per-category counts,
    and the grouping of skills by category. Every query is a filter over one
    table followed by a sort. */
module Queries {
  import opened Common
  import opened Text
  import opened Ordering
  import opened Entities

  // ------------------------------------------------------- project listing

  /** The query string of the project list. "" stands for a parameter that
      is absent or empty: the view treats both as "no filter". */
  datatype ProjectQuery = ProjectQuery(category: string, tag: string, status: string, search: string)

  const ProjectsPerPage: nat := 9

  predicate IsPublished(p: Project) { p.isPublished }

  /** The listing's order: featured first, then `order` ascending, then the
      newest first. */
  function ProjectOrderKey(p: Project): Key {
    [if p.isFeatured then 0 else 1, p.order, -p.createdAt]
  }

  /** Whether the category with key `id` has slug `slug` (the
      `category__slug` join). */
  predicate CategoryHasSlug(st: Store, id: nat, slug: string) {
    exists c :: c in st.categories && c.id == id && c.slug == slug
  }

  function InCategory(st: Store, slug: string): (f: Project -> bool)
    ensures forall p :: f(p) <==> p.category.Some? && CategoryHasSlug(st, p.category.value, slug)
  {
    (p: Project) => p.category.Some? && CategoryHasSlug(st, p.category.value, slug)
  }

  function TagHit(tag: string): (f: Project -> bool)
    ensures forall p :: f(p) <==> ContainsFold(p.tags, tag)
  {
    (p: Project) => ContainsFold(p.tags, tag)
  }

  function HasStatus(s: ProjectStatus): (f: Project -> bool)
    ensures forall p :: f(p) <==> p.status == s
  {
    (p: Project) => p.status == s
  }

  function SearchHit(text: string): (f: Project -> bool)
    ensures forall p :: f(p) <==>
              ContainsFold(p.title, text) || ContainsFold(p.shortDescription, text) || ContainsFold(p.tags, text)
  {
    (p: Project) => ContainsFold(p.title, text) || ContainsFold(p.shortDescription, text) || ContainsFold(p.tags, text)
  }

  /** Which projects the list shows, stated as one condition: published, and
      every filter that is present holds. A status that names no status
      filters nothing. */
  ghost predicate ProjectMatches(st: Store, q: ProjectQuery, p: Project) {
    && p.isPublished
    && (q.category != "" ==> p.category.Some? && CategoryHasSlug(st, p.category.value, q.category))
    && (q.tag != "" ==> ContainsFold(p.tags, q.tag))
    && (ProjectStatusFromCode(q.status).Some? ==> p.status == ProjectStatusFromCode(q.status).value)
    && (q.search != "" ==>
          ContainsFold(p.title, q.search) || ContainsFold(p.shortDescription, q.search) || ContainsFold(p.tags, q.search))
  }

  /** `ProjectListView.get_queryset` before its ordering: the published
      projects, narrowed by each filter the query carries, one after another. */
  function FilteredProjects(st: Store, q: ProjectQuery): (r: seq<Project>)
    ensures forall p :: p in r <==> p in st.projects && ProjectMatches(st, q, p)
  {
    var published := Filter(st.projects, IsPublished);
    var byCategory := if q.category != "" then Filter(published, InCategory(st, q.category)) else published;
    var byTag := if q.tag != "" then Filter(byCategory, TagHit(q.tag)) else byCategory;
    var byStatus := match ProjectStatusFromCode(q.status)
                    case Some(s) => Filter(byTag, HasStatus(s))
                    case None => byTag;
    if q.search != "" then Filter(byStatus, SearchHit(q.search)) else byStatus
  }

  /** The whole ordered project listing. */
  function ProjectListing(st: Store, q: ProjectQuery): (r: seq<Project>)
    ensures SortedBy(r, ProjectOrderKey)
    ensures forall p :: p in r <==> p in st.projects && ProjectMatches(st, q, p)
  {
    var r := SortBy(FilteredProjects(st, q), ProjectOrderKey);
    assert forall p :: p in r <==> p in FilteredProjects(st, q) by {
      forall p ensures p in r <==> p in FilteredProjects(st, q) {
        assert p in r <==> p in multiset(r);
      }
    }
    r
  }

  /** The listing is a rearrangement of the matching projects: each one
      occurs exactly as often as it is stored. */
  lemma {:induction false} ProjectListingIsPermutation(st: Store, q: ProjectQuery, p: Project)
    ensures multiset(ProjectListing(st, q))[p] == if ProjectMatches(st, q, p) then multiset(st.projects)[p] else 0
  {
    FilteredProjectsMultiset(st, q, p);
  }

  lemma {:induction false} FilteredProjectsMultiset(st: Store, q: ProjectQuery, p: Project)
    ensures multiset(FilteredProjects(st, q))[p] == if ProjectMatches(st, q, p) then multiset(st.projects)[p] else 0
  {
    var published := Filter(st.projects, IsPublished);
    FilterMultiset(st.projects, IsPublished);
    var byCategory := if q.category != "" then Filter(published, InCategory(st, q.category)) else published;
    if q.category != "" { FilterMultiset(published, InCategory(st, q.category)); }
    var byTag := if q.tag != "" then Filter(byCategory, TagHit(q.tag)) else byCategory;
    if q.tag != "" { FilterMultiset(byCategory, TagHit(q.tag)); }
    var byStatus := match ProjectStatusFromCode(q.status)
                    case Some(s) => Filter(byTag, HasStatus(s))
                    case None => byTag;
    if ProjectStatusFromCode(q.status).Some? {
      FilterMultiset(byTag, HasStatus(ProjectStatusFromCode(q.status).value));
    }
    if q.search != "" { FilterMultiset(byStatus, SearchHit(q.search)); }
  }

  /** A status that names no project status is ignored, not treated as
      matching nothing. */
  lemma InvalidStatusIgnored(st: Store, q: ProjectQuery)
    requires ProjectStatusFromCode(q.status).None?
    ensures ProjectListing(st, q) == ProjectListing(st, q.(status := ""))
    ensures forall p :: p in ProjectListing(st, q) <==> p in st.projects && ProjectMatches(st, q.(status := ""), p)
  {
  }

  /** Page `number` of the project listing, nine to a page. */
  function ProjectPage(st: Store, q: ProjectQuery, number: int): (r: Option<seq<Project>>)
    ensures r.Some? <==> 1 <= number <= NumPages(|ProjectListing(st, q)|, ProjectsPerPage)
    ensures r.Some? ==> |r.value| <= ProjectsPerPage
    ensures r.Some? ==> forall p :: p in r.value ==> p in st.projects && ProjectMatches(st, q, p)
    ensures r.Some? ==>
              var all, start := ProjectListing(st, q), (number - 1) * ProjectsPerPage;
              && |r.value| == Min(ProjectsPerPage, |all| - start)
              && forall k :: 0 <= k < |r.value| ==> r.value[k] == all[start + k]
  {
    Page(ProjectListing(st, q), number, ProjectsPerPage)
  }

  // ---------------------------------------------------------- blog listing

  datatype BlogQuery = BlogQuery(category: string, tag: string, search: string)

  const PostsPerPage: nat := 10

  /** Published, with a publication time that has come. */
  predicate IsLive(now: int, b: BlogPost) {
    b.status == Published && b.publishedAt.Some? && b.publishedAt.value <= now
  }

  function Live(now: int): (f: BlogPost -> bool)
    ensures forall b :: f(b) <==> IsLive(now, b)
  {
    (b: BlogPost) => IsLive(now, b)
  }

  function CategoryIs(category: string): (f: BlogPost -> bool)
    ensures forall b :: f(b) <==> EqualsFold(b.category, category)
  {
    (b: BlogPost) => EqualsFold(b.category, category)
  }

  function PostTagHit(tag: string): (f: BlogPost -> bool)
    ensures forall b :: f(b) <==> ContainsFold(b.tags, tag)
  {
    (b: BlogPost) => ContainsFold(b.tags, tag)
  }

  function PostSearchHit(text: string): (f: BlogPost -> bool)
    ensures forall b :: f(b) <==>
              ContainsFold(b.title, text) || ContainsFold(b.excerpt, text) || ContainsFold(b.content, text)
  {
    (b: BlogPost) => ContainsFold(b.title, text) || ContainsFold(b.excerpt, text) || ContainsFold(b.content, text)
  }

  /** Newest publication first. */
  function PostOrderKey(b: BlogPost): Key {
    match b.publishedAt
    case Some(t) => [-t]
    case None => []
  }

  /** Which posts the blog list shows, stated as one condition. */
  ghost predicate PostMatches(now: int, q: BlogQuery, b: BlogPost) {
    && IsLive(now, b)
    && (q.category != "" ==> EqualsFold(b.category, q.category))
    && (q.tag != "" ==> ContainsFold(b.tags, q.tag))
    && (q.search != "" ==>
          ContainsFold(b.title, q.search) || ContainsFold(b.excerpt, q.search) || ContainsFold(b.content, q.search))
  }

  function FilteredPosts(st: Store, now: int, q: BlogQuery): (r: seq<BlogPost>)
    ensures forall b :: b in r <==> b in st.posts && PostMatches(now, q, b)
  {
    var live := Filter(st.posts, Live(now));
    var byCategory := if q.category != "" then Filter(live, CategoryIs(q.category)) else live;
    var byTag := if q.tag != "" then Filter(byCategory, PostTagHit(q.tag)) else byCategory;
    if q.search != "" then Filter(byTag, PostSearchHit(q.search)) else byTag
  }

  /** `BlogListView.get_queryset`: the live posts that pass every filter,
      newest first. */
  function BlogListing(st: Store, now: int, q: BlogQuery): (r: seq<BlogPost>)
    ensures SortedBy(r, PostOrderKey)
    ensures forall b :: b in r <==> b in st.posts && PostMatches(now, q, b)
  {
    var r := SortBy(FilteredPosts(st, now, q), PostOrderKey);
    assert forall b :: b in r <==> b in FilteredPosts(st, now, q) by {
      forall b ensures b in r <==> b in FilteredPosts(st, now, q) {
        assert b in r <==> b in multiset(r);
      }
    }
    r
  }

  /** Every listed post has a publication time, and later ones come first. */
  lemma BlogListingNewestFirst(st: Store, now: int, q: BlogQuery, i: nat, j: nat)
    requires i < j < |BlogListing(st, now, q)|
    ensures BlogListing(st, now, q)[i].publishedAt.Some? && BlogListing(st, now, q)[j].publishedAt.Some?
    ensures BlogListing(st, now, q)[j].publishedAt.value <= BlogListing(st, now, q)[i].publishedAt.value
  {
    var r := BlogListing(st, now, q);
    assert r[i] in r && r[j] in r;
    var ti, tj := r[i].publishedAt.value, r[j].publishedAt.value;
    assert KeyLe([-ti], [-tj]);
    assert [-ti][1..] == [];
  }

  lemma {:induction false} BlogListingIsPermutation(st: Store, now: int, q: BlogQuery, b: BlogPost)
    ensures multiset(BlogListing(st, now, q))[b] == if PostMatches(now, q, b) then multiset(st.posts)[b] else 0
  {
    var live := Filter(st.posts, Live(now));
    FilterMultiset(st.posts, Live(now));
    var byCategory := if q.category != "" then Filter(live, CategoryIs(q.category)) else live;
    if q.category != "" { FilterMultiset(live, CategoryIs(q.category)); }
    var byTag := if q.tag != "" then Filter(byCategory, PostTagHit(q.tag)) else byCategory;
    if q.tag != "" { FilterMultiset(byCategory, PostTagHit(q.tag)); }
    if q.search != "" { FilterMultiset(byTag, PostSearchHit(q.search)); }
  }

  /** Page `number` of the blog listing, ten to a page. */
  function BlogPage(st: Store, now: int, q: BlogQuery, number: int): (r: Option<seq<BlogPost>>)
    ensures r.Some? <==> 1 <= number <= NumPages(|BlogListing(st, now, q)|, PostsPerPage)
    ensures r.Some? ==> |r.value| <= PostsPerPage
    ensures r.Some? ==> forall b :: b in r.value ==> b in st.posts && PostMatches(now, q, b)
    ensures r.Some? ==>
              var all, start := BlogListing(st, now, q), (number - 1) * PostsPerPage;
              && |r.value| == Min(PostsPerPage, |all| - start)
              && forall k :: 0 <= k < |r.value| ==> r.value[k] == all[start + k]
  {
    Page(BlogListing(st, now, q), number, PostsPerPage)
  }

  // ------------------------------------------------------ tags and categories

  /** The items of every comma-delimited text in `texts`, in order, with
      repeats. */
  function ParsedItems(texts: seq<string>): seq<string>
  {
    if |texts| == 0 then [] else ParseList(texts[0]) + ParsedItems(texts[1..])
  }

  lemma {:induction false} ParsedItemsMembers(texts: seq<string>, t: string)
    ensures t in ParsedItems(texts) <==> exists x :: x in texts && t in ParseList(x)
  {
    if |texts| > 0 {
      ParsedItemsMembers(texts[1..], t);
      assert forall x :: x in texts <==> x == texts[0] || x in texts[1..] by {
        HeadTail(texts);
      }
    }
  }

  /** `sorted(all_tags)` after `all_tags.update(...)` over every text: the
      distinct items, ascending, each one trimmed, non-empty and comma-free. */
  function AllTags(texts: seq<string>): (r: seq<string>)
    ensures StrictlySorted(r)
    ensures forall t :: t in r <==> exists x :: x in texts && t in ParseList(x)
    ensures forall i :: 0 <= i < |r| ==> r[i] != "" && IsStripped(r[i]) && ',' !in r[i]
  {
    var items := ParsedItems(texts);
    var r := SortedSet(items);
    forall t ensures t in r <==> exists x :: x in texts && t in ParseList(x) {
      ParsedItemsMembers(texts, t);
    }
    forall i | 0 <= i < |r| ensures r[i] != "" && IsStripped(r[i]) && ',' !in r[i] {
      assert r[i] in r;
      var x :| x in texts && r[i] in ParseList(x);
      var k :| 0 <= k < |ParseList(x)| && ParseList(x)[k] == r[i];
    }
    r
  }

  function ProjectTagsText(p: Project): string { p.tags }
  function PostTagsText(b: BlogPost): string { b.tags }

  /** An item comes from the texts of the selected rows exactly when it
      comes from the text of some selected row. */
  lemma ItemsOfRows<T(!new)>(rows: seq<T>, keep: T -> bool, textOf: T -> string, t: string)
    ensures (exists x :: x in Map(Filter(rows, keep), textOf) && t in ParseList(x)) <==>
            (exists y :: y in rows && keep(y) && t in ParseList(textOf(y)))
  {
    var kept := Filter(rows, keep);
    var texts := Map(kept, textOf);
    if x :| x in texts && t in ParseList(x) {
      var i :| 0 <= i < |texts| && texts[i] == x;
      assert kept[i] in kept;
    }
    if y :| y in rows && keep(y) && t in ParseList(textOf(y)) {
      assert y in kept;
      var i :| 0 <= i < |kept| && kept[i] == y;
      assert texts[i] in texts;
    }
  }

  /** A tag is listed for the selected rows exactly when it is parsed from
      the text of one of them. */
  lemma TagsOfRows<T(!new)>(rows: seq<T>, keep: T -> bool, textOf: T -> string, t: string)
    ensures t in AllTags(Map(Filter(rows, keep), textOf)) <==>
            exists y :: y in rows && keep(y) && t in ParseList(textOf(y))
  {
    ItemsOfRows(rows, keep, textOf, t);
  }

  /** The tag list beside the project listing. */
  function ProjectTagList(st: Store): (r: seq<string>)
    ensures StrictlySorted(r)
    ensures forall t :: t in r <==> exists p :: p in st.projects && p.isPublished && t in ParseList(p.tags)
  {
    ProjectTagsExact(st);
    AllTags(Map(Filter(st.projects, IsPublished), ProjectTagsText))
  }

  lemma ProjectTagsExact(st: Store)
    ensures forall t :: t in AllTags(Map(Filter(st.projects, IsPublished), ProjectTagsText)) <==>
                        exists p :: p in st.projects && p.isPublished && t in ParseList(p.tags)
  {
    forall t ensures t in AllTags(Map(Filter(st.projects, IsPublished), ProjectTagsText)) <==>
                     exists p :: p in st.projects && p.isPublished && t in ParseList(p.tags) {
      TagsOfRows(st.projects, IsPublished, ProjectTagsText, t);
      if y :| y in st.projects && IsPublished(y) && t in ParseList(ProjectTagsText(y)) {
        assert y.isPublished && t in ParseList(y.tags);
      }
      if p :| p in st.projects && p.isPublished && t in ParseList(p.tags) {
        assert IsPublished(p) && t in ParseList(ProjectTagsText(p));
      }
    }
  }

  /** The tag list beside the blog listing. */
  function PostTagList(st: Store, now: int): (r: seq<string>)
    ensures StrictlySorted(r)
    ensures forall t :: t in r <==> exists b :: b in st.posts && IsLive(now, b) && t in ParseList(b.tags)
  {
    PostTagsExact(st, now);
    AllTags(Map(Filter(st.posts, Live(now)), PostTagsText))
  }

  lemma PostTagsExact(st: Store, now: int)
    ensures forall t :: t in AllTags(Map(Filter(st.posts, Live(now)), PostTagsText)) <==>
                        exists b :: b in st.posts && IsLive(now, b) && t in ParseList(b.tags)
  {
    forall t ensures t in AllTags(Map(Filter(st.posts, Live(now)), PostTagsText)) <==>
                     exists b :: b in st.posts && IsLive(now, b) && t in ParseList(b.tags) {
      TagsOfRows(st.posts, Live(now), PostTagsText, t);
      if y :| y in st.posts && Live(now)(y) && t in ParseList(PostTagsText(y)) {
        assert IsLive(now, y) && t in ParseList(y.tags);
      }
      if b :| b in st.posts && IsLive(now, b) && t in ParseList(b.tags) {
        assert Live(now)(b) && t in ParseList(PostTagsText(b));
      }
    }
  }

  /** A post's category together with the columns of the post model's
      default ordering (`-published_at`, `-created_at`): Django adds those to
      the SELECT of a `.distinct()` query, so they take part in the DISTINCT. */
  function CategoryRow(b: BlogPost): (string, Option<int>, int) {
    (b.category, b.publishedAt, b.createdAt)
  }

  function RowCategory(t: (string, Option<int>, int)): string { t.0 }

  /** The distinct (category, published_at, created_at) rows of the live
      posts in category `c`. */
  ghost function CategoryRows(st: Store, now: int, c: string): set<(string, Option<int>, int)> {
    set b | b in st.posts && IsLive(now, b) && b.category == c :: CategoryRow(b)
  }

  /** `sorted(values_list('category', flat=True).distinct())` over the live
      posts. The flat list holds one entry per distinct category row, so a
      category is listed once for each distinct publication and creation time
      among its live posts, and `sorted` keeps the repeats next to each other. */
  function PostCategoryList(st: Store, now: int): (r: seq<string>)
    ensures forall i, j :: 0 <= i < j < |r| ==> r[i] == r[j] || StrLt(r[i], r[j])
    ensures forall c :: multiset(r)[c] == |CategoryRows(st, now, c)|
  {
    var rows := Dedup(Map(Filter(st.posts, Live(now)), CategoryRow));
    var names := Map(rows, RowCategory);
    forall c ensures multiset(names)[c] == |CategoryRows(st, now, c)| {
      CategoryNamesCount(st, now, rows, c);
    }
    SortBy(names, Codes)
  }

  lemma CategoryNamesCount(st: Store, now: int, rows: seq<(string, Option<int>, int)>, c: string)
    requires Distinct(rows)
    requires forall t :: t in rows <==> t in Map(Filter(st.posts, Live(now)), CategoryRow)
    ensures multiset(Map(rows, RowCategory))[c] == |CategoryRows(st, now, c)|
  {
    DistinctMapCount(rows, RowCategory, c);
    CategoryRowsOfLive(st, now, rows, c);
    var byCall := set t | t in rows && RowCategory(t) == c;
    assert Preimage(rows, RowCategory, c) == byCall by {
      forall t ensures t in Preimage(rows, RowCategory, c) <==> t in byCall { }
    }
    assert byCall == CategoryRows(st, now, c);
  }

  lemma CategoryRowsOfLive(st: Store, now: int, rows: seq<(string, Option<int>, int)>, c: string)
    requires forall t :: t in rows <==> t in Map(Filter(st.posts, Live(now)), CategoryRow)
    ensures (set t | t in rows && RowCategory(t) == c) == CategoryRows(st, now, c)
  {
    forall t ensures t in rows && RowCategory(t) == c <==> t in CategoryRows(st, now, c) {
      LiveRow(st, now, t);
    }
  }

  /** A row is a live post's category row exactly when it is in the mapped
      live posts. */
  lemma LiveRow(st: Store, now: int, t: (string, Option<int>, int))
    ensures t in Map(Filter(st.posts, Live(now)), CategoryRow) <==>
            exists b :: b in st.posts && IsLive(now, b) && CategoryRow(b) == t
  {
    var live := Filter(st.posts, Live(now));
    var image := Map(live, CategoryRow);
    if t in image {
      var i :| 0 <= i < |live| && image[i] == t;
      assert live[i] in live;
    }
    if b :| b in st.posts && IsLive(now, b) && CategoryRow(b) == t {
      assert b in live;
      var i :| 0 <= i < |live| && live[i] == b;
      assert image[i] == t;
    }
  }

  /** A category is listed exactly when some live post carries it. */
  lemma PostCategoryMembers(st: Store, now: int, c: string)
    ensures c in PostCategoryList(st, now) <==> exists b :: b in st.posts && IsLive(now, b) && b.category == c
  {
    var r := PostCategoryList(st, now);
    assert c in r <==> multiset(r)[c] > 0;
    if b :| b in st.posts && IsLive(now, b) && b.category == c {
      assert CategoryRow(b) in CategoryRows(st, now, c);
    }
    if c in r {
      var t :| t in CategoryRows(st, now, c);
    }
  }

  /** The list is not free of duplicates: two live posts of one category that
      differ in publication or creation time put that category in it twice. */
  lemma CategoryRepeats(st: Store, now: int, a: BlogPost, b: BlogPost)
    requires a in st.posts && IsLive(now, a) && b in st.posts && IsLive(now, b)
    requires a.category == b.category
    requires (a.publishedAt, a.createdAt) != (b.publishedAt, b.createdAt)
    ensures multiset(PostCategoryList(st, now))[a.category] >= 2
  {
    var rows := CategoryRows(st, now, a.category);
    assert CategoryRow(a) in rows && CategoryRow(b) in rows;
    var pair := {CategoryRow(a), CategoryRow(b)};
    assert |pair| == 2;
    assert rows == pair + (rows - pair);
  }

  // ------------------------------------------------------ related projects

  /** The related-projects condition: another published project that shares
      the category (both null counts as shared) or whose whole `tags` text
      equals one of this project's tags. */
  predicate IsRelated(p: Project, x: Project) {
    x.isPublished && x.id != p.id && (x.category == p.category || x.tags in ParseList(p.tags))
  }

  function RelatedTo(p: Project): (f: Project -> bool)
    ensures forall x :: f(x) <==> IsRelated(p, x)
  {
    x => IsRelated(p, x)
  }

  const RelatedLimit: nat := 3

  /** The related projects of `p`: the first three related ones in listing
      order. */
  function RelatedProjects(st: Store, p: Project): (r: seq<Project>)
    ensures |r| <= RelatedLimit
    ensures forall x :: x in r ==> x in st.projects && IsRelated(p, x)
    ensures SortedBy(r, ProjectOrderKey)
    ensures |r| < RelatedLimit ==> forall x :: x in st.projects && IsRelated(p, x) ==> x in r
    ensures forall x, y :: x in r && y in st.projects && IsRelated(p, y) && y !in r ==>
              KeyLe(ProjectOrderKey(x), ProjectOrderKey(y))
  {
    var r := Top(st.projects, RelatedTo(p), ProjectOrderKey, RelatedLimit);
    forall x, y | x in r && y in st.projects && IsRelated(p, y) && y !in r
      ensures KeyLe(ProjectOrderKey(x), ProjectOrderKey(y))
    {
      TopFirst(st.projects, RelatedTo(p), ProjectOrderKey, RelatedLimit, x, y);
    }
    r
  }

  /** Related projects are distinct rows and never the project itself. */
  lemma RelatedDistinct(st: Store, p: Project)
    requires UniqueBy(st.projects, ProjectId)
    ensures UniqueBy(RelatedProjects(st, p), ProjectId)
    ensures forall x :: x in RelatedProjects(st, p) ==> x.id != p.id
  {
    var candidates := Filter(st.projects, RelatedTo(p));
    FilterKeepsUnique(st.projects, ProjectId, RelatedTo(p));
    var sorted := Select(st.projects, RelatedTo(p), ProjectOrderKey);
    PermutationKeepsUnique(candidates, sorted, ProjectId);
    var r := Take(sorted, RelatedLimit);
    assert forall i :: 0 <= i < |r| ==> r[i] == sorted[i];
  }

  // ---------------------------------------------------------------- counts

  datatype ProjectCounts = ProjectCounts(total: nat, completed: nat, inProgress: nat, openSource: nat)

  predicate IsCompleted(p: Project) { p.isPublished && p.status == Completed }
  predicate IsInProgress(p: Project) { p.isPublished && p.status == InProgress }
  predicate IsOpenSource(p: Project) { p.isPublished && p.githubUrl != "" }

  /** `project_counts` of the project list: published projects in total,
      completed, in progress, and with a repository link. */
  function CountProjects(st: Store): (r: ProjectCounts)
    ensures r.completed + r.inProgress <= r.total
    ensures r.openSource <= r.total
    ensures r.total == |Filter(st.projects, IsPublished)|
    ensures r.completed == |Filter(st.projects, IsCompleted)|
    ensures r.inProgress == |Filter(st.projects, IsInProgress)|
    ensures r.openSource == |Filter(st.projects, IsOpenSource)|
  {
    CountDisjointSum(st.projects, IsCompleted, IsInProgress, IsPublished);
    CountSubsumed(st.projects, IsOpenSource, IsPublished);
    ProjectCounts(Count(st.projects, IsPublished), Count(st.projects, IsCompleted),
                  Count(st.projects, IsInProgress), Count(st.projects, IsOpenSource))
  }

  function CategoryOrderKey(c: Category): Key { [c.order] }

  function PublishedIn(id: nat): (f: Project -> bool)
    ensures forall p :: f(p) <==> p.isPublished && p.category == Some(id)
  {
    (p: Project) => p.isPublished && p.category == Some(id)
  }

  /** A category with its number of published projects. */
  datatype CategoryCount = CategoryCount(category: Category, published: nat)

  function CountedCategory(e: CategoryCount): Category { e.category }

  /** The category list of the project page: every category in `order`,
      each with its number of published projects. */
  function CategoryCounts(st: Store): (r: seq<CategoryCount>)
    ensures SortedBy(Map(r, CountedCategory), CategoryOrderKey)
    ensures multiset(Map(r, CountedCategory)) == multiset(st.categories)
    ensures forall i :: 0 <= i < |r| ==> r[i].published == Count(st.projects, PublishedIn(r[i].category.id))
    ensures forall i :: 0 <= i < |r| ==> r[i].published <= Count(st.projects, IsPublished)
  {
    var sorted := SortBy(st.categories, CategoryOrderKey);
    var r := Map(sorted, (c: Category) => CategoryCount(c, Count(st.projects, PublishedIn(c.id))));
    assert Map(r, CountedCategory) == sorted;
    assert forall i :: 0 <= i < |r| ==> r[i].published <= Count(st.projects, IsPublished) by {
      forall i | 0 <= i < |r| ensures r[i].published <= Count(st.projects, IsPublished) {
        CountSubsumed(st.projects, PublishedIn(sorted[i].id), IsPublished);
      }
    }
    r
  }

  /** The profile with the smallest key. */
  function MinById(s: seq<Profile>): (r: Option<Profile>)
    ensures r.None? <==> |s| == 0
    ensures r.Some? ==> r.value in s && forall x :: x in s ==> r.value.id <= x.id
  {
    if |s| == 0 then None
    else
      var rest := MinById(s[1..]);
      assert forall x :: x in s <==> x == s[0] || x in s[1..] by {
        assert s == [s[0]] + s[1..];
      }
      if rest.Some? && rest.value.id < s[0].id then rest else Some(s[0])
  }

  /** `Profile.objects.first()`: with no ordering declared, the profile with
      the smallest key. */
  function FirstProfile(st: Store): (r: Option<Profile>)
    ensures r.None? <==> |st.profiles| == 0
    ensures r.Some? ==> r.value in st.profiles && forall x :: x in st.profiles ==> r.value.id <= x.id
  {
    MinById(st.profiles)
  }

  predicate Owned(profile: nat, p: Project) { p.profile == profile && p.isPublished }

  function OwnedBy(profile: nat): (f: Project -> bool)
    ensures forall p :: f(p) <==> Owned(profile, p)
  {
    (p: Project) => Owned(profile, p)
  }

  function ClientOf(profile: nat): (f: Project -> bool)
    ensures forall p :: f(p) <==> Owned(profile, p) && p.client != ""
  {
    (p: Project) => Owned(profile, p) && p.client != ""
  }

  /** `project_count` of the about page. */
  function ProjectCount(st: Store, profile: nat): nat {
    Count(st.projects, OwnedBy(profile))
  }

  function ClientName(p: Project): string { p.client }

  /** The distinct non-empty clients of the profile's published projects. */
  ghost function Clients(st: Store, profile: nat): set<string> {
    set p | p in st.projects && Owned(profile, p) && p.client != "" :: p.client
  }

  /** `client_count` of the about page: `values('client').distinct().count()`
      over the profile's published projects with a client. */
  function ClientCount(st: Store, profile: nat): (r: nat)
    ensures r == |Clients(st, profile)|
    ensures r <= ProjectCount(st, profile)
  {
    var withClient := Filter(st.projects, ClientOf(profile));
    var names := set p | p in withClient :: ClientName(p);
    assert names == Clients(st, profile);
    ImageBound(withClient, ClientName);
    assert names == Image(withClient, ClientName);
    CountSubsumed(st.projects, ClientOf(profile), OwnedBy(profile));
    assert |withClient| <= Count(st.projects, OwnedBy(profile));
    |names|
  }

  // -------------------------------------------------------------- grouping

  function LabelIs<T(!new)>(groupOf: T -> string, l: string): (f: T -> bool)
    ensures forall x :: f(x) <==> groupOf(x) == l
  {
    x => groupOf(x) == l
  }

  function Labels<T>(groups: seq<(string, seq<T>)>): (r: seq<string>)
    ensures |r| == |groups|
    ensures forall i :: 0 <= i < |groups| ==> r[i] == groups[i].0
  {
    Map(groups, (g: (string, seq<T>)) => g.0)
  }

  /** `groups` is the grouping of `s` by `groupOf`: distinct labels, every
      group non-empty and exactly the elements of its label in their original
      order, and every element's label present. */
  ghost predicate IsGrouping<T(!new)>(s: seq<T>, groupOf: T -> string, groups: seq<(string, seq<T>)>) {
    && DistinctLabels(groups)
    && GroupsFilter(s, groupOf, groups)
    && (forall i :: 0 <= i < |groups| ==> groups[i].1 != [])
    && LabelsCover(s, groupOf, groups)
  }

  /** No label heads two groups. */
  ghost predicate DistinctLabels<T>(groups: seq<(string, seq<T>)>) {
    forall i, j :: 0 <= i < j < |groups| ==> groups[i].0 != groups[j].0
  }

  /** Each group holds exactly the elements of `s` with its label, in order. */
  ghost predicate GroupsFilter<T(!new)>(s: seq<T>, groupOf: T -> string, groups: seq<(string, seq<T>)>) {
    forall i :: 0 <= i < |groups| ==> groups[i].1 == Filter(s, LabelIs(groupOf, groups[i].0))
  }

  /** Every element's label heads some group. */
  ghost predicate LabelsCover<T>(s: seq<T>, groupOf: T -> string, groups: seq<(string, seq<T>)>) {
    forall x :: x in s ==> groupOf(x) in Labels(groups)
  }

  /** Appending an element whose label has a group extends that group. */
  lemma JoinGroup<T(!new)>(s: seq<T>, x: T, groupOf: T -> string, groups: seq<(string, seq<T>)>, n: nat)
    requires IsGrouping(s, groupOf, groups)
    requires n < |groups| && groups[n].0 == groupOf(x)
    ensures IsGrouping(s + [x], groupOf, groups[n := (groups[n].0, groups[n].1 + [x])])
  {
    var next := groups[n := (groups[n].0, groups[n].1 + [x])];
    assert DistinctLabels(next);
    JoinGroupFilters(s, x, groupOf, groups, n);
    JoinGroupCovers(s, x, groupOf, groups, n);
  }

  lemma JoinGroupFilters<T(!new)>(s: seq<T>, x: T, groupOf: T -> string, groups: seq<(string, seq<T>)>, n: nat)
    requires GroupsFilter(s, groupOf, groups) && DistinctLabels(groups)
    requires n < |groups| && groups[n].0 == groupOf(x)
    ensures GroupsFilter(s + [x], groupOf, groups[n := (groups[n].0, groups[n].1 + [x])])
  {
    var next := groups[n := (groups[n].0, groups[n].1 + [x])];
    forall i | 0 <= i < |next| ensures next[i].1 == Filter(s + [x], LabelIs(groupOf, next[i].0)) {
      FilterAppend(s, [x], LabelIs(groupOf, next[i].0));
      FilterSingleton(x, LabelIs(groupOf, next[i].0));
    }
  }

  lemma JoinGroupCovers<T>(s: seq<T>, x: T, groupOf: T -> string, groups: seq<(string, seq<T>)>, n: nat)
    requires LabelsCover(s, groupOf, groups)
    requires n < |groups| && groups[n].0 == groupOf(x)
    ensures LabelsCover(s + [x], groupOf, groups[n := (groups[n].0, groups[n].1 + [x])])
  {
    var next := groups[n := (groups[n].0, groups[n].1 + [x])];
    forall y | y in s + [x] ensures groupOf(y) in Labels(next) {
      if y in s {
        var i :| 0 <= i < |groups| && Labels(groups)[i] == groupOf(y);
        assert Labels(next)[i] == groupOf(y);
      } else {
        assert Labels(next)[n] == groupOf(y);
      }
    }
  }

  /** Appending an element leaves the groups of other labels as they were. */
  lemma OtherGroupsKept<T(!new)>(s: seq<T>, x: T, groupOf: T -> string, groups: seq<(string, seq<T>)>)
    requires forall i :: 0 <= i < |groups| ==> groups[i].1 == Filter(s, LabelIs(groupOf, groups[i].0))
    requires forall i :: 0 <= i < |groups| ==> groups[i].0 != groupOf(x)
    ensures forall i :: 0 <= i < |groups| ==> groups[i].1 == Filter(s + [x], LabelIs(groupOf, groups[i].0))
  {
    forall i | 0 <= i < |groups| ensures groups[i].1 == Filter(s + [x], LabelIs(groupOf, groups[i].0)) {
      FilterAppend(s, [x], LabelIs(groupOf, groups[i].0));
      FilterSingleton(x, LabelIs(groupOf, groups[i].0));
    }
  }

  /** A label no group carries is the label of no element seen so far. */
  lemma UnseenLabel<T(!new)>(s: seq<T>, groupOf: T -> string, groups: seq<(string, seq<T>)>, l: string)
    requires forall y :: y in s ==> groupOf(y) in Labels(groups)
    requires forall i :: 0 <= i < |groups| ==> groups[i].0 != l
    ensures Filter(s, LabelIs(groupOf, l)) == []
  {
    forall y | y in s ensures groupOf(y) != l {
      var i :| 0 <= i < |groups| && Labels(groups)[i] == groupOf(y);
    }
    FilterNone(s, LabelIs(groupOf, l));
  }

  /** Appending an element with a new label opens a group for it at the end. */
  lemma OpenGroup<T(!new)>(s: seq<T>, x: T, groupOf: T -> string, groups: seq<(string, seq<T>)>)
    requires IsGrouping(s, groupOf, groups)
    requires forall i :: 0 <= i < |groups| ==> groups[i].0 != groupOf(x)
    ensures IsGrouping(s + [x], groupOf, groups + [(groupOf(x), [x])])
  {
    var next := groups + [(groupOf(x), [x])];
    assert DistinctLabels(next);
    OpenGroupFilters(s, x, groupOf, groups);
    OpenGroupCovers(s, x, groupOf, groups);
  }

  lemma OpenGroupFilters<T(!new)>(s: seq<T>, x: T, groupOf: T -> string, groups: seq<(string, seq<T>)>)
    requires GroupsFilter(s, groupOf, groups) && LabelsCover(s, groupOf, groups)
    requires forall i :: 0 <= i < |groups| ==> groups[i].0 != groupOf(x)
    ensures GroupsFilter(s + [x], groupOf, groups + [(groupOf(x), [x])])
  {
    var next := groups + [(groupOf(x), [x])];
    OtherGroupsKept(s, x, groupOf, groups);
    UnseenLabel(s, groupOf, groups, groupOf(x));
    FilterAppend(s, [x], LabelIs(groupOf, groupOf(x)));
    FilterSingleton(x, LabelIs(groupOf, groupOf(x)));
    forall i | 0 <= i < |next| ensures next[i].1 == Filter(s + [x], LabelIs(groupOf, next[i].0)) {
      if i < |groups| {
        assert next[i] == groups[i];
      }
    }
  }

  lemma OpenGroupCovers<T>(s: seq<T>, x: T, groupOf: T -> string, groups: seq<(string, seq<T>)>)
    requires LabelsCover(s, groupOf, groups)
    ensures LabelsCover(s + [x], groupOf, groups + [(groupOf(x), [x])])
  {
    var next := groups + [(groupOf(x), [x])];
    forall y | y in s + [x] ensures groupOf(y) in Labels(next) {
      if y in s {
        var i :| 0 <= i < |groups| && Labels(groups)[i] == groupOf(y);
        assert Labels(next)[i] == groupOf(y);
      } else {
        assert Labels(next)[|groups|] == groupOf(y);
      }
    }
  }

  /** `x` placed in group `n`, or in a new group at the end when `n` is
      past the last group. */
  function Added<T>(groups: seq<(string, seq<T>)>, x: T, groupOf: T -> string, n: nat): seq<(string, seq<T>)>
    requires n <= |groups|
  {
    if n == |groups| then groups + [(groupOf(x), [x])]
    else groups[n := (groups[n].0, groups[n].1 + [x])]
  }

  /** Placing the next element in the first group with its label, or in a
      new group when no group has it, keeps the grouping. */
  lemma AddedGrouping<T(!new)>(s: seq<T>, x: T, groupOf: T -> string, groups: seq<(string, seq<T>)>, n: nat)
    requires IsGrouping(s, groupOf, groups)
    requires n <= |groups| && forall i :: 0 <= i < n ==> groups[i].0 != groupOf(x)
    requires n < |groups| ==> groups[n].0 == groupOf(x)
    ensures IsGrouping(s + [x], groupOf, Added(groups, x, groupOf, n))
  {
    if n == |groups| {
      OpenGroup(s, x, groupOf, groups);
    } else {
      JoinGroup(s, x, groupOf, groups, n);
    }
  }

  /** The first group labelled `l`, or `|groups|` when there is none. */
  method FindGroup<T>(groups: seq<(string, seq<T>)>, l: string) returns (n: nat)
    ensures n <= |groups|
    ensures forall i :: 0 <= i < n ==> groups[i].0 != l
    ensures n < |groups| ==> groups[n].0 == l
  {
    n := 0;
    while n < |groups| && groups[n].0 != l
      invariant n <= |groups|
      invariant forall i :: 0 <= i < n ==> groups[i].0 != l
    {
      n := n + 1;
    }
  }

  /** The position of the first element of `s` labelled `l`, or `|s|` when
      no element is. */
  function FirstWith<T(!new)>(s: seq<T>, groupOf: T -> string, l: string): (r: nat)
    ensures r <= |s|
    ensures forall k :: 0 <= k < r && k < |s| ==> groupOf(s[k]) != l
    ensures r < |s| ==> groupOf(s[r]) == l
  {
    match FindFrom(s, LabelIs(groupOf, l), 0)
    case None => |s|
    case Some(i) => i
  }

  /** Groups stand in the order their labels first appear in `s`: the order
      in which a dict fills its keys. */
  ghost predicate FirstSeenOrder<T(!new)>(s: seq<T>, groupOf: T -> string, groups: seq<(string, seq<T>)>) {
    forall i, j :: 0 <= i < j < |groups| ==> FirstWith(s, groupOf, groups[i].0) < FirstWith(s, groupOf, groups[j].0)
  }

  /** Appending an element moves no label's first appearance, except that
      of a label first seen in it. */
  lemma FirstWithAppend<T(!new)>(s: seq<T>, x: T, groupOf: T -> string, l: string)
    ensures FirstWith(s + [x], groupOf, l) ==
              if FirstWith(s, groupOf, l) < |s| then FirstWith(s, groupOf, l)
              else if groupOf(x) == l then |s| else |s| + 1
  {
    var a, b := FirstWith(s + [x], groupOf, l), FirstWith(s, groupOf, l);
    assert forall k :: 0 <= k < |s| ==> (s + [x])[k] == s[k];
    assert (s + [x])[|s|] == x;
  }

  /** Every group's label occurs in the grouped sequence. */
  lemma LabelSeen<T(!new)>(s: seq<T>, groupOf: T -> string, groups: seq<(string, seq<T>)>, i: nat)
    requires IsGrouping(s, groupOf, groups) && i < |groups|
    ensures FirstWith(s, groupOf, groups[i].0) < |s|
  {
    var y := groups[i].1[0];
    assert y in Filter(s, LabelIs(groupOf, groups[i].0));
    var k :| 0 <= k < |s| && s[k] == y;
  }

  /** Placing the next element keeps the groups in first-appearance order. */
  lemma AddedKeepsOrder<T(!new)>(s: seq<T>, x: T, groupOf: T -> string, groups: seq<(string, seq<T>)>, n: nat)
    requires IsGrouping(s, groupOf, groups) && FirstSeenOrder(s, groupOf, groups)
    requires n <= |groups| && forall i :: 0 <= i < n ==> groups[i].0 != groupOf(x)
    requires n < |groups| ==> groups[n].0 == groupOf(x)
    ensures FirstSeenOrder(s + [x], groupOf, Added(groups, x, groupOf, n))
  {
    forall i | 0 <= i < |groups| ensures FirstWith(s, groupOf, groups[i].0) < |s| {
      LabelSeen(s, groupOf, groups, i);
    }
    KeptFirsts(s, x, groupOf, groups);
    if n == |groups| {
      OpenKeepsOrder(s, x, groupOf, groups);
    } else {
      JoinKeepsOrder(s, x, groupOf, groups, n);
    }
  }

  /** Labels already seen keep their first appearance when an element is
      appended. */
  lemma KeptFirsts<T(!new)>(s: seq<T>, x: T, groupOf: T -> string, groups: seq<(string, seq<T>)>)
    requires forall i :: 0 <= i < |groups| ==> FirstWith(s, groupOf, groups[i].0) < |s|
    ensures forall i :: 0 <= i < |groups| ==>
              FirstWith(s + [x], groupOf, groups[i].0) == FirstWith(s, groupOf, groups[i].0)
  {
    forall i | 0 <= i < |groups|
      ensures FirstWith(s + [x], groupOf, groups[i].0) == FirstWith(s, groupOf, groups[i].0)
    {
      FirstWithAppend(s, x, groupOf, groups[i].0);
    }
  }

  lemma JoinKeepsOrder<T(!new)>(s: seq<T>, x: T, groupOf: T -> string, groups: seq<(string, seq<T>)>, n: nat)
    requires FirstSeenOrder(s, groupOf, groups) && n < |groups|
    requires forall i :: 0 <= i < |groups| ==>
               FirstWith(s + [x], groupOf, groups[i].0) == FirstWith(s, groupOf, groups[i].0)
    ensures FirstSeenOrder(s + [x], groupOf, groups[n := (groups[n].0, groups[n].1 + [x])])
  {
    var next := groups[n := (groups[n].0, groups[n].1 + [x])];
    assert forall i :: 0 <= i < |groups| ==> next[i].0 == groups[i].0;
  }

  lemma OpenKeepsOrder<T(!new)>(s: seq<T>, x: T, groupOf: T -> string, groups: seq<(string, seq<T>)>)
    requires FirstSeenOrder(s, groupOf, groups) && LabelsCover(s, groupOf, groups)
    requires forall i :: 0 <= i < |groups| ==> groups[i].0 != groupOf(x)
    requires forall i :: 0 <= i < |groups| ==> FirstWith(s, groupOf, groups[i].0) < |s|
    requires forall i :: 0 <= i < |groups| ==>
               FirstWith(s + [x], groupOf, groups[i].0) == FirstWith(s, groupOf, groups[i].0)
    ensures FirstSeenOrder(s + [x], groupOf, groups + [(groupOf(x), [x])])
  {
    var next := groups + [(groupOf(x), [x])];
    forall k | 0 <= k < |s| ensures groupOf(s[k]) != groupOf(x) {
      assert s[k] in s;
      var i :| 0 <= i < |groups| && Labels(groups)[i] == groupOf(s[k]);
    }
    assert FirstWith(s, groupOf, groupOf(x)) == |s|;
    FirstWithAppend(s, x, groupOf, groupOf(x));
    var last := FirstWith(s + [x], groupOf, groupOf(x));
    assert last == |s|;
    forall i, j | 0 <= i < j < |next|
      ensures FirstWith(s + [x], groupOf, next[i].0) < FirstWith(s + [x], groupOf, next[j].0)
    {
      assert next[i] == groups[i];
      if j < |groups| {
        assert next[j] == groups[j];
      } else {
        assert next[j].0 == groupOf(x);
      }
    }
  }

  /** The grouping loop of the home and about views: for each element in
      turn, append it to the group of its label, opening the group (at the
      end) the first time the label is seen. Groups come out in order of
      first appearance, labels distinct, each group exactly the elements
      with its label in their original order. */
  method GroupBy<T(!new)>(s: seq<T>, groupOf: T -> string) returns (groups: seq<(string, seq<T>)>)
    ensures forall i, j :: 0 <= i < j < |groups| ==> groups[i].0 != groups[j].0
    ensures forall i :: 0 <= i < |groups| ==> groups[i].1 == Filter(s, LabelIs(groupOf, groups[i].0))
    ensures forall i :: 0 <= i < |groups| ==> groups[i].1 != []
    ensures forall x :: x in s ==> groupOf(x) in Labels(groups)
    ensures forall i, j :: 0 <= i < j < |groups| ==>
              FirstWith(s, groupOf, groups[i].0) < FirstWith(s, groupOf, groups[j].0)
  {
    groups := [];
    for k := 0 to |s|
      invariant IsGrouping(s[..k], groupOf, groups)
      invariant FirstSeenOrder(s[..k], groupOf, groups)
    {
      var n := FindGroup(groups, groupOf(s[k]));
      assert s[..k + 1] == s[..k] + [s[k]];
      AddedGrouping(s[..k], s[k], groupOf, groups, n);
      AddedKeepsOrder(s[..k], s[k], groupOf, groups, n);
      groups := Added(groups, s[k], groupOf, n);
    }
    assert s[..|s|] == s;
  }
}
