/** The page views: what each page puts in front of the visitor, assembled
    from the query layer, and the store each request leaves behind (a
    request can write, because `SiteSettings.load()` creates the settings
    row and the blog detail page counts views). */
module Pages {
  import opened Common
  import opened Ordering
  import opened Entities
  import opened Models
  import opened Queries

  /** What a request answers, with the store it leaves. */
  datatype Outcome<T> = Outcome(result: Result<T>, store: Store)

  // ------------------------------------------------------------ home page

  const FeaturedLimit: nat := 2
  const StatisticsLimit: nat := 4
  const ExpertiseLimit: nat := 3
  const TestimonialsLimit: nat := 3

  function ShowcaseKey(p: Project): Key { ProjectOrderKey(p) }

  function IsShowcased(p: Project): bool { p.isPublished && p.isFeatured }

  /** The featured projects of the home page: the first two published and
      featured projects, of any profile, in listing order. */
  function HomeFeatured(st: Store): (r: seq<Project>)
    ensures |r| <= FeaturedLimit
    ensures r <= Select(st.projects, IsShowcased, ProjectOrderKey)
    ensures |r| == Min(FeaturedLimit, |Filter(st.projects, IsShowcased)|)
    ensures forall p :: p in r ==> p in st.projects && p.isPublished && p.isFeatured
    ensures SortedBy(r, ProjectOrderKey)
    ensures |r| < FeaturedLimit ==> forall p :: p in st.projects && p.isPublished && p.isFeatured ==> p in r
  {
    Top(st.projects, IsShowcased, ProjectOrderKey, FeaturedLimit)
  }

  function OrderKeyOfStatistic(s: Statistic): Key { [s.order] }

  function ActiveStatisticOf(profile: nat): (f: Statistic -> bool)
    ensures forall s :: f(s) <==> s.profile == profile && s.isActive
  {
    (s: Statistic) => s.profile == profile && s.isActive
  }

  /** The statistics of the home page: with no profile none, otherwise the
      first four active ones of the profile in ascending `order`. */
  function HomeStatistics(st: Store, profile: Option<Profile>): (r: seq<Statistic>)
    ensures |r| <= StatisticsLimit
    ensures profile.None? ==> r == []
    ensures profile.Some? ==> var active := ActiveStatisticOf(profile.value.id);
              && r <= Select(st.statistics, active, OrderKeyOfStatistic)
              && |r| == Min(StatisticsLimit, |Filter(st.statistics, active)|)
    ensures profile.Some? ==> forall s :: s in r ==> s in st.statistics && s.profile == profile.value.id && s.isActive
    ensures forall i, j :: 0 <= i < j < |r| ==> r[i].order <= r[j].order
    ensures profile.Some? && |r| < StatisticsLimit ==>
              forall s :: s in st.statistics && s.profile == profile.value.id && s.isActive ==> s in r
  {
    match profile
    case None => []
    case Some(p) =>
      var r := Top(st.statistics, ActiveStatisticOf(p.id), OrderKeyOfStatistic, StatisticsLimit);
      assert forall i, j :: 0 <= i < j < |r| ==> r[i].order <= r[j].order by {
        forall i, j | 0 <= i < j < |r| ensures r[i].order <= r[j].order {
          assert KeyLe(OrderKeyOfStatistic(r[i]), OrderKeyOfStatistic(r[j]));
        }
      }
      r
  }

  function OrderKeyOfLink(s: SocialLink): Key { [s.order] }

  function ActiveLinkOf(profile: nat): (f: SocialLink -> bool)
    ensures forall s :: f(s) <==> s.profile == profile && s.isActive
  {
    (s: SocialLink) => s.profile == profile && s.isActive
  }

  /** The social links of the home page: every active link of the profile,
      in ascending `order`. */
  function HomeSocialLinks(st: Store, profile: Option<Profile>): (r: seq<SocialLink>)
    ensures profile.None? ==> r == []
    ensures profile.Some? ==> forall s :: s in r <==> s in st.socialLinks && s.profile == profile.value.id && s.isActive
    ensures profile.Some? ==> multiset(r) == multiset(Filter(st.socialLinks, ActiveLinkOf(profile.value.id)))
    ensures forall i, j :: 0 <= i < j < |r| ==> r[i].order <= r[j].order
  {
    match profile
    case None => []
    case Some(p) =>
      var r := Select(st.socialLinks, ActiveLinkOf(p.id), OrderKeyOfLink);
      LinksInOrder(r);
      r
  }

  lemma LinksInOrder(r: seq<SocialLink>)
    requires SortedBy(r, OrderKeyOfLink)
    ensures forall i, j :: 0 <= i < j < |r| ==> r[i].order <= r[j].order
  {
    forall i, j | 0 <= i < j < |r| ensures r[i].order <= r[j].order {
      assert KeyLe(OrderKeyOfLink(r[i]), OrderKeyOfLink(r[j]));
    }
  }

  function OrderKeyOfArea(e: ExpertiseArea): Key { [e.order] }

  function AreaOf(profile: nat): (f: ExpertiseArea -> bool)
    ensures forall e :: f(e) <==> e.profile == profile
  {
    (e: ExpertiseArea) => e.profile == profile
  }

  /** The expertise areas of the about page: every area of the profile, in
      ascending `order`. */
  function AboutExpertise(st: Store, profile: Option<Profile>): (r: seq<ExpertiseArea>)
    ensures profile.None? ==> r == []
    ensures profile.Some? ==> forall e :: e in r <==> e in st.expertiseAreas && e.profile == profile.value.id
    ensures profile.Some? ==> multiset(r) == multiset(Filter(st.expertiseAreas, AreaOf(profile.value.id)))
    ensures forall i, j :: 0 <= i < j < |r| ==> r[i].order <= r[j].order
  {
    match profile
    case None => []
    case Some(p) =>
      var r := Select(st.expertiseAreas, AreaOf(p.id), OrderKeyOfArea);
      AreasInOrder(r);
      r
  }

  lemma AreasInOrder(r: seq<ExpertiseArea>)
    requires SortedBy(r, OrderKeyOfArea)
    ensures forall i, j :: 0 <= i < j < |r| ==> r[i].order <= r[j].order
  {
    forall i, j | 0 <= i < j < |r| ensures r[i].order <= r[j].order {
      assert KeyLe(OrderKeyOfArea(r[i]), OrderKeyOfArea(r[j]));
    }
  }

  /** The expertise areas of the home page: the first three of the about
      page's list. */
  function HomeExpertise(st: Store, profile: Option<Profile>): (r: seq<ExpertiseArea>)
    ensures |r| <= ExpertiseLimit
    ensures r <= AboutExpertise(st, profile)
    ensures |r| == Min(ExpertiseLimit, |AboutExpertise(st, profile)|)
  {
    Take(AboutExpertise(st, profile), ExpertiseLimit)
  }

  /** Featured first, then ascending `order`. */
  function OrderKeyOfTestimonial(t: Testimonial): Key { [if t.isFeatured then 0 else 1, t.order] }

  function PublishedTestimonialOf(profile: nat): (f: Testimonial -> bool)
    ensures forall t :: f(t) <==> t.profile == profile && t.isPublished
  {
    (t: Testimonial) => t.profile == profile && t.isPublished
  }

  /** The testimonials of the home page: the first three published ones of
      the profile, featured ones before the others. */
  function HomeTestimonials(st: Store, profile: Option<Profile>): (r: seq<Testimonial>)
    ensures |r| <= TestimonialsLimit
    ensures profile.None? ==> r == []
    ensures profile.Some? ==> var published := PublishedTestimonialOf(profile.value.id);
              && r <= Select(st.testimonials, published, OrderKeyOfTestimonial)
              && |r| == Min(TestimonialsLimit, |Filter(st.testimonials, published)|)
    ensures SortedBy(r, OrderKeyOfTestimonial)
    ensures profile.Some? ==> forall t :: t in r ==> t in st.testimonials && t.profile == profile.value.id && t.isPublished
    ensures forall i, j :: 0 <= i < j < |r| && r[j].isFeatured ==> r[i].isFeatured
    ensures profile.Some? && |r| < TestimonialsLimit ==>
              forall t :: t in st.testimonials && t.profile == profile.value.id && t.isPublished ==> t in r
  {
    match profile
    case None => []
    case Some(p) =>
      var r := Top(st.testimonials, PublishedTestimonialOf(p.id), OrderKeyOfTestimonial, TestimonialsLimit);
      assert forall i, j :: 0 <= i < j < |r| && r[j].isFeatured ==> r[i].isFeatured by {
        forall i, j | 0 <= i < j < |r| && r[j].isFeatured ensures r[i].isFeatured {
          assert KeyLe(OrderKeyOfTestimonial(r[i]), OrderKeyOfTestimonial(r[j]));
        }
      }
      r
  }

  /** A published featured testimonial of the profile is never left off the
      home page for one that is not featured, nor for one of the same kind
      with a higher `order`. */
  lemma FeaturedTestimonialsFirst(st: Store, p: Profile, shown: Testimonial, missing: Testimonial)
    requires shown in HomeTestimonials(st, Some(p))
    requires missing in st.testimonials && missing.profile == p.id && missing.isPublished
    requires missing !in HomeTestimonials(st, Some(p))
    ensures missing.isFeatured ==> shown.isFeatured
    ensures shown.isFeatured == missing.isFeatured ==> shown.order <= missing.order
  {
    TopFirst(st.testimonials, PublishedTestimonialOf(p.id), OrderKeyOfTestimonial, TestimonialsLimit, shown, missing);
  }

  /** An active statistic of the profile left off the home page has an
      `order` no lower than any shown. */
  lemma FirstStatisticsShown(st: Store, p: Profile, shown: Statistic, missing: Statistic)
    requires shown in HomeStatistics(st, Some(p))
    requires missing in st.statistics && missing.profile == p.id && missing.isActive
    requires missing !in HomeStatistics(st, Some(p))
    ensures shown.order <= missing.order
  {
    TopFirst(st.statistics, ActiveStatisticOf(p.id), OrderKeyOfStatistic, StatisticsLimit, shown, missing);
  }

  /** Likewise no published featured project sorts before one that made it
      to the home page yet is missing from it. */
  lemma FeaturedProjectsFirst(st: Store, shown: Project, missing: Project)
    requires shown in HomeFeatured(st)
    requires missing in st.projects && missing.isPublished && missing.isFeatured
    requires missing !in HomeFeatured(st)
    ensures KeyLe(ProjectOrderKey(shown), ProjectOrderKey(missing))
  {
    TopFirst(st.projects, IsShowcased, ProjectOrderKey, FeaturedLimit, shown, missing);
  }

  // ------------------------------------------------------- skill grouping

  /** Skills sort by stored category code, then `order`, then name. */
  function SkillOrderKey(s: Skill): Key { [s.category.Rank(), s.order] + Codes(s.name) }

  /** The group a skill is shown under: its category's display label. */
  function SkillLabel(s: Skill): string { s.category.Label() }

  function SkillShown(profile: nat, featuredOnly: bool): (f: Skill -> bool)
    ensures forall s :: f(s) <==> s.profile == profile && (featuredOnly ==> s.isFeatured)
  {
    (s: Skill) => s.profile == profile && (featuredOnly ==> s.isFeatured)
  }

  /** The skills a page groups: the profile's skills (only the featured ones
      on the home page) in their default order. */
  function ShownSkills(st: Store, profile: Option<Profile>, featuredOnly: bool): (r: seq<Skill>)
    ensures profile.None? ==> r == []
    ensures profile.Some? ==>
              forall s :: s in r <==> s in st.skills && s.profile == profile.value.id && (featuredOnly ==> s.isFeatured)
    ensures profile.Some? ==> multiset(r) == multiset(Filter(st.skills, SkillShown(profile.value.id, featuredOnly)))
    ensures SortedBy(r, SkillOrderKey)
  {
    match profile
    case None => []
    case Some(p) => Select(st.skills, SkillShown(p.id, featuredOnly), SkillOrderKey)
  }

  /** Distinct categories have distinct display labels, so grouping by label
      is grouping by category. */
  lemma SkillLabelsDistinct(a: Skill, b: Skill)
    ensures SkillLabel(a) == SkillLabel(b) <==> a.category == b.category
  {
  }

  /** `skills_by_category`: the shown skills partitioned by category label,
      groups in order of first appearance, each group in the skills' order. */
  method SkillsByCategory(st: Store, profile: Option<Profile>, featuredOnly: bool)
    returns (groups: seq<(string, seq<Skill>)>)
    ensures profile.None? ==> groups == []
    ensures forall i, j :: 0 <= i < j < |groups| ==> groups[i].0 != groups[j].0
    ensures forall i :: 0 <= i < |groups| ==>
              groups[i].1 == Filter(ShownSkills(st, profile, featuredOnly), LabelIs(SkillLabel, groups[i].0))
    ensures forall i :: 0 <= i < |groups| ==> groups[i].1 != []
    ensures forall s :: s in ShownSkills(st, profile, featuredOnly) ==> SkillLabel(s) in Labels(groups)
    ensures forall i, j :: 0 <= i < j < |groups| ==>
              FirstWith(ShownSkills(st, profile, featuredOnly), SkillLabel, groups[i].0) <
              FirstWith(ShownSkills(st, profile, featuredOnly), SkillLabel, groups[j].0)
  {
    if profile.None? {
      groups := [];
    } else {
      groups := GroupBy(ShownSkills(st, profile, featuredOnly), SkillLabel);
    }
  }

  /** The context of the home page. */
  datatype HomeContext = HomeContext(
    profile: Option<Profile>,
    featuredProjects: seq<Project>,
    skillsByCategory: seq<(string, seq<Skill>)>,
    statistics: seq<Statistic>,
    socialLinks: seq<SocialLink>,
    expertiseAreas: seq<ExpertiseArea>,
    testimonials: seq<Testimonial>,
    settings: SiteSettings)

  /** `HomeView.get_context_data` once a profile exists or not: the first
      profile's featured skills grouped by category, its sections, the
      featured projects of every profile, and the loaded settings, whose
      creation is the only write. */
  method Home(st: Store) returns (ctx: HomeContext, after: Store)
    ensures ctx.profile == FirstProfile(st)
    ensures ctx.featuredProjects == HomeFeatured(st)
    ensures ctx.statistics == HomeStatistics(st, ctx.profile)
    ensures ctx.socialLinks == HomeSocialLinks(st, ctx.profile)
    ensures ctx.expertiseAreas == HomeExpertise(st, ctx.profile)
    ensures ctx.testimonials == HomeTestimonials(st, ctx.profile)
    ensures forall i, j :: 0 <= i < j < |ctx.skillsByCategory| ==> ctx.skillsByCategory[i].0 != ctx.skillsByCategory[j].0
    ensures forall i :: 0 <= i < |ctx.skillsByCategory| ==>
              ctx.skillsByCategory[i].1 != [] &&
              ctx.skillsByCategory[i].1 == Filter(ShownSkills(st, ctx.profile, true), LabelIs(SkillLabel, ctx.skillsByCategory[i].0))
    ensures forall s :: s in ShownSkills(st, ctx.profile, true) ==> SkillLabel(s) in Labels(ctx.skillsByCategory)
    ensures forall i, j :: 0 <= i < j < |ctx.skillsByCategory| ==>
              FirstWith(ShownSkills(st, ctx.profile, true), SkillLabel, ctx.skillsByCategory[i].0) <
              FirstWith(ShownSkills(st, ctx.profile, true), SkillLabel, ctx.skillsByCategory[j].0)
    ensures ctx.profile.None? ==> ctx.skillsByCategory == [] && ctx.statistics == [] && ctx.testimonials == []
    ensures ctx.settings == LoadSettings(st).settings && after == LoadSettings(st).store
    ensures after.(settings := st.settings) == st
  {
    var profile := FirstProfile(st);
    var groups := SkillsByCategory(st, profile, true);
    var loaded := LoadSettings(st);
    ctx := HomeContext(profile, HomeFeatured(st), groups, HomeStatistics(st, profile),
                       HomeSocialLinks(st, profile), HomeExpertise(st, profile),
                       HomeTestimonials(st, profile), loaded.settings);
    after := loaded.store;
  }

  /** Read back from a grouping: each group holds shown skills of its label,
      and every shown skill sits in some group. */
  lemma GroupsHoldShown(st: Store, profile: Option<Profile>, featuredOnly: bool, groups: seq<(string, seq<Skill>)>)
    requires forall i :: 0 <= i < |groups| ==>
               groups[i].1 == Filter(ShownSkills(st, profile, featuredOnly), LabelIs(SkillLabel, groups[i].0))
    requires forall s :: s in ShownSkills(st, profile, featuredOnly) ==> SkillLabel(s) in Labels(groups)
    ensures forall i :: 0 <= i < |groups| ==>
              forall s :: s in groups[i].1 ==> s in ShownSkills(st, profile, featuredOnly) && SkillLabel(s) == groups[i].0
    ensures forall s :: s in ShownSkills(st, profile, featuredOnly) ==>
              exists i :: 0 <= i < |groups| && s in groups[i].1
  {
    var shown := ShownSkills(st, profile, featuredOnly);
    forall s | s in shown ensures exists i :: 0 <= i < |groups| && s in groups[i].1 {
      var i :| 0 <= i < |groups| && Labels(groups)[i] == SkillLabel(s);
      assert s in Filter(shown, LabelIs(SkillLabel, groups[i].0));
    }
  }

  // ----------------------------------------------------------- about page

  /** The context of the about page. */
  datatype AboutContext = AboutContext(
    profile: Option<Profile>,
    skillsByCategory: seq<(string, seq<Skill>)>,
    expertiseAreas: seq<ExpertiseArea>,
    projectCount: nat,
    clientCount: nat,
    settings: SiteSettings)

  /** `AboutView.get_context_data`: every skill of the first profile grouped
      by category, its expertise areas, and its project and client counts
      (zero without a profile). */
  method About(st: Store) returns (ctx: AboutContext, after: Store)
    ensures ctx.profile == FirstProfile(st)
    ensures ctx.expertiseAreas == AboutExpertise(st, ctx.profile)
    ensures forall i, j :: 0 <= i < j < |ctx.skillsByCategory| ==> ctx.skillsByCategory[i].0 != ctx.skillsByCategory[j].0
    ensures forall i :: 0 <= i < |ctx.skillsByCategory| ==>
              ctx.skillsByCategory[i].1 != [] &&
              ctx.skillsByCategory[i].1 == Filter(ShownSkills(st, ctx.profile, false), LabelIs(SkillLabel, ctx.skillsByCategory[i].0))
    ensures forall s :: s in ShownSkills(st, ctx.profile, false) ==> SkillLabel(s) in Labels(ctx.skillsByCategory)
    ensures forall i, j :: 0 <= i < j < |ctx.skillsByCategory| ==>
              FirstWith(ShownSkills(st, ctx.profile, false), SkillLabel, ctx.skillsByCategory[i].0) <
              FirstWith(ShownSkills(st, ctx.profile, false), SkillLabel, ctx.skillsByCategory[j].0)
    ensures ctx.clientCount <= ctx.projectCount
    ensures ctx.profile.None? ==> ctx.projectCount == 0 && ctx.clientCount == 0 && ctx.skillsByCategory == []
    ensures ctx.profile.Some? ==> ctx.projectCount == ProjectCount(st, ctx.profile.value.id) &&
                                  ctx.clientCount == |Clients(st, ctx.profile.value.id)|
    ensures ctx.settings == LoadSettings(st).settings && after == LoadSettings(st).store
  {
    var profile := FirstProfile(st);
    var groups := SkillsByCategory(st, profile, false);
    var projects, clients := 0, 0;
    if profile.Some? {
      projects := ProjectCount(st, profile.value.id);
      clients := ClientCount(st, profile.value.id);
    }
    var loaded := LoadSettings(st);
    ctx := AboutContext(profile, groups, AboutExpertise(st, profile), projects, clients, loaded.settings);
    after := loaded.store;
  }

  // ------------------------------------------------------ single-row gets

  /** Exactly the `i`-th row passes `f`. */
  ghost predicate OnlyMatch<T>(rows: seq<T>, f: T -> bool, i: nat) {
    i < |rows| && f(rows[i]) && forall j :: 0 <= j < |rows| && f(rows[j]) ==> j == i
  }

  /** `queryset.get()`: the position of the one row that passes `f`;
      NotFound when none does, MultipleFound when several do. */
  function Get<T(!new)>(rows: seq<T>, f: T -> bool): (r: Result<nat>)
    ensures r.Ok? ==> OnlyMatch(rows, f, r.value)
    ensures r == Err(NotFound) <==> forall i :: 0 <= i < |rows| ==> !f(rows[i])
    ensures r == Err(MultipleFound) <==> exists i, j :: 0 <= i < j < |rows| && f(rows[i]) && f(rows[j])
    ensures r.Ok? || r == Err(NotFound) || r == Err(MultipleFound)
  {
    match FindFrom(rows, f, 0)
    case None => Err(NotFound)
    case Some(i) =>
      match FindFrom(rows, f, i + 1)
      case None => Ok(i)
      case Some(_) => Err(MultipleFound)
  }

  /** A row that alone passes the filter is what `get()` returns. */
  lemma GetOnly<T(!new)>(rows: seq<T>, f: T -> bool, i: nat)
    requires OnlyMatch(rows, f, i)
    ensures Get(rows, f) == Ok(i)
  {
  }

  /** Under a unique column, a lookup on that column never finds two rows. */
  lemma GetUniqueColumn<T(!new), C>(rows: seq<T>, f: T -> bool, col: T -> C, c: C)
    requires UniqueBy(rows, col)
    requires forall x :: f(x) ==> col(x) == c
    ensures Get(rows, f) != Err(MultipleFound)
  {
    forall i, j | 0 <= i < j < |rows| ensures !(f(rows[i]) && f(rows[j])) {
      UniqueByAt(rows, col, i, j);
    }
  }

  // ------------------------------------------------ project list and detail

  /** The context of the project list. */
  datatype ProjectListContext = ProjectListContext(
    projects: seq<Project>,
    profile: Option<Profile>,
    categories: seq<CategoryCount>,
    counts: ProjectCounts,
    allTags: seq<string>,
    settings: SiteSettings)

  /** `ProjectListView`: page `number` of the listing, refused before
      anything is written when the page does not exist, then the side panels
      and the loaded settings. */
  function ProjectList(st: Store, q: ProjectQuery, number: int): (r: Outcome<ProjectListContext>)
    ensures ProjectPage(st, q, number).None? <==> r.result.Err?
    ensures r.result.Err? ==> r == Outcome(Err(NotFound), st)
    ensures r.result.Ok? ==>
              && r.store == LoadSettings(st).store
              && r.result.value.projects == ProjectPage(st, q, number).value
              && |r.result.value.projects| <= ProjectsPerPage
              && (forall p :: p in r.result.value.projects ==> p in st.projects && ProjectMatches(st, q, p))
              && r.result.value.profile == FirstProfile(st)
              && r.result.value.categories == CategoryCounts(st)
              && r.result.value.counts == CountProjects(st)
              && r.result.value.allTags == ProjectTagList(st)
              && r.result.value.settings == LoadSettings(st).settings
  {
    match ProjectPage(st, q, number)
    case None => Outcome(Err(NotFound), st)
    case Some(page) =>
      var loaded := LoadSettings(st);
      Outcome(Ok(ProjectListContext(page, FirstProfile(st), CategoryCounts(st), CountProjects(st),
                                    ProjectTagList(st), loaded.settings)), loaded.store)
  }

  function PublishedWithSlug(slug: string): (f: Project -> bool)
    ensures forall p :: f(p) <==> p.isPublished && p.slug == slug
  {
    (p: Project) => p.isPublished && p.slug == slug
  }

  /** The context of a project's page. */
  datatype ProjectContext = ProjectContext(
    project: Project,
    related: seq<Project>,
    profile: Option<Profile>,
    settings: SiteSettings)

  /** `ProjectDetailView`: the published project with the slug and up to
      three related ones; an unknown or unpublished slug is NotFound and
      writes nothing. */
  function ProjectDetail(st: Store, slug: string): (r: Outcome<ProjectContext>)
    ensures r.result == Err(NotFound) <==> forall p :: p in st.projects ==> !(p.isPublished && p.slug == slug)
    ensures r.result.Err? ==> r.store == st
    ensures r.result.Ok? ==>
              && r.result.value.project in st.projects
              && r.result.value.project.isPublished && r.result.value.project.slug == slug
              && r.result.value.related == RelatedProjects(st, r.result.value.project)
              && |r.result.value.related| <= RelatedLimit
              && (forall x :: x in r.result.value.related ==>
                    x in st.projects && IsRelated(r.result.value.project, x))
              && r.result.value.profile == FirstProfile(st)
              && r.store == LoadSettings(st).store
              && r.result.value.settings == LoadSettings(st).settings
  {
    match Get(st.projects, PublishedWithSlug(slug))
    case Err(e) =>
      assert e == NotFound ==> forall p :: p in st.projects ==> !(p.isPublished && p.slug == slug) by {
        if e == NotFound {
          forall p | p in st.projects ensures !(p.isPublished && p.slug == slug) {
            var i :| 0 <= i < |st.projects| && st.projects[i] == p;
          }
        }
      }
      Outcome(Err(e), st)
    case Ok(i) =>
      var p := st.projects[i];
      var loaded := LoadSettings(st);
      Outcome(Ok(ProjectContext(p, RelatedProjects(st, p), FirstProfile(st), loaded.settings)), loaded.store)
  }

  /** In a valid store a project page is found or NotFound, never ambiguous. */
  lemma ProjectDetailNeverAmbiguous(st: Store, slug: string)
    requires Valid(st)
    ensures ProjectDetail(st, slug).result != Err(MultipleFound)
  {
    GetUniqueColumn(st.projects, PublishedWithSlug(slug), ProjectSlug, slug);
  }

  // ------------------------------------------------------------------ blog

  /** The context of the blog list. */
  datatype BlogListContext = BlogListContext(
    posts: seq<BlogPost>,
    profile: Option<Profile>,
    categories: seq<string>,
    allTags: seq<string>,
    settings: SiteSettings)

  /** `BlogListView`: the page is cut before the settings are loaded, so a
      page that does not exist is NotFound and writes nothing; otherwise the
      settings are loaded (and created), and a disabled blog is NotFound. */
  function BlogList(st: Store, now: int, q: BlogQuery, number: int): (r: Outcome<BlogListContext>)
    ensures BlogPage(st, now, q, number).None? ==> r == Outcome(Err(NotFound), st)
    ensures BlogPage(st, now, q, number).Some? ==> r.store == LoadSettings(st).store
    ensures r.result.Ok? <==> BlogPage(st, now, q, number).Some? && LoadSettings(st).settings.enableBlog
    ensures r.result.Err? ==> r.result.error == NotFound
    ensures r.result.Ok? ==>
              && r.result.value.posts == BlogPage(st, now, q, number).value
              && |r.result.value.posts| <= PostsPerPage
              && (forall b :: b in r.result.value.posts ==> b in st.posts && PostMatches(now, q, b))
              && r.result.value.profile == FirstProfile(st)
              && r.result.value.categories == PostCategoryList(st, now)
              && r.result.value.allTags == PostTagList(st, now)
              && r.result.value.settings == LoadSettings(st).settings
  {
    match BlogPage(st, now, q, number)
    case None => Outcome(Err(NotFound), st)
    case Some(page) =>
      var loaded := LoadSettings(st);
      if !loaded.settings.enableBlog then Outcome(Err(NotFound), loaded.store)
      else
        Outcome(Ok(BlogListContext(page, FirstProfile(st), PostCategoryList(st, now), PostTagList(st, now),
                                   loaded.settings)), loaded.store)
  }

  function LiveWithSlug(now: int, slug: string): (f: BlogPost -> bool)
    ensures forall b :: f(b) <==> IsLive(now, b) && b.slug == slug
  {
    (b: BlogPost) => IsLive(now, b) && b.slug == slug
  }

  /** The stored post at `i` with one more view: `save(update_fields=['view_count'])`
      writes that column of that row alone. */
  function CountView(st: Store, i: nat): (r: Store)
    requires i < |st.posts|
    ensures |r.posts| == |st.posts|
    ensures r.posts[i].viewCount == st.posts[i].viewCount + 1
    ensures r.posts[i].(viewCount := st.posts[i].viewCount) == st.posts[i]
    ensures forall j :: 0 <= j < |st.posts| && j != i ==> r.posts[j] == st.posts[j]
    ensures r.(posts := st.posts) == st
  {
    st.(posts := st.posts[i := st.posts[i].(viewCount := st.posts[i].viewCount + 1)])
  }

  /** The context of a post's page. */
  datatype PostContext = PostContext(post: BlogPost, profile: Option<Profile>, settings: SiteSettings)

  /** `BlogDetailView`: `get_object` finds the live post with the slug and
      counts the view, and only then does `get_context_data` load the
      settings and refuse a disabled blog. */
  function BlogDetail(st: Store, now: int, slug: string): (r: Outcome<PostContext>)
    ensures Get(st.posts, LiveWithSlug(now, slug)).Err? ==>
              r == Outcome(Err(Get(st.posts, LiveWithSlug(now, slug)).error), st)
    ensures Get(st.posts, LiveWithSlug(now, slug)).Ok? ==>
              var i := Get(st.posts, LiveWithSlug(now, slug)).value;
              var counted := CountView(st, i);
              && r.store == LoadSettings(counted).store
              && (r.result.Ok? <==> LoadSettings(counted).settings.enableBlog)
              && (r.result.Err? ==> r.result.error == NotFound)
              && (r.result.Ok? ==> r.result.value.post == counted.posts[i])
              && (r.result.Ok? ==> r.result.value.profile == FirstProfile(st))
              && (r.result.Ok? ==> r.result.value.settings == LoadSettings(counted).settings)
  {
    match Get(st.posts, LiveWithSlug(now, slug))
    case Err(e) => Outcome(Err(e), st)
    case Ok(i) =>
      var counted := CountView(st, i);
      var loaded := LoadSettings(counted);
      if !loaded.settings.enableBlog then Outcome(Err(NotFound), loaded.store)
      else Outcome(Ok(PostContext(counted.posts[i], FirstProfile(counted), loaded.settings)), loaded.store)
  }

  /** A disabled blog refuses every list page and every post. */
  lemma DisabledBlogRefuses(st: Store, now: int, q: BlogQuery, number: int, slug: string)
    requires !LoadSettings(st).settings.enableBlog
    ensures BlogList(st, now, q, number).result == Err(NotFound)
    ensures BlogDetail(st, now, slug).result.Err?
  {
    match Get(st.posts, LiveWithSlug(now, slug))
    case Err(_) =>
    case Ok(i) =>
      var counted := CountView(st, i);
      assert counted.settings == st.settings;
  }

  /** The view is counted before the gate: a live post asked for on a
      disabled blog is refused, and its view count has still gone up. */
  lemma CountedThenRefused(st: Store, now: int, slug: string, i: nat)
    requires OnlyMatch(st.posts, LiveWithSlug(now, slug), i)
    requires !LoadSettings(st).settings.enableBlog
    ensures BlogDetail(st, now, slug).result == Err(NotFound)
    ensures BlogDetail(st, now, slug).store.posts[i].viewCount == st.posts[i].viewCount + 1
  {
    GetOnly(st.posts, LiveWithSlug(now, slug), i);
    assert CountView(st, i).settings == st.settings;
  }

  /** The store after one request for a post. */
  function AfterVisit(st: Store, now: int, slug: string): Store {
    BlogDetail(st, now, slug).store
  }

  /** The store after `n` requests for the same post. */
  function Visits(st: Store, now: int, slug: string, n: nat): Store {
    Repeat((s: Store) => AfterVisit(s, now, slug), st, n)
  }

  /** `step` applied `n` times. */
  function Repeat(step: Store -> Store, st: Store, n: nat): Store
    decreases n
  {
    if n == 0 then st else Repeat(step, step(st), n - 1)
  }

  /** `t` is `s` with one view more counted on post `i`, which is still the
      only post `f` selects. */
  ghost predicate Bumped(s: Store, t: Store, f: BlogPost -> bool, i: nat) {
    && |t.posts| == |s.posts|
    && i < |s.posts|
    && t.posts[i].viewCount == s.posts[i].viewCount + 1
    && (forall j :: 0 <= j < |s.posts| && j != i ==> t.posts[j] == s.posts[j])
    && OnlyMatch(t.posts, f, i)
  }

  /** One request for a live post counts one view of it, touches no other
      post, and leaves it the one live post with the slug. */
  lemma OneVisit(st: Store, now: int, slug: string, i: nat)
    requires OnlyMatch(st.posts, LiveWithSlug(now, slug), i)
    ensures Bumped(st, AfterVisit(st, now, slug), LiveWithSlug(now, slug), i)
  {
    GetOnly(st.posts, LiveWithSlug(now, slug), i);
    var next := AfterVisit(st, now, slug);
    var counted := CountView(st, i);
    assert next.posts == counted.posts;
    assert LiveWithSlug(now, slug)(next.posts[i]) by {
      assert next.posts[i].(viewCount := st.posts[i].viewCount) == st.posts[i];
    }
  }

  /** Repeating a step that counts one view on the selected post counts `n`. */
  lemma {:induction false} RepeatBumps(step: Store -> Store, f: BlogPost -> bool, st: Store, n: nat, i: nat)
    requires OnlyMatch(st.posts, f, i)
    requires forall s: Store {:trigger step(s)} :: OnlyMatch(s.posts, f, i) ==> Bumped(s, step(s), f, i)
    ensures |Repeat(step, st, n).posts| == |st.posts|
    ensures Repeat(step, st, n).posts[i].viewCount == st.posts[i].viewCount + n
    ensures forall j :: 0 <= j < |st.posts| && j != i ==> Repeat(step, st, n).posts[j] == st.posts[j]
    decreases n
  {
    if n > 0 {
      var next := step(st);
      assert Bumped(st, next, f, i);
      RepeatBumps(step, f, next, n - 1, i);
    }
  }

  /** `n` requests for a live post raise its view count by exactly `n`,
      whether the blog is enabled or not, and touch no other post. */
  lemma VisitsCount(st: Store, now: int, slug: string, n: nat, i: nat)
    requires OnlyMatch(st.posts, LiveWithSlug(now, slug), i)
    ensures |Visits(st, now, slug, n).posts| == |st.posts|
    ensures Visits(st, now, slug, n).posts[i].viewCount == st.posts[i].viewCount + n
    ensures forall j :: 0 <= j < |st.posts| && j != i ==> Visits(st, now, slug, n).posts[j] == st.posts[j]
  {
    var step := (s: Store) => AfterVisit(s, now, slug);
    forall s: Store | OnlyMatch(s.posts, LiveWithSlug(now, slug), i)
      ensures Bumped(s, step(s), LiveWithSlug(now, slug), i)
    {
      OneVisit(s, now, slug, i);
    }
    RepeatBumps(step, LiveWithSlug(now, slug), st, n, i);
  }
}
