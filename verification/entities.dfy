/** The content schema of the portfolio: the choice fields with their stored
    codes and display labels, one record type per table, the in-memory store
    holding one sequence of rows per table, and the integrity rules the
    database keeps for that store (primary keys, UNIQUE columns, foreign keys). */
module Entities {
  import opened Common
  import opened Ordering

  // ---------------------------------------------------------------- choices

  datatype Platform =
    | GitHub | LinkedIn | Twitter | EmailLink | Website | StackOverflow | Medium | DevTo | OtherPlatform
  {
    function Label(): string {
      match this
      case GitHub => "GitHub"
      case LinkedIn => "LinkedIn"
      case Twitter => "Twitter"
      case EmailLink => "Email"
      case Website => "Website"
      case StackOverflow => "Stack Overflow"
      case Medium => "Medium"
      case DevTo => "Dev.to"
      case OtherPlatform => "Other"
    }
  }

  datatype SkillCategory = Backend | Frontend | Database | DevOps | Tools | OtherSkill {
    /** The stored code. */
    function Code(): string {
      match this
      case Backend => "backend"
      case Frontend => "frontend"
      case Database => "database"
      case DevOps => "devops"
      case Tools => "tools"
      case OtherSkill => "other"
    }

    /** `get_category_display()`. */
    function Label(): string {
      match this
      case Backend => "Backend"
      case Frontend => "Frontend"
      case Database => "Database"
      case DevOps => "DevOps"
      case Tools => "Tools"
      case OtherSkill => "Other"
    }

    /** Position of the stored code in string order, the order an
        `ORDER BY category` sorts skills in. */
    function Rank(): int {
      match this
      case Backend => 0
      case Database => 1
      case DevOps => 2
      case Frontend => 3
      case OtherSkill => 4
      case Tools => 5
    }
  }

  datatype MetricType = Uptime | ResponseTime | ApiCalls | ProjectsMetric | ClientsMetric | CustomMetric

  datatype ProjectStatus = Completed | InProgress | Planned | ArchivedProject {
    function Code(): string {
      match this
      case Completed => "completed"
      case InProgress => "in_progress"
      case Planned => "planned"
      case ArchivedProject => "archived"
    }
  }

  /** `status in dict(Project.STATUS_CHOICES).keys()`, answered with the
      status the code names. */
  function ProjectStatusFromCode(code: string): (r: Option<ProjectStatus>)
  {
    if code == "completed" then Some(Completed)
    else if code == "in_progress" then Some(InProgress)
    else if code == "planned" then Some(Planned)
    else if code == "archived" then Some(ArchivedProject)
    else None
  }

  datatype PostStatus = Draft | Published | ArchivedPost

  datatype MessageStatus = New | Read | Replied | ArchivedMessage

  // ---------------------------------------------------------------- records

  /** Every record carries its primary key `id`; 0 marks a record that has
      not been saved yet (the database hands out keys from 1). Foreign keys
      are the `id` of the referenced row. */

  datatype Profile = Profile(id: nat, fullName: string, title: string, email: string,
                             yearsExperience: nat, isAvailable: bool)

  datatype SocialLink = SocialLink(id: nat, profile: nat, platform: Platform, url: string,
                                   username: string, order: nat, isActive: bool)

  datatype Skill = Skill(id: nat, profile: nat, name: string, category: SkillCategory,
                         proficiency: nat, order: nat, isFeatured: bool)

  datatype ExpertiseArea = ExpertiseArea(id: nat, profile: nat, title: string,
                                         technologies: string, order: nat)

  datatype Statistic = Statistic(id: nat, profile: nat, metric: MetricType, heading: string,
                                 value: string, order: nat, isActive: bool)

  datatype Category = Category(id: nat, name: string, slug: string, order: nat)

  datatype Project = Project(id: nat, profile: nat, title: string, slug: string,
                             shortDescription: string, category: Option<nat>, tags: string,
                             status: ProjectStatus, client: string, githubUrl: string,
                             isFeatured: bool, isPublished: bool, order: nat, createdAt: int)

  datatype ProjectImage = ProjectImage(id: nat, project: nat, caption: string, order: nat)

  datatype Technology = Technology(id: nat, project: nat, name: string, version: string, order: nat)

  datatype Feature = Feature(id: nat, project: nat, title: string, order: nat)

  datatype TechnicalDetail = TechnicalDetail(id: nat, project: nat, title: string, order: nat)

  datatype Testimonial = Testimonial(id: nat, profile: nat, clientName: string, rating: nat,
                                     project: Option<nat>, isFeatured: bool, isPublished: bool,
                                     order: nat, createdAt: int)

  datatype BlogPost = BlogPost(id: nat, profile: nat, title: string, slug: string,
                               excerpt: string, content: string, category: string, tags: string,
                               status: PostStatus, publishedAt: Option<int>, viewCount: nat,
                               createdAt: int)

  datatype ContactMessage = ContactMessage(id: nat, name: string, email: string, subject: string,
                                           message: string, status: MessageStatus,
                                           ipAddress: Option<string>, userAgent: string,
                                           isRead: bool, createdAt: int)

  datatype SiteSettings = SiteSettings(id: nat, siteName: string, siteTagline: string,
                                       footerText: string, copyrightText: string,
                                       contactEmail: string, notificationEmail: string,
                                       enableBlog: bool, enableContactForm: bool,
                                       enableTestimonials: bool, maintenanceMode: bool)

  /** The database: one sequence of rows per table. */
  datatype Store = Store(
    profiles: seq<Profile>,
    socialLinks: seq<SocialLink>,
    skills: seq<Skill>,
    expertiseAreas: seq<ExpertiseArea>,
    statistics: seq<Statistic>,
    categories: seq<Category>,
    projects: seq<Project>,
    images: seq<ProjectImage>,
    technologies: seq<Technology>,
    features: seq<Feature>,
    technicalDetails: seq<TechnicalDetail>,
    testimonials: seq<Testimonial>,
    posts: seq<BlogPost>,
    messages: seq<ContactMessage>,
    settings: seq<SiteSettings>)

  // ------------------------------------------------------------ key columns

  function ProfileId(x: Profile): nat { x.id }
  function SocialLinkId(x: SocialLink): nat { x.id }
  function SkillId(x: Skill): nat { x.id }
  function ExpertiseAreaId(x: ExpertiseArea): nat { x.id }
  function StatisticId(x: Statistic): nat { x.id }
  function CategoryId(x: Category): nat { x.id }
  function ProjectId(x: Project): nat { x.id }
  function ImageId(x: ProjectImage): nat { x.id }
  function TechnologyId(x: Technology): nat { x.id }
  function FeatureId(x: Feature): nat { x.id }
  function TechnicalDetailId(x: TechnicalDetail): nat { x.id }
  function TestimonialId(x: Testimonial): nat { x.id }
  function PostId(x: BlogPost): nat { x.id }
  function MessageId(x: ContactMessage): nat { x.id }
  function SettingsId(x: SiteSettings): nat { x.id }

  function CategoryName(x: Category): string { x.name }
  function CategorySlug(x: Category): string { x.slug }
  function ProjectSlug(x: Project): string { x.slug }
  function PostSlug(x: BlogPost): string { x.slug }
  /** `unique_together = ['profile', 'name']` on Skill. */
  function SkillOwnerAndName(x: Skill): (nat, string) { (x.profile, x.name) }
  /** `unique_together = ['project', 'name']` on ProjectTechnology. */
  function TechnologyOwnerAndName(x: Technology): (nat, string) { (x.project, x.name) }

  function SocialLinkProfile(x: SocialLink): nat { x.profile }
  function SkillProfile(x: Skill): nat { x.profile }
  function ExpertiseAreaProfile(x: ExpertiseArea): nat { x.profile }
  function StatisticProfile(x: Statistic): nat { x.profile }
  function ProjectProfile(x: Project): nat { x.profile }
  function TestimonialProfile(x: Testimonial): nat { x.profile }
  function PostProfile(x: BlogPost): nat { x.profile }

  function ImageProject(x: ProjectImage): nat { x.project }
  function TechnologyProject(x: Technology): nat { x.project }
  function FeatureProject(x: Feature): nat { x.project }
  function TechnicalDetailProject(x: TechnicalDetail): nat { x.project }

  /** The key the next inserted row receives: one past the largest key in use. */
  function NextId<T>(rows: seq<T>, id: T -> nat): (r: nat)
    ensures r > 0
    ensures forall x :: x in rows ==> id(x) < r
  {
    if |rows| == 0 then 1
    else
      var rest := NextId(rows[1..], id);
      assert forall x :: x in rows ==> x == rows[0] || x in rows[1..] by {
        assert rows == [rows[0]] + rows[1..];
      }
      if id(rows[0]) < rest then rest else id(rows[0]) + 1
  }

  // ------------------------------------------------------------- integrity

  /** Every table's primary key is unique. */
  ghost predicate KeysUnique(st: Store) {
    && UniqueBy(st.profiles, ProfileId)
    && UniqueBy(st.socialLinks, SocialLinkId)
    && UniqueBy(st.skills, SkillId)
    && UniqueBy(st.expertiseAreas, ExpertiseAreaId)
    && UniqueBy(st.statistics, StatisticId)
    && UniqueBy(st.categories, CategoryId)
    && UniqueBy(st.projects, ProjectId)
    && UniqueBy(st.images, ImageId)
    && UniqueBy(st.technologies, TechnologyId)
    && UniqueBy(st.features, FeatureId)
    && UniqueBy(st.technicalDetails, TechnicalDetailId)
    && UniqueBy(st.testimonials, TestimonialId)
    && UniqueBy(st.posts, PostId)
    && UniqueBy(st.messages, MessageId)
    && UniqueBy(st.settings, SettingsId)
  }

  /** The UNIQUE columns and `unique_together` pairs of the schema. */
  ghost predicate ColumnsUnique(st: Store) {
    && UniqueBy(st.categories, CategoryName)
    && UniqueBy(st.categories, CategorySlug)
    && UniqueBy(st.projects, ProjectSlug)
    && UniqueBy(st.posts, PostSlug)
    && UniqueBy(st.skills, SkillOwnerAndName)
    && UniqueBy(st.technologies, TechnologyOwnerAndName)
  }

  /** Every profile-scoped row belongs to a stored profile. */
  ghost predicate ProfileRefsIntact(st: Store) {
    var ids := KeySet(st.profiles, ProfileId);
    && (forall x :: x in st.socialLinks ==> x.profile in ids)
    && (forall x :: x in st.skills ==> x.profile in ids)
    && (forall x :: x in st.expertiseAreas ==> x.profile in ids)
    && (forall x :: x in st.statistics ==> x.profile in ids)
    && (forall x :: x in st.projects ==> x.profile in ids)
    && (forall x :: x in st.testimonials ==> x.profile in ids)
    && (forall x :: x in st.posts ==> x.profile in ids)
  }

  /** Every project's category, when set, is a stored category. */
  ghost predicate CategoryRefsIntact(st: Store) {
    forall p :: p in st.projects && p.category.Some? ==> p.category.value in KeySet(st.categories, CategoryId)
  }

  /** Every project-scoped row, and every testimonial's project when set,
      refers to a stored project. */
  ghost predicate ProjectRefsIntact(st: Store) {
    var ids := KeySet(st.projects, ProjectId);
    && (forall x :: x in st.images ==> x.project in ids)
    && (forall x :: x in st.technologies ==> x.project in ids)
    && (forall x :: x in st.features ==> x.project in ids)
    && (forall x :: x in st.technicalDetails ==> x.project in ids)
    && (forall x :: x in st.testimonials && x.project.Some? ==> x.project.value in ids)
  }

  /** `SiteSettings.save` pins every settings row to this key. */
  const SettingsKey: nat := 1

  /** Every settings row sits at the singleton key. */
  ghost predicate SettingsKeyed(st: Store) {
    forall s :: s in st.settings ==> s.id == SettingsKey
  }

  /** What the database guarantees about every reachable store. */
  ghost predicate Valid(st: Store) {
    && KeysUnique(st)
    && ColumnsUnique(st)
    && ProfileRefsIntact(st)
    && CategoryRefsIntact(st)
    && ProjectRefsIntact(st)
    && SettingsKeyed(st)
  }

  /** The empty database satisfies every integrity rule. */
  function EmptyStore(): (st: Store)
    ensures Valid(st)
  {
    Store([], [], [], [], [], [], [], [], [], [], [], [], [], [], [])
  }

  /** With a unique key, keyed settings rows leave room for one row at most. */
  lemma SettingsAtMostOne(st: Store)
    requires UniqueBy(st.settings, SettingsId) && SettingsKeyed(st)
    ensures |st.settings| <= 1
  {
    if |st.settings| > 1 {
      UniqueByAt(st.settings, SettingsId, 0, 1);
      assert false;
    }
  }

  // ---------------------------------------------------------- choice facts

  /** A status code parses back to its status, and only the four stored codes
      parse at all. */
  lemma StatusCodeRoundTrip(s: ProjectStatus, code: string)
    ensures ProjectStatusFromCode(s.Code()) == Some(s)
    ensures ProjectStatusFromCode(code).Some? ==> ProjectStatusFromCode(code).value.Code() == code
  {
  }

  /** Ordering skills by `Rank` is ordering them by their stored category
      code, as `ORDER BY category` does. */
  lemma CategoryRankFollowsCode(a: SkillCategory, b: SkillCategory)
    ensures a.Rank() < b.Rank() <==> StrLt(a.Code(), b.Code())
  {
    var ca := Codes(a.Code());
    var cb := Codes(b.Code());
    if a != b {
      if a.Code()[0] != b.Code()[0] {
        assert KeyLe(ca, cb) <==> ca[0] < cb[0];
      } else {
        assert {a, b} == {Database, DevOps};
        assert KeyLe(ca, cb) == KeyLe(ca[1..], cb[1..]);
        assert ca[1..][0] == ca[1] && cb[1..][0] == cb[1];
        assert KeyLe(ca[1..], cb[1..]) <==> ca[1] < cb[1];
      }
    }
  }
}
