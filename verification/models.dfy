/** The entity layer: what `save()` and `delete()` do to the store. Saves
    fill empty slugs, hand out keys and refuse writes that break a UNIQUE or
    FOREIGN KEY constraint; the settings row is a singleton; deletes cascade
    or null out references as each foreign key declares; field validators
    accept or refuse a value without changing it. */
module Models {
  import opened Common
  import opened Entities
  import opened Tables

  // ------------------------------------------------------------------ slugs

  /** The slug `save()` stores: the one the row carries, or the slugified
      title (name, for a category) when it carries none. `slugify` belongs to
      the framework and may itself return "". */
  function FillSlug(slug: string, source: string, slugify: string -> string): string {
    if slug == "" then slugify(source) else slug
  }

  /** Whether a row with key `id` has been stored before, which decides
      between UPDATE and INSERT and whether `created_at` is stamped. */
  predicate Stored<T>(rows: seq<T>, key: T -> nat, id: nat) {
    id != 0 && Lookup(rows, key, id).Some?
  }

  // --------------------------------------------------------------- projects

  /** The project row `save()` writes. */
  function ProjectRow(st: Store, p: Project, now: int, slugify: string -> string): (r: Project)
    ensures r == p.(id := r.id, slug := r.slug, createdAt := r.createdAt)
    ensures r.slug == FillSlug(p.slug, p.title, slugify)
    ensures p.id != 0 ==> r.id == p.id
    ensures p.id == 0 ==> r.id > 0 && r.id !in KeySet(st.projects, ProjectId)
    ensures r.createdAt == if Stored(st.projects, ProjectId, p.id) then p.createdAt else now
  {
    var slug := FillSlug(p.slug, p.title, slugify);
    if p.id == 0 then
      var id := NextId(st.projects, ProjectId);
      assert id !in KeySet(st.projects, ProjectId);
      p.(id := id, slug := slug, createdAt := now)
    else if Stored(st.projects, ProjectId, p.id) then p.(slug := slug)
    else p.(slug := slug, createdAt := now)
  }

  /** `Project.save()`: fill the slug, then write the row, unless the
      profile or the category it names does not exist or another project
      already uses the slug. */
  function SaveProject(st: Store, p: Project, now: int, slugify: string -> string): (r: Result<Store>)
    ensures r.Ok? <==>
              && p.profile in KeySet(st.profiles, ProfileId)
              && (p.category.Some? ==> p.category.value in KeySet(st.categories, CategoryId))
              && !Clashes(st.projects, ProjectRow(st, p, now, slugify), ProjectId, ProjectSlug)
    ensures r.Err? ==> r.error.Integrity?
    ensures r.Ok? ==> r.value == st.(projects := Upsert(st.projects, ProjectRow(st, p, now, slugify), ProjectId))
  {
    var row := ProjectRow(st, p, now, slugify);
    if Lookup(st.profiles, ProfileId, p.profile).None? then Err(Integrity("profile"))
    else if p.category.Some? && Lookup(st.categories, CategoryId, p.category.value).None? then Err(Integrity("category"))
    else if Clashes(st.projects, row, ProjectId, ProjectSlug) then Err(Integrity("slug"))
    else Ok(st.(projects := Upsert(st.projects, row, ProjectId)))
  }

  /** A successful project save keeps every integrity rule, and the saved
      row is then what a lookup by its key returns. */
  lemma SaveProjectKeepsValid(st: Store, p: Project, now: int, slugify: string -> string)
    requires Valid(st)
    requires SaveProject(st, p, now, slugify).Ok?
    ensures Valid(SaveProject(st, p, now, slugify).value)
    ensures var row := ProjectRow(st, p, now, slugify);
            Lookup(SaveProject(st, p, now, slugify).value.projects, ProjectId, row.id) == Some(row)
  {
    var row := ProjectRow(st, p, now, slugify);
    var rows := Upsert(st.projects, row, ProjectId);
    UpsertKeepsUnique(st.projects, row, ProjectId, ProjectId);
    UpsertKeepsUnique(st.projects, row, ProjectId, ProjectSlug);
    UpsertKeySet(st.projects, row, ProjectId);
    LookupFindsUnique(rows, ProjectId, row);
  }

  /** Editing the title of a stored project whose slug is set and saving it
      again always succeeds and leaves the slug as it was. */
  lemma TitleEditKeepsSlug(st: Store, p: Project, title: string, now: int, slugify: string -> string)
    requires Valid(st) && p in st.projects && p.id != 0 && p.slug != ""
    ensures SaveProject(st, p.(title := title), now, slugify).Ok?
    ensures Lookup(SaveProject(st, p.(title := title), now, slugify).value.projects, ProjectId, p.id)
              == Some(p.(title := title))
  {
    var q := p.(title := title);
    LookupFindsUnique(st.projects, ProjectId, p);
    assert ProjectRow(st, q, now, slugify) == q;
    if Clashes(st.projects, q, ProjectId, ProjectSlug) {
      var y :| y in st.projects && y.id != q.id && y.slug == q.slug;
      UniqueKeyDeterminesRow(st.projects, ProjectSlug, y, p);
      assert false;
    }
    SaveProjectKeepsValid(st, q, now, slugify);
  }

  /** A stored project whose slug is still empty (because `slugify` gave "")
      has it computed afresh from the title on its next successful save. */
  lemma EmptySlugRecomputed(st: Store, p: Project, title: string, now: int, slugify: string -> string)
    requires Valid(st) && p in st.projects && p.id != 0 && p.slug == ""
    requires SaveProject(st, p.(title := title), now, slugify).Ok?
    ensures Lookup(SaveProject(st, p.(title := title), now, slugify).value.projects, ProjectId, p.id)
              == Some(p.(title := title, slug := slugify(title)))
  {
    LookupFindsUnique(st.projects, ProjectId, p);
    SaveProjectKeepsValid(st, p.(title := title), now, slugify);
  }

  // ------------------------------------------------------------- categories

  /** The category row `save()` writes. */
  function CategoryRow(st: Store, c: Category, slugify: string -> string): (r: Category)
    ensures r == c.(id := r.id, slug := r.slug)
    ensures r.slug == FillSlug(c.slug, c.name, slugify)
    ensures c.id != 0 ==> r.id == c.id
    ensures c.id == 0 ==> r.id > 0 && r.id !in KeySet(st.categories, CategoryId)
  {
    var slug := FillSlug(c.slug, c.name, slugify);
    if c.id == 0 then
      var id := NextId(st.categories, CategoryId);
      assert id !in KeySet(st.categories, CategoryId);
      c.(id := id, slug := slug)
    else c.(slug := slug)
  }

  /** `ProjectCategory.save()`: fill the slug from the name, then write the
      row unless another category already has the name or the slug. */
  function SaveCategory(st: Store, c: Category, slugify: string -> string): (r: Result<Store>)
    ensures r.Ok? <==>
              && !Clashes(st.categories, CategoryRow(st, c, slugify), CategoryId, CategoryName)
              && !Clashes(st.categories, CategoryRow(st, c, slugify), CategoryId, CategorySlug)
    ensures r.Err? ==> r.error.Integrity?
    ensures r.Ok? ==> r.value == st.(categories := Upsert(st.categories, CategoryRow(st, c, slugify), CategoryId))
  {
    var row := CategoryRow(st, c, slugify);
    if Clashes(st.categories, row, CategoryId, CategoryName) then Err(Integrity("name"))
    else if Clashes(st.categories, row, CategoryId, CategorySlug) then Err(Integrity("slug"))
    else Ok(st.(categories := Upsert(st.categories, row, CategoryId)))
  }

  lemma SaveCategoryKeepsValid(st: Store, c: Category, slugify: string -> string)
    requires Valid(st)
    requires SaveCategory(st, c, slugify).Ok?
    ensures Valid(SaveCategory(st, c, slugify).value)
    ensures var row := CategoryRow(st, c, slugify);
            row.slug == (if c.slug == "" then slugify(c.name) else c.slug) &&
            Lookup(SaveCategory(st, c, slugify).value.categories, CategoryId, row.id) == Some(row)
  {
    var row := CategoryRow(st, c, slugify);
    var rows := Upsert(st.categories, row, CategoryId);
    UpsertKeepsUnique(st.categories, row, CategoryId, CategoryId);
    UpsertKeepsUnique(st.categories, row, CategoryId, CategoryName);
    UpsertKeepsUnique(st.categories, row, CategoryId, CategorySlug);
    UpsertKeySet(st.categories, row, CategoryId);
    LookupFindsUnique(rows, CategoryId, row);
  }

  // ------------------------------------------------------------------ posts

  /** The blog post row `save()` writes. */
  function PostRow(st: Store, b: BlogPost, now: int, slugify: string -> string): (r: BlogPost)
    ensures r == b.(id := r.id, slug := r.slug, createdAt := r.createdAt)
    ensures r.slug == FillSlug(b.slug, b.title, slugify)
    ensures b.id != 0 ==> r.id == b.id
    ensures b.id == 0 ==> r.id > 0 && r.id !in KeySet(st.posts, PostId)
    ensures r.createdAt == if Stored(st.posts, PostId, b.id) then b.createdAt else now
  {
    var slug := FillSlug(b.slug, b.title, slugify);
    if b.id == 0 then
      var id := NextId(st.posts, PostId);
      assert id !in KeySet(st.posts, PostId);
      b.(id := id, slug := slug, createdAt := now)
    else if Stored(st.posts, PostId, b.id) then b.(slug := slug)
    else b.(slug := slug, createdAt := now)
  }

  /** `BlogPost.save()`: fill the slug from the title, then write the row
      unless its profile does not exist or another post has the slug. */
  function SavePost(st: Store, b: BlogPost, now: int, slugify: string -> string): (r: Result<Store>)
    ensures r.Ok? <==>
              && b.profile in KeySet(st.profiles, ProfileId)
              && !Clashes(st.posts, PostRow(st, b, now, slugify), PostId, PostSlug)
    ensures r.Err? ==> r.error.Integrity?
    ensures r.Ok? ==> r.value == st.(posts := Upsert(st.posts, PostRow(st, b, now, slugify), PostId))
  {
    var row := PostRow(st, b, now, slugify);
    if Lookup(st.profiles, ProfileId, b.profile).None? then Err(Integrity("profile"))
    else if Clashes(st.posts, row, PostId, PostSlug) then Err(Integrity("slug"))
    else Ok(st.(posts := Upsert(st.posts, row, PostId)))
  }

  lemma SavePostKeepsValid(st: Store, b: BlogPost, now: int, slugify: string -> string)
    requires Valid(st)
    requires SavePost(st, b, now, slugify).Ok?
    ensures Valid(SavePost(st, b, now, slugify).value)
    ensures var row := PostRow(st, b, now, slugify);
            row.slug == (if b.slug == "" then slugify(b.title) else b.slug) &&
            Lookup(SavePost(st, b, now, slugify).value.posts, PostId, row.id) == Some(row)
  {
    var row := PostRow(st, b, now, slugify);
    var rows := Upsert(st.posts, row, PostId);
    UpsertKeepsUnique(st.posts, row, PostId, PostId);
    UpsertKeepsUnique(st.posts, row, PostId, PostSlug);
    LookupFindsUnique(rows, PostId, row);
  }

  // ---------------------------------------------- skills and technologies

  /** `Skill.save()`: write the row unless its profile does not exist or
      the profile already has a skill of that name. */
  function SaveSkill(st: Store, s: Skill): (r: Result<Store>)
    ensures r.Ok? <==>
              var row := if s.id == 0 then s.(id := NextId(st.skills, SkillId)) else s;
              s.profile in KeySet(st.profiles, ProfileId) && !Clashes(st.skills, row, SkillId, SkillOwnerAndName)
    ensures r.Err? ==> r.error.Integrity?
    ensures r.Ok? ==>
              var row := if s.id == 0 then s.(id := NextId(st.skills, SkillId)) else s;
              r.value == st.(skills := Upsert(st.skills, row, SkillId))
  {
    var row := if s.id == 0 then s.(id := NextId(st.skills, SkillId)) else s;
    if Lookup(st.profiles, ProfileId, s.profile).None? then Err(Integrity("profile"))
    else if Clashes(st.skills, row, SkillId, SkillOwnerAndName) then Err(Integrity("unique_together"))
    else
      Ok(st.(skills := Upsert(st.skills, row, SkillId)))
  }

  /** A successful skill save keeps every integrity rule. */
  lemma SaveSkillKeepsValid(st: Store, s: Skill)
    requires Valid(st)
    requires SaveSkill(st, s).Ok?
    ensures Valid(SaveSkill(st, s).value)
  {
    var row := if s.id == 0 then s.(id := NextId(st.skills, SkillId)) else s;
    UpsertKeepsUnique(st.skills, row, SkillId, SkillId);
    UpsertKeepsUnique(st.skills, row, SkillId, SkillOwnerAndName);
    UpsertKeySet(st.skills, row, SkillId);
  }

  /** `ProjectTechnology.save()`: write the row unless its project does not
      exist or the project already lists a technology of that name. */
  function SaveTechnology(st: Store, t: Technology): (r: Result<Store>)
    ensures r.Ok? <==>
              var row := if t.id == 0 then t.(id := NextId(st.technologies, TechnologyId)) else t;
              t.project in KeySet(st.projects, ProjectId) && !Clashes(st.technologies, row, TechnologyId, TechnologyOwnerAndName)
    ensures r.Err? ==> r.error.Integrity?
    ensures r.Ok? ==>
              var row := if t.id == 0 then t.(id := NextId(st.technologies, TechnologyId)) else t;
              r.value == st.(technologies := Upsert(st.technologies, row, TechnologyId))
  {
    var row := if t.id == 0 then t.(id := NextId(st.technologies, TechnologyId)) else t;
    if Lookup(st.projects, ProjectId, t.project).None? then Err(Integrity("project"))
    else if Clashes(st.technologies, row, TechnologyId, TechnologyOwnerAndName) then Err(Integrity("unique_together"))
    else
      Ok(st.(technologies := Upsert(st.technologies, row, TechnologyId)))
  }

  /** A successful technology save keeps every integrity rule. */
  lemma SaveTechnologyKeepsValid(st: Store, t: Technology)
    requires Valid(st)
    requires SaveTechnology(st, t).Ok?
    ensures Valid(SaveTechnology(st, t).value)
  {
    var row := if t.id == 0 then t.(id := NextId(st.technologies, TechnologyId)) else t;
    UpsertKeepsUnique(st.technologies, row, TechnologyId, TechnologyId);
    UpsertKeepsUnique(st.technologies, row, TechnologyId, TechnologyOwnerAndName);
    UpsertKeySet(st.technologies, row, TechnologyId);
  }

  // ------------------------------------------------------------- validators

  /** The validators of `Skill.proficiency`: a value is accepted as it is
      when it lies in [0, 100] (the lower bound is the type's), refused
      otherwise; it is never clamped. */
  function CleanSkill(s: Skill): (r: Result<Skill>)
    ensures r.Ok? <==> 0 <= s.proficiency <= 100
    ensures r.Ok? ==> r.value == s
    ensures r.Err? ==> r.error == Invalid(["proficiency"])
  {
    if s.proficiency > 100 then Err(Invalid(["proficiency"])) else Ok(s)
  }

  /** The validators of `Testimonial.rating`: accepted unchanged when in
      [1, 5], refused otherwise. */
  function CleanTestimonial(t: Testimonial): (r: Result<Testimonial>)
    ensures r.Ok? <==> 1 <= t.rating <= 5
    ensures r.Ok? ==> r.value == t
    ensures r.Err? ==> r.error == Invalid(["rating"])
  {
    if t.rating < 1 || t.rating > 5 then Err(Invalid(["rating"])) else Ok(t)
  }

  // --------------------------------------------------------------- settings

  /** A settings row with every field at its declared default. */
  function DefaultSettings(): SiteSettings {
    SiteSettings(SettingsKey, "Portfolio", "", "", "", "", "", false, true, true, false)
  }

  /** `SiteSettings.save()`: whatever key the row carries, it is written
      under the singleton key. */
  function SaveSettings(st: Store, s: SiteSettings): (r: Store)
    ensures r == st.(settings := r.settings)
    ensures SettingsKeyed(st) ==> SettingsKeyed(r)
    ensures Valid(st) ==> Valid(r) && r.settings == [s.(id := SettingsKey)]
  {
    SingletonSave(st, s.(id := SettingsKey));
    st.(settings := Upsert(st.settings, s.(id := SettingsKey), SettingsId))
  }

  /** Saving a keyed row into a valid store leaves that row alone. */
  lemma SingletonSave(st: Store, row: SiteSettings)
    requires row.id == SettingsKey
    ensures var r := st.(settings := Upsert(st.settings, row, SettingsId));
            Valid(st) ==> Valid(r) && r.settings == [row]
  {
    var rows := Upsert(st.settings, row, SettingsId);
    if Valid(st) {
      SettingsAtMostOne(st);
      UpsertKeepsUnique(st.settings, row, SettingsId, SettingsId);
      if |st.settings| == 1 {
        assert st.settings[0] in st.settings;
        assert SettingsKey in KeySet(st.settings, SettingsId);
        assert rows[0] == row;
      }
    }
  }

  /** A run of settings saves, oldest first. */
  function SaveAllSettings(st: Store, xs: seq<SiteSettings>): Store
    decreases |xs|
  {
    if |xs| == 0 then st else SaveAllSettings(SaveSettings(st, xs[0]), xs[1..])
  }

  /** After any run of saves the settings table holds the singleton key
      only. */
  lemma {:induction false} SavesKeepKeyed(st: Store, xs: seq<SiteSettings>)
    requires SettingsKeyed(st)
    ensures SettingsKeyed(SaveAllSettings(st, xs))
    decreases |xs|
  {
    if |xs| > 0 {
      SavesKeepKeyed(SaveSettings(st, xs[0]), xs[1..]);
    }
  }

  /** From a valid store, a non-empty run of saves leaves exactly one
      settings row: the last one saved, under the singleton key. */
  lemma {:induction false} SavesKeepSingleton(st: Store, xs: seq<SiteSettings>)
    requires Valid(st) && |xs| > 0
    ensures Valid(SaveAllSettings(st, xs))
    ensures SaveAllSettings(st, xs).settings == [xs[|xs| - 1].(id := SettingsKey)]
    decreases |xs|
  {
    var next := SaveSettings(st, xs[0]);
    if |xs| > 1 {
      SavesKeepSingleton(next, xs[1..]);
      assert xs[1..][|xs[1..]| - 1] == xs[|xs| - 1];
    }
  }

  /** `SiteSettings.delete()` does nothing. */
  function DeleteSettings(st: Store, s: SiteSettings): Store {
    st
  }

  /** What `SiteSettings.load()` hands back, with the store it leaves. */
  datatype Loaded = Loaded(settings: SiteSettings, store: Store)

  /** `SiteSettings.load()`: get the row under the singleton key, creating
      it with every field at its default when there is none. */
  function LoadSettings(st: Store): (r: Loaded)
    ensures r.settings.id == SettingsKey && r.settings in r.store.settings
    ensures SettingsKey in KeySet(st.settings, SettingsId) ==> r.settings in st.settings && r.store == st
    ensures SettingsKey !in KeySet(st.settings, SettingsId) ==>
              r.settings == DefaultSettings() && r.store == st.(settings := st.settings + [DefaultSettings()])
  {
    match Lookup(st.settings, SettingsId, SettingsKey)
    case Some(s) => Loaded(s, st)
    case None => Loaded(DefaultSettings(), st.(settings := st.settings + [DefaultSettings()]))
  }

  /** Loading the settings keeps a valid store valid: the row it may create
      takes the singleton key, which no row held. */
  lemma LoadKeepsValid(st: Store)
    requires Valid(st)
    ensures Valid(LoadSettings(st).store)
  {
    if SettingsKey !in KeySet(st.settings, SettingsId) {
      AppendKeepsUnique(st.settings, DefaultSettings(), SettingsId);
    }
  }

  /** The flags of a freshly created settings row. */
  lemma LoadDefaults(st: Store)
    requires SettingsKey !in KeySet(st.settings, SettingsId)
    ensures var s := LoadSettings(st).settings;
            s.siteName == "Portfolio" && !s.enableBlog && s.enableContactForm &&
            s.enableTestimonials && !s.maintenanceMode
  {
  }

  /** Loading twice returns the same row, and the second load leaves the
      store as the first one left it. */
  lemma {:induction false} LoadTwice(st: Store)
    ensures LoadSettings(LoadSettings(st).store) == LoadSettings(st)
  {
    if SettingsKey !in KeySet(st.settings, SettingsId) {
      var rows := st.settings + [DefaultSettings()];
      LookupAppendMissing(st.settings, SettingsId, DefaultSettings());
    }
  }

  /** A key a table lacks is found in the row appended under it. */
  lemma {:induction false} LookupAppendMissing<T, K>(rows: seq<T>, key: T -> K, x: T)
    requires key(x) !in KeySet(rows, key)
    ensures Lookup(rows + [x], key, key(x)) == Some(x)
    decreases |rows|
  {
    if |rows| == 0 {
    } else {
      assert rows[0] in rows;
      assert (rows + [x])[1..] == rows[1..] + [x];
      assert KeySet(rows[1..], key) <= KeySet(rows, key) by {
        forall k | k in KeySet(rows[1..], key) ensures k in KeySet(rows, key) {
          var y :| y in rows[1..] && key(y) == k;
          assert y in rows;
        }
      }
      LookupAppendMissing(rows[1..], key, x);
    }
  }

  /** Saving, then deleting, then loading gives back the saved row under the
      singleton key: delete cannot remove the settings. */
  lemma SettingsSurviveDelete(st: Store, s: SiteSettings, t: SiteSettings)
    requires Valid(st)
    ensures var saved := SaveSettings(st, s);
            LoadSettings(DeleteSettings(saved, t)) == Loaded(s.(id := SettingsKey), saved)
  {
    var saved := SaveSettings(st, s);
    assert saved.settings[0] in saved.settings;
    assert SettingsKey in KeySet(saved.settings, SettingsId);
  }

  // ---------------------------------------------------------------- deletes

  /** The SET_NULL rule of `Project.category`. */
  function DetachCategory(c: nat): Project -> Project {
    (p: Project) => if p.category == Some(c) then p.(category := None) else p
  }

  /** `ProjectCategory.delete()`: the category goes, and `category` becomes
      null on exactly the projects that named it. */
  function DeleteCategory(st: Store, c: nat): (r: Store)
    ensures forall x :: x in r.categories <==> x in st.categories && x.id != c
    ensures |r.projects| == |st.projects|
    ensures forall i :: 0 <= i < |st.projects| ==>
              r.projects[i] == if st.projects[i].category == Some(c) then st.projects[i].(category := None) else st.projects[i]
    ensures r == st.(categories := r.categories, projects := r.projects)
  {
    st.(categories := Filter(st.categories, Outside({c}, CategoryId)),
        projects := Map(st.projects, DetachCategory(c)))
  }

  lemma DeleteCategoryKeepsValid(st: Store, c: nat)
    requires Valid(st)
    ensures Valid(DeleteCategory(st, c))
  {
    DeleteCategoryKeepsUnique(st, c);
    DeleteCategoryKeepsRefs(st, c);
  }

  lemma DeleteCategoryKeepsUnique(st: Store, c: nat)
    requires KeysUnique(st) && ColumnsUnique(st)
    ensures KeysUnique(DeleteCategory(st, c)) && ColumnsUnique(DeleteCategory(st, c))
  {
    FilterKeepsUnique(st.categories, CategoryId, Outside({c}, CategoryId));
    FilterKeepsUnique(st.categories, CategoryName, Outside({c}, CategoryId));
    FilterKeepsUnique(st.categories, CategorySlug, Outside({c}, CategoryId));
    MapKeepsUnique(st.projects, DetachCategory(c), ProjectId);
    MapKeepsUnique(st.projects, DetachCategory(c), ProjectSlug);
  }

  lemma DeleteCategoryKeepsRefs(st: Store, c: nat)
    requires ProfileRefsIntact(st) && CategoryRefsIntact(st) && ProjectRefsIntact(st) && SettingsKeyed(st)
    ensures ProfileRefsIntact(DeleteCategory(st, c)) && CategoryRefsIntact(DeleteCategory(st, c))
    ensures ProjectRefsIntact(DeleteCategory(st, c)) && SettingsKeyed(DeleteCategory(st, c))
  {
    var r := DeleteCategory(st, c);
    MapKeepsKeySet(st.projects, DetachCategory(c), ProjectId);
    forall p | p in r.projects ensures p.profile in KeySet(r.profiles, ProfileId)
      && (p.category.Some? ==> p.category.value in KeySet(r.categories, CategoryId))
    {
      var i :| 0 <= i < |r.projects| && r.projects[i] == p;
      assert st.projects[i] in st.projects;
      if p.category.Some? {
        KeySurvivesDelete(st.categories, CategoryId, {c}, p.category.value);
      }
    }
  }

  /** The SET_NULL rule of `Testimonial.project`. */
  function DetachProjects(ids: set<nat>): Testimonial -> Testimonial {
    (t: Testimonial) => if t.project.Some? && t.project.value in ids then t.(project := None) else t
  }

  /** Deleting the projects whose keys are in `ids`: their images,
      technologies, features and technical details go with them (CASCADE),
      and testimonials that named one of them keep their row with `project`
      null (SET_NULL). */
  function DeleteProjects(st: Store, ids: set<nat>): (r: Store)
    ensures forall x :: x in r.projects <==> x in st.projects && x.id !in ids
    ensures forall x :: x in r.images <==> x in st.images && x.project !in ids
    ensures forall x :: x in r.technologies <==> x in st.technologies && x.project !in ids
    ensures forall x :: x in r.features <==> x in st.features && x.project !in ids
    ensures forall x :: x in r.technicalDetails <==> x in st.technicalDetails && x.project !in ids
    ensures |r.testimonials| == |st.testimonials|
    ensures forall i :: 0 <= i < |st.testimonials| ==>
              r.testimonials[i] ==
                if st.testimonials[i].project.Some? && st.testimonials[i].project.value in ids
                then st.testimonials[i].(project := None) else st.testimonials[i]
    ensures r == st.(projects := r.projects, images := r.images, technologies := r.technologies,
                     features := r.features, technicalDetails := r.technicalDetails,
                     testimonials := r.testimonials)
  {
    st.(projects := Filter(st.projects, Outside(ids, ProjectId)),
        images := Filter(st.images, Outside(ids, ImageProject)),
        technologies := Filter(st.technologies, Outside(ids, TechnologyProject)),
        features := Filter(st.features, Outside(ids, FeatureProject)),
        technicalDetails := Filter(st.technicalDetails, Outside(ids, TechnicalDetailProject)),
        testimonials := Map(st.testimonials, DetachProjects(ids)))
  }

  /** `Project.delete()`. */
  function DeleteProject(st: Store, id: nat): Store {
    DeleteProjects(st, {id})
  }

  lemma DeleteProjectsKeepsKeys(st: Store, ids: set<nat>)
    requires KeysUnique(st) && ColumnsUnique(st)
    ensures KeysUnique(DeleteProjects(st, ids)) && ColumnsUnique(DeleteProjects(st, ids))
  {
    FilterKeepsUnique(st.projects, ProjectId, Outside(ids, ProjectId));
    FilterKeepsUnique(st.projects, ProjectSlug, Outside(ids, ProjectId));
    FilterKeepsUnique(st.images, ImageId, Outside(ids, ImageProject));
    FilterKeepsUnique(st.technologies, TechnologyId, Outside(ids, TechnologyProject));
    FilterKeepsUnique(st.technologies, TechnologyOwnerAndName, Outside(ids, TechnologyProject));
    FilterKeepsUnique(st.features, FeatureId, Outside(ids, FeatureProject));
    FilterKeepsUnique(st.technicalDetails, TechnicalDetailId, Outside(ids, TechnicalDetailProject));
    MapKeepsUnique(st.testimonials, DetachProjects(ids), TestimonialId);
  }

  lemma DeleteProjectsKeepsRefs(st: Store, ids: set<nat>)
    requires ProfileRefsIntact(st) && CategoryRefsIntact(st) && ProjectRefsIntact(st)
    ensures var r := DeleteProjects(st, ids);
            ProfileRefsIntact(r) && CategoryRefsIntact(r) && ProjectRefsIntact(r)
  {
    var r := DeleteProjects(st, ids);
    forall t | t in r.testimonials
      ensures t.profile in KeySet(r.profiles, ProfileId)
      ensures t.project.Some? ==> t.project.value in KeySet(r.projects, ProjectId)
    {
      var i :| 0 <= i < |r.testimonials| && r.testimonials[i] == t;
      assert st.testimonials[i] in st.testimonials;
      if t.project.Some? {
        KeySurvivesDelete(st.projects, ProjectId, ids, t.project.value);
      }
    }
    forall x | x in r.images ensures x.project in KeySet(r.projects, ProjectId) {
      KeySurvivesDelete(st.projects, ProjectId, ids, x.project);
    }
    forall x | x in r.technologies ensures x.project in KeySet(r.projects, ProjectId) {
      KeySurvivesDelete(st.projects, ProjectId, ids, x.project);
    }
    forall x | x in r.features ensures x.project in KeySet(r.projects, ProjectId) {
      KeySurvivesDelete(st.projects, ProjectId, ids, x.project);
    }
    forall x | x in r.technicalDetails ensures x.project in KeySet(r.projects, ProjectId) {
      KeySurvivesDelete(st.projects, ProjectId, ids, x.project);
    }
  }

  /** Deleting projects keeps every integrity rule: nothing is left pointing
      at a deleted project. */
  lemma DeleteProjectsKeepsValid(st: Store, ids: set<nat>)
    requires Valid(st)
    ensures Valid(DeleteProjects(st, ids))
  {
    DeleteProjectsKeepsKeys(st, ids);
    DeleteProjectsKeepsRefs(st, ids);
  }

  /** The keys of the projects a profile owns. */
  function ProjectsOf(st: Store, profile: nat): (r: set<nat>)
    ensures forall p :: p in st.projects && p.profile == profile ==> p.id in r
    ensures forall k :: k in r ==> exists p :: p in st.projects && p.profile == profile && p.id == k
  {
    set p | p in st.projects && p.profile == profile :: p.id
  }

  /** Under unique project keys, a stored project's key is among the
      profile's exactly when the project is the profile's. */
  lemma ProjectsOfOwned(st: Store, profile: nat, x: Project)
    requires UniqueBy(st.projects, ProjectId) && x in st.projects
    ensures x.id in ProjectsOf(st, profile) <==> x.profile == profile
  {
    if x.id in ProjectsOf(st, profile) {
      var p :| p in st.projects && p.profile == profile && p.id == x.id;
      UniqueKeyDeterminesRow(st.projects, ProjectId, p, x);
    }
  }

  /** The rows that name `profile` directly, removed together with the
      profile row itself; the project tables are left to `DeleteProjects`. */
  function RemoveOwned(s: Store, profile: nat): (r: Store)
    ensures forall x :: x in r.profiles <==> x in s.profiles && x.id != profile
    ensures forall x :: x in r.skills <==> x in s.skills && x.profile != profile
    ensures forall x :: x in r.socialLinks <==> x in s.socialLinks && x.profile != profile
    ensures forall x :: x in r.expertiseAreas <==> x in s.expertiseAreas && x.profile != profile
    ensures forall x :: x in r.statistics <==> x in s.statistics && x.profile != profile
    ensures forall x :: x in r.testimonials <==> x in s.testimonials && x.profile != profile
    ensures forall x :: x in r.posts <==> x in s.posts && x.profile != profile
    ensures r == s.(profiles := r.profiles, skills := r.skills, socialLinks := r.socialLinks,
                    expertiseAreas := r.expertiseAreas, statistics := r.statistics,
                    testimonials := r.testimonials, posts := r.posts)
  {
    var only := {profile};
    s.(profiles := Filter(s.profiles, Outside(only, ProfileId)),
       socialLinks := Filter(s.socialLinks, Outside(only, SocialLinkProfile)),
       skills := Filter(s.skills, Outside(only, SkillProfile)),
       expertiseAreas := Filter(s.expertiseAreas, Outside(only, ExpertiseAreaProfile)),
       statistics := Filter(s.statistics, Outside(only, StatisticProfile)),
       testimonials := Filter(s.testimonials, Outside(only, TestimonialProfile)),
       posts := Filter(s.posts, Outside(only, PostProfile)))
  }

  /** `Profile.delete()`: every row the profile owns goes (CASCADE), the
      owned projects taking their images, technologies, features and
      technical details with them; the testimonials of other profiles stay,
      with `project` null where it named a deleted project (SET_NULL);
      categories, messages and settings are untouched. */
  function DeleteProfile(st: Store, profile: nat): (r: Store)
    ensures forall x :: x in r.profiles <==> x in st.profiles && x.id != profile
    ensures forall x :: x in r.skills <==> x in st.skills && x.profile != profile
    ensures forall x :: x in r.socialLinks <==> x in st.socialLinks && x.profile != profile
    ensures forall x :: x in r.expertiseAreas <==> x in st.expertiseAreas && x.profile != profile
    ensures forall x :: x in r.statistics <==> x in st.statistics && x.profile != profile
    ensures forall x :: x in r.posts <==> x in st.posts && x.profile != profile
    ensures forall x :: x in r.projects <==> x in st.projects && x.id !in ProjectsOf(st, profile)
    ensures forall x :: x in r.images <==> x in st.images && x.project !in ProjectsOf(st, profile)
    ensures forall x :: x in r.technologies <==> x in st.technologies && x.project !in ProjectsOf(st, profile)
    ensures forall x :: x in r.features <==> x in st.features && x.project !in ProjectsOf(st, profile)
    ensures forall x :: x in r.technicalDetails <==>
              x in st.technicalDetails && x.project !in ProjectsOf(st, profile)
    ensures forall t :: t in st.testimonials && t.profile != profile ==>
              DetachProjects(ProjectsOf(st, profile))(t) in r.testimonials
    ensures forall x :: x in r.testimonials ==>
              x.profile != profile && exists t :: t in st.testimonials && x == DetachProjects(ProjectsOf(st, profile))(t)
    ensures r.categories == st.categories && r.messages == st.messages && r.settings == st.settings
  {
    var ids := ProjectsOf(st, profile);
    var s := DeleteProjects(st, ids);
    DetachedTestimonials(st, ids);
    RemoveOwned(s, profile)
  }

  /** The testimonials left by deleting projects are the stored ones with
      the SET_NULL rule applied, each keeping its profile. */
  lemma DetachedTestimonials(st: Store, ids: set<nat>)
    ensures forall t :: t in st.testimonials ==> DetachProjects(ids)(t) in DeleteProjects(st, ids).testimonials
    ensures forall x :: x in DeleteProjects(st, ids).testimonials ==>
              exists t :: t in st.testimonials && x == DetachProjects(ids)(t)
    ensures forall t :: DetachProjects(ids)(t).profile == t.profile
  {
    var r := DeleteProjects(st, ids);
    forall t | t in st.testimonials ensures DetachProjects(ids)(t) in r.testimonials {
      var i :| 0 <= i < |st.testimonials| && st.testimonials[i] == t;
      assert r.testimonials[i] == DetachProjects(ids)(t);
    }
    forall x | x in r.testimonials ensures exists t :: t in st.testimonials && x == DetachProjects(ids)(t) {
      var i :| 0 <= i < |r.testimonials| && r.testimonials[i] == x;
      assert st.testimonials[i] in st.testimonials;
    }
  }

  /** In a store with unique project keys, the projects a profile deletion
      keeps are exactly the other profiles' projects. */
  lemma DeleteProfileProjects(st: Store, profile: nat)
    requires UniqueBy(st.projects, ProjectId)
    ensures forall x :: x in DeleteProfile(st, profile).projects <==> x in st.projects && x.profile != profile
  {
    forall x | x in st.projects {
      ProjectsOfOwned(st, profile, x);
    }
  }

  lemma RemoveOwnedKeepsUnique(s: Store, profile: nat)
    requires KeysUnique(s) && ColumnsUnique(s)
    ensures KeysUnique(RemoveOwned(s, profile)) && ColumnsUnique(RemoveOwned(s, profile))
  {
    var only := {profile};
    FilterKeepsUnique(s.profiles, ProfileId, Outside(only, ProfileId));
    FilterKeepsUnique(s.socialLinks, SocialLinkId, Outside(only, SocialLinkProfile));
    FilterKeepsUnique(s.skills, SkillId, Outside(only, SkillProfile));
    FilterKeepsUnique(s.skills, SkillOwnerAndName, Outside(only, SkillProfile));
    FilterKeepsUnique(s.expertiseAreas, ExpertiseAreaId, Outside(only, ExpertiseAreaProfile));
    FilterKeepsUnique(s.statistics, StatisticId, Outside(only, StatisticProfile));
    FilterKeepsUnique(s.testimonials, TestimonialId, Outside(only, TestimonialProfile));
    FilterKeepsUnique(s.posts, PostId, Outside(only, PostProfile));
    FilterKeepsUnique(s.posts, PostSlug, Outside(only, PostProfile));
  }

  /** Deleting a profile keeps every integrity rule. */
  lemma DeleteProfileKeepsValid(st: Store, profile: nat)
    requires Valid(st)
    ensures Valid(DeleteProfile(st, profile))
  {
    var ids := ProjectsOf(st, profile);
    var s := DeleteProjects(st, ids);
    DeleteProjectsKeepsValid(st, ids);
    RemoveOwnedKeepsUnique(s, profile);
    forall x | x in s.projects ensures x.profile != profile {
      ProjectsOfOwned(st, profile, x);
    }
    RemoveOwnedKeepsRefs(s, profile);
  }

  /** Once no project belongs to the profile, removing its own rows leaves
      no reference dangling. */
  lemma RemoveOwnedKeepsRefs(s: Store, profile: nat)
    requires ProfileRefsIntact(s) && CategoryRefsIntact(s) && ProjectRefsIntact(s) && SettingsKeyed(s)
    requires forall x :: x in s.projects ==> x.profile != profile
    ensures ProfileRefsIntact(RemoveOwned(s, profile)) && CategoryRefsIntact(RemoveOwned(s, profile))
    ensures ProjectRefsIntact(RemoveOwned(s, profile)) && SettingsKeyed(RemoveOwned(s, profile))
  {
    var r := RemoveOwned(s, profile);
    forall k | k in KeySet(s.profiles, ProfileId) && k != profile
      ensures k in KeySet(r.profiles, ProfileId)
    {
      KeySurvivesDelete(s.profiles, ProfileId, {profile}, k);
    }
    assert ProfileRefsIntact(r);
  }
}
