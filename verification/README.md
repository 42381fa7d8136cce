# Portfolio site — a Dafny model of its entity and view rules

This project models the core of a Django portfolio site: the entity rules of
`main/models.py` and the query and page-assembly rules of `main/views.py`.
The database is a `Store` value with one sequence of rows per table. Every
write (a `save()`, a delete with its CASCADE and SET_NULL rules, a settings
`load()` that creates the row, a view count, a contact message) is a
function from a store to a new store. Every page is a function, or a method
where a loop groups skills, from a store and the request parameters to the
page context and the store the request leaves behind.

Modules, one per file:

- `Common`: Option/Result/Error, plus the sequence combinators the model is written with (`Filter`, `Map`, `Take`, `FindFrom`, `Count`, `Dedup`).
- `Text`: Python's `str.strip`, `str.split`, `','.join`, the comma-list parse, and ASCII case folding for `icontains`/`iexact`.
- `Ordering`: multi-column `ORDER BY` keys, insertion sort, ordered and sliced selections, sorted duplicate-free string lists (`sorted(set(...))`), and Django's pagination.
- `Entities`: the choices, the fifteen tables, and the `Valid` store invariant. `Valid` covers primary keys, UNIQUE columns, `unique_together`, and foreign keys.
- `Tables`: lookup by key, and `save()` as update-or-insert.
- `Models`: slug filling, the foreign-key and uniqueness checks of a save, the validators, the `SiteSettings` singleton, and deletion.
- `Queries`: the project and blog listings, tag and category lists, related projects, counts, and the grouping loop.
- `Pages`: the home, about, project list/detail and blog list/detail pages. This includes `get()`'s NotFound/MultipleFound, the blog gate and the view count.
- `Contact`: client IP, user agent, the contact form's cleaning, and `contact_submit`.

Parameters stand in for what the model cannot see:

- `now` replaces `timezone.now()`.
- `slugify` is an uninterpreted `string -> string`.
- `isEmail` stands for the email syntax validator.
- `delivered` is the fate of the notification mail.

An absent query parameter and an empty one are both `""`, because the views test them for truthiness.

Where the code and its description differ, the model follows the code:

- Validators (proficiency 0..100, rating 1..5) check and refuse; they do not clamp.
- A `status` filter naming no status is ignored, rather than producing an empty list.
- The view count is raised before the `enable_blog` gate, so a disabled blog still counts the view and then answers NotFound.
- `contact_submit` never consults `enable_contact_form`.
- The blog's category list is not free of duplicates. `values_list('category', flat=True).distinct()` runs under the post model's default ordering (`-published_at`, `-created_at`, main/models.py:433-434), and Django adds ordering columns to a DISTINCT select. So a category is listed once per distinct publication and creation time among its live posts.
- The contact form's fields are Django `CharField`s, which refuse a NUL character in a non-empty value.

## Model

| member | source | states |
|---|---|---|
| Text.ParseList | main/models.py:262-264 | every parsed tag is non-empty, stripped of surrounding whitespace and free of commas |
| Text.ParseListPiece | main/models.py:262-264 | a text without commas parses to its stripped self, or to nothing when it is blank |
| Text.ParseListMembers | main/models.py:262-264 | a string is a parsed tag exactly when it is non-empty and is the strip of some comma-separated piece |
| Text.ParseListIdempotent | main/models.py:262-264 | joining a parsed list with commas and parsing again gives back the same list |
| Text.ParseListConcat | main/models.py:143-145 | parsing two texts joined by a comma parses each and concatenates the results (the same rule serves `get_technologies_list`) |
| Text.JoinSplit | main/models.py:264 | splitting at commas and joining the pieces with commas gives back the text |
| Text.ParseJoinOfItems | main/models.py:262-264 | a list of non-empty, stripped, comma-free items comes back unchanged from joining with commas and parsing |
| Text.StripTrims | main/models.py:264 | a stripped tag is the run of the piece left once whitespace alone is cut from both ends |
| Text.StripBlank | main/models.py:264 | a piece strips to nothing exactly when it is all whitespace |
| Text.StripIdempotent | main/models.py:264 | stripping a stripped string changes nothing |
| Ordering.SortBy | main/views.py:148 | an ORDER BY yields a rearrangement of its input, in ascending key order |
| Ordering.SortedSet | main/views.py:181 | `sorted(set(...))` is strictly ascending and holds exactly the input strings |
| Ordering.Page | main/views.py:117 | a page exists exactly for numbers 1..number of pages; page `n` holds the elements at positions `(n-1)*size` onward, at most `size` of them |
| Ordering.PageCovers | main/views.py:117 | the element at position `i` of a listing is on page `i / size + 1`, at offset `i % size`, and that page exists |
| Ordering.Select | main/views.py:148 | a filtered, ordered queryset holds exactly the rows that pass the filter, each as often as stored, in ascending key order |
| Ordering.Top | main/views.py:55-91 | a sliced, ordered selection `[:n]` is the prefix of the ordered selection of length min(`n`, number of selected rows), so it is sorted by the key and holds all selected rows when fewer than `n` exist |
| Ordering.TopFirst | main/views.py:55-91 | a selected row left out of a slice sorts no earlier than any row shown |
| Entities.CategoryRankFollowsCode | main/models.py:117 | the rank the model sorts skill categories by agrees with the string order of the stored category codes |
| Entities.StatusCodeRoundTrip | main/models.py:200-205 | every project status is recovered from its stored code |
| Entities.SettingsAtMostOne | main/models.py:478-481 | a valid store holds at most one settings row |
| Tables.Upsert | main/models.py:257-260 | `save()` replaces the row with the same key in place, or appends the row when the key is new; rows under other keys stay |
| Tables.UpsertKeySet | main/models.py:257-260 | after a save the table holds its old keys plus the saved row's key |
| Tables.UpsertKeepsUnique | main/models.py:296 | a save keeps a UNIQUE column unique unless a row under another key holds the same value |
| Models.ProjectRow | main/models.py:257-260 | the stored project equals the saved one except the slug, which is `slugify(title)` only when the slug was empty, and the fresh key and creation time of an insert |
| Models.SaveProject | main/models.py:207-221 | a project save succeeds exactly when its profile exists, its category is null or exists, and no project under another key holds its slug; a failure is an integrity error; on success only the projects table changes |
| Models.SaveProjectKeepsValid | main/models.py:257-260 | a successful project save keeps the store valid and stores the row under its key |
| Models.TitleEditKeepsSlug | main/models.py:257-260 | re-saving a stored project with a new title keeps its non-empty slug |
| Models.EmptySlugRecomputed | main/models.py:257-260 | a stored project with an empty slug gets `slugify` of its new title on the next save |
| Models.CategoryRow | main/models.py:192-195 | a category's slug is `slugify(name)` only when empty; every other field is kept |
| Models.SaveCategory | main/models.py:177-195 | a category save succeeds exactly when neither its name nor its slug is held by another category |
| Models.SaveCategoryKeepsValid | main/models.py:192-195 | a successful category save keeps the store valid |
| Models.PostRow | main/models.py:441-444 | a post's slug is `slugify(title)` only when empty; every other field is kept except the key and creation time of an insert |
| Models.SavePost | main/models.py:408-444 | a post save succeeds exactly when its profile exists and no other post holds its slug |
| Models.SavePostKeepsValid | main/models.py:441-444 | a successful post save keeps the store valid |
| Models.SaveSkill | main/models.py:104-120 | a skill save succeeds exactly when its profile exists and no other skill of that profile has its name; on success the skill is written with `save()`'s update-or-insert, under a fresh key when it has none, and only the skills table changes |
| Models.SaveSkillKeepsValid | main/models.py:104-120 | a successful skill save keeps the store valid |
| Models.SaveTechnology | main/models.py:286-296 | a technology save succeeds exactly when its project exists and no other technology of that project has its name; on success the technology is written with `save()`'s update-or-insert, under a fresh key when it has none, and only the technologies table changes |
| Models.SaveTechnologyKeepsValid | main/models.py:286-296 | a successful technology save keeps the store valid |
| Models.CleanSkill | main/models.py:107-110 | a skill passes validation exactly when proficiency is within 0..100, unchanged; otherwise the `proficiency` field is refused |
| Models.CleanTestimonial | main/models.py:378-381 | a testimonial passes exactly when its rating is within 1..5, unchanged; otherwise `rating` is refused |
| Models.SaveSettings | main/models.py:478-481 | saving settings forces key 1; in a valid store the table then holds just that row; nothing else changes |
| Models.SavesKeepKeyed | main/models.py:478-481 | after any sequence of settings saves every settings row has key 1 |
| Models.SavesKeepSingleton | main/models.py:478-481 | after a non-empty sequence of saves on a valid store the table is exactly the last saved row under key 1 |
| Models.LoadSettings | main/models.py:486-489 | `load()` returns the key-1 row, leaving the store alone when it exists and appending the default row otherwise |
| Models.LoadDefaults | main/models.py:449-468 | a created settings row has site name "Portfolio", blog off, contact form and testimonials on, maintenance off |
| Models.LoadTwice | main/models.py:486-489 | a second load returns the same row and leaves the store as the first left it |
| Models.LoadKeepsValid | main/models.py:486-489 | loading the settings keeps a valid store valid |
| Models.SettingsSurviveDelete | main/models.py:483-484 | deleting the settings does nothing: a load after save-then-delete returns the saved row under key 1 |
| Models.DeleteCategory | main/models.py:221 | deleting a category removes exactly it, sets `category` to null on exactly its projects, and changes no other table |
| Models.DeleteCategoryKeepsValid | main/models.py:221 | deleting a category keeps the store valid |
| Models.DeleteProjects | main/models.py:269-384 | deleting projects removes them with their images, technologies, features and technical details, nulls `project` on exactly their testimonials, and changes no other table |
| Models.DeleteProjectsKeepsValid | main/models.py:269-384 | deleting projects keeps every key, uniqueness rule and reference intact |
| Models.DeleteProfile | main/models.py:76-408 | deleting a profile removes exactly it and its links, skills, areas, statistics and posts, and exactly its projects with their images, technologies, features and technical details; its testimonials go, the others stay with `project` nulled where it pointed at a deleted project; categories, messages and settings are kept |
| Models.DeleteProfileProjects | main/models.py:76-408 | with unique project keys, a project survives a profile's deletion exactly when it belongs to another profile |
| Models.DeleteProfileKeepsValid | main/models.py:76-408 | deleting a profile keeps the store valid |
| Queries.FilteredProjects | main/views.py:119-146 | a project survives the filters exactly when it is published and matches every filter given: category slug, tag substring, a valid status code, and search text in title, description or tags (case-insensitive) |
| Queries.ProjectListing | main/views.py:119-148 | the listing holds exactly the matching projects, featured first, then by ascending `order`, then newest first |
| Queries.ProjectListingIsPermutation | main/views.py:119-148 | every matching project appears as often as it is stored, and no other project appears |
| Queries.InvalidStatusIgnored | main/views.py:135-137 | a status that names no status gives the same listing as no status |
| Queries.ProjectPage | main/views.py:117 | page `n` of the project listing exists exactly for numbers 1..number of pages and holds the listing's projects from position `(n-1)*9` on, in listing order, nine of them or the rest |
| Queries.FilteredPosts | main/views.py:379-402 | a post survives exactly when it is published with a publication time not after `now`, and matches category (case-insensitive equality), tag and search (title, excerpt or content) |
| Queries.BlogListing | main/views.py:379-404 | the blog listing holds exactly the matching posts, sorted by publication time descending |
| Queries.BlogListingNewestFirst | main/views.py:404 | of any two listed posts, the earlier one was published no earlier |
| Queries.BlogListingIsPermutation | main/views.py:379-404 | every matching post appears as often as it is stored, and no other post appears |
| Queries.BlogPage | main/views.py:377 | page `n` of the blog listing exists exactly for numbers 1..number of pages and holds the listing's posts from position `(n-1)*10` on, in listing order, ten of them or the rest |
| Queries.AllTags | main/views.py:171-181 | the tag list is strictly sorted and holds exactly the tags parsed from the given texts |
| Queries.ProjectTagList | main/views.py:171-181 | the project tag list is sorted, free of duplicates, and holds exactly the tags of published projects |
| Queries.PostTagList | main/views.py:417-426 | the blog tag list is sorted, free of duplicates, and holds exactly the tags of live posts |
| Queries.PostCategoryList | main/views.py:417-430 | the blog category list is in ascending string order, and a category occurs in it once per distinct (category, published_at, created_at) row among the live posts |
| Queries.PostCategoryMembers | main/views.py:417-421 | a category is listed exactly when some live post carries it |
| Queries.CategoryRepeats | main/views.py:417-421 | two live posts of one category that differ in publication or creation time put that category in the list at least twice |
| Common.Dedup | main/views.py:421 | `.distinct()` keeps each value once and loses none |
| Queries.RelatedProjects | main/views.py:215-220 | at most three related projects: published, not the project, sharing its category or with tags equal to one of its tags; in listing order; no related project left out sorts before one shown; all of them when fewer than three exist |
| Queries.RelatedDistinct | main/views.py:215-220 | related projects are distinct rows and never the project itself |
| Queries.CountProjects | main/views.py:162-169 | the total counts the published projects; completed and in-progress count the published projects with that status, open-source those with a repository link; completed plus in-progress is at most the total |
| Queries.CategoryCounts | main/views.py:157-159 | every category once, in `order`, each with its number of published projects, never above the published total |
| Queries.FirstProfile | main/views.py:154 | `Profile.objects.first()` is the profile with the smallest key, and None exactly when there are none |
| Queries.ClientCount | main/views.py:269-273 | the client count is the number of distinct non-empty clients of the profile's published projects, at most the project count |
| Queries.GroupBy | main/views.py:61-68 | grouping gives distinct labels, each group non-empty and exactly the elements of its label in their original order, every element's label has a group, and groups stand in the order their labels first appear |
| Queries.OpenGroup | main/views.py:65-67 | an element with an unseen label opens a new group at the end and the grouping stays correct |
| Queries.JoinGroup | main/views.py:67-68 | an element with a seen label joins that group at its end and the grouping stays correct |
| Queries.AddedKeepsOrder | main/views.py:64-68 | placing the next element, in a new group or an existing one, keeps the groups in first-appearance order, as a dict keeps insertion order |
| Pages.HomeFeatured | main/views.py:55-58 | the home page's projects are the first min(2, count) of the published featured projects of all profiles in listing order |
| Pages.FeaturedProjectsFirst | main/views.py:55-58 | no published featured project left off the home page sorts before one shown |
| Pages.HomeStatistics | main/views.py:71-74 | the statistics are the first min(4, count) of the profile's active statistics in ascending `order`; none without a profile |
| Pages.FirstStatisticsShown | main/views.py:71-74 | an active statistic of the profile left off the home page has an `order` no lower than any shown |
| Pages.HomeSocialLinks | main/views.py:77-80 | the active links of the profile, each as often as stored, in ascending `order`; none without a profile |
| Pages.AboutExpertise | main/views.py:258-261 | the profile's expertise areas, each as often as stored, in ascending `order`; none without a profile |
| Pages.HomeExpertise | main/views.py:83-85 | the first three of the profile's expertise areas in `order` |
| Pages.HomeTestimonials | main/views.py:88-91 | the testimonials are the first min(3, count) of the profile's published testimonials ordered featured first, then by ascending `order`; none without a profile |
| Pages.FeaturedTestimonialsFirst | main/views.py:88-91 | a testimonial left off the home page is not featured while a shown one is not, and within the same kind its `order` is no lower than any shown |
| Pages.ShownSkills | main/views.py:61-62 | the grouped skills are the profile's skills (featured only on the home page), each as often as stored, in category, order, name order |
| Pages.SkillLabelsDistinct | main/views.py:64 | two skills share a display label exactly when they share a category |
| Pages.SkillsByCategory | main/views.py:59-68 | `skills_by_category` partitions the shown skills by label, preserving order, with the labels in the order they first occur among the shown skills; empty without a profile |
| Pages.GroupsHoldShown | main/views.py:59-68 | every group holds shown skills of its label, and every shown skill is in some group |
| Pages.Home | main/views.py:28-107 | the home page takes the first profile, its grouped featured skills and limited sections, and the featured projects of all profiles; without a profile every profile section is empty; loading the settings is the only write |
| Pages.About | main/views.py:239-285 | the about page groups all the profile's skills and shows its areas, project count and client count, with client count at most project count and both zero without a profile |
| Pages.Get | main/views.py:454-455 | a single-row lookup returns the one matching row, NotFound when none matches, MultipleFound when two do |
| Pages.GetUniqueColumn | main/views.py:454-455 | a lookup on a UNIQUE column never finds two rows |
| Pages.ProjectList | main/views.py:150-189 | a missing page is NotFound and writes nothing; otherwise the context holds that page of the listing, the first profile, the category counts, the project counts, the tag list and the loaded settings |
| Pages.ProjectDetail | main/views.py:198-231 | NotFound exactly when no published project has the slug, and then nothing is written; otherwise that project, its related projects as `RelatedProjects` chooses them, the first profile and the loaded settings |
| Pages.ProjectDetailNeverAmbiguous | main/views.py:198-207 | in a valid store a project page is never ambiguous |
| Pages.BlogList | main/views.py:406-438 | a missing page is NotFound with no write; otherwise the settings are loaded, the page is refused exactly when the blog is disabled, and an answered page holds that page of the blog listing, the first profile, the category list, the tag list and the loaded settings |
| Pages.CountView | main/views.py:457-459 | counting a view raises that post's count by one and changes nothing else |
| Pages.BlogDetail | main/views.py:454-489 | no live post with the slug, or two, fails with no write; otherwise the view is counted, then the settings are loaded, then a disabled blog answers NotFound; an answered page holds the counted post, the first profile and the loaded settings |
| Pages.DisabledBlogRefuses | main/views.py:410-412 | with the blog disabled, the blog list and every post page fail |
| Pages.CountedThenRefused | main/views.py:454-469 | on a disabled blog a live post's page is NotFound, yet its view count went up by one |
| Pages.OneVisit | main/views.py:457-459 | one visit raises the post's count by one, leaves other posts alone, and leaves it the one live post with its slug |
| Pages.VisitsCount | main/views.py:454-461 | `n` visits raise the post's view count by exactly `n` and change no other post |
| Contact.ClientIp | main/views.py:660-667 | with a non-empty X-Forwarded-For header the address is its comma-free prefix up to the first comma; otherwise REMOTE_ADDR |
| Contact.ClientIpFirstHop | main/views.py:664 | the first hop is recorded exactly as written, spaces included |
| Contact.StoredUserAgent | main/views.py:318 | the stored user agent is a prefix of the header of length min(500, its length), and empty without the header |
| Contact.FieldErrors | main/views.py:308-310 | a field is reported exactly when it fails its rule: name required and ≤ 200, email required, ≤ 254 and an address, subject ≤ 300, message required, and no field holding a NUL character |
| Contact.CleanContact | main/views.py:308-310 | the form is valid exactly when every field passes, yielding stripped values free of NUL characters; otherwise Invalid with the failed fields |
| Contact.CleanIdempotent | main/views.py:308-310 | cleaned data cleans to itself |
| Contact.Recipient | main/views.py:324 | the notification goes to `notification_email`, or to `contact_email` when that is empty |
| Contact.MailSubject | main/views.py:327 | the mail subject is the fixed prefix then the message's subject, or "No Subject" when it has none |
| Contact.NewMessage | main/views.py:312-319 | the new message has status new, is unread, was created at `now`, has a fresh key, and holds the cleaned fields, client IP and truncated user agent |
| Contact.SubmitContact | main/views.py:306-368 | a valid form appends exactly one message and then loads the settings, changing nothing else; an invalid form fails and writes nothing |
| Contact.MailCannotRemoveMessage | main/views.py:321-347 | the store is the same whether the mail went out or not, and it holds the new message |
| Contact.SubmitKeepsValid | main/views.py:306-319 | contact intake keeps the store valid |

## Left out

- The Django ORM's performance machinery (`select_related`, `prefetch_related`) has no effect on results and is not modelled.
- SQL leaves rows with equal sort keys in no particular order. The model sorts stably but promises only the stated order.
- `slugify`, email syntax and `timezone.now()` are parameters. `slugify` may return "", and then the next save recomputes the slug.
- Case-insensitive matching folds ASCII letters only. Unicode case folding is not modelled.
- HomeView's bootstrap (main/views.py:40-52) is not modelled, because it is user and authentication plumbing. It creates an auth user and a placeholder profile inside a swallowed exception. The model takes the profile as it finds it.
- Related blog posts (main/views.py:475-481) are not modelled. They pass a raw string to `tags__in`, a framework quirk rather than a rule.
- `send_mail`, flash messages, JSON versus redirect responses, template rendering, the resume download, the JSON API views and the 404/500 handlers are left out as I/O and presentation. The mail appears only as its addressed recipient and subject, and as a delivered flag.
- ContactView (main/views.py:288-303) shows the first profile and the loaded settings. It is covered by `FirstProfile` and `LoadSettings` and has no member of its own.
- The page number arrives as an integer. Parsing the `page` query string, and the `'last'` keyword, are not modelled.
- Pages.BlogList: the view reads the clock twice, once for the listing (main/views.py:382) and once for the category and tag lists (main/views.py:419). The model uses one `now` for both, so it does not cover a post going live between the two reads, which would then be in the side lists but not on the page.
- `view_count` is raised by a non-atomic read-modify-write. The model is sequential, so lost updates under concurrency are not modelled.
- Profile, category and project references are key values, not objects. `updated_at` and the image, file and URL fields that no rule reads are omitted from the records.
- The database adapter's storing of an empty IP string as NULL, and IPv6 normalisation, are not modelled. `Contact.ClientIp` returns the header text itself.
- Model validators run only through `full_clean()` or forms, never inside `save()`. The model keeps them as separate checks (`CleanSkill`, `CleanTestimonial`), and a save does not refuse an out-of-range value.
- The admin (main/admin.py), URL routing and forms widgets are not part of this model.
