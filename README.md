# Pan Logistics blog store and site scripts, modelled in Dafny

This project models three parts of the Pan Logistics web site:

- **The blog content store** (`server/models/Blog.js`). It keeps two tables in a hosted Postgres database:
  - `blog_posts`;
  - `blog_revisions`, holding snapshots of a post taken before an edit.
- **The blog request handlers** (`server/controllers/blogController.js`). They turn query strings and request bodies into store calls, and turn the store's results and errors into JSON responses.
- **The browser-side rules** of `js/script.js`:
  - the shipment-status badge and progress bar;
  - the "current" step of a tracking timeline;
  - the tracking-id form;
  - the testimonial slider;
  - the FAQ accordion;
  - the required-field check;
  - the language buttons.

How the pieces are modelled:
- **Tables.** The two tables are the `posts` and `revisions` fields of `BlogStore.Store`. They are sequences of rows in table order. The invariant `Valid` keeps ids unique, so each sequence is a map from id to row. The database's id sequences are the `nextPostId` and `nextRevisionId` fields.
- **Writes.** `create`, `update`, `createRevision`, `restoreRevision`, `incrementViews` and `delete` are methods that change those fields.
- **Queries.** The read-only queries (`findById`, `findBySlug`, `findPublished`, `findAll`, `getCategories`, `getAnalytics`, `getRevisions`) are functions of the rows.
- **Time** is a `now` parameter.
- **Database write failures.** Every write that can fail has a boolean parameter saying whether it did.
- **JavaScript values.** The difference between `undefined`, `null` and a value in a request body is kept (`BlogModel.Field`). "Truthy" and `!== undefined` tests are written out as the source has them.

Modules:
- `Wrappers`: the `Option` and `Result` types.
- `JsText`: `trim`, ASCII upper-casing, decimal printing and `parseInt`.
- `Sorting`: filter, a stable insertion sort by a comparator, and the first k of a sorted list.
- `Slugs`: slug derivation and the collision probe.
- `BlogModel`: rows, request bodies, and the row-level effects of create, update and restore.
- `BlogQueries`: the read side.
- `BlogStore`: the `Store` class.
- `BlogController`: the request handlers.
- `Tracking`: status, progress, timeline and tracking id.
- `Widgets`: the slider, accordion, form field and language-button classes.

## Model

| member | source | states |
|---|---|---|
| JsText.Trim | js/script.js:360 | `trim` returns a slice of its input. Everything before and after the slice is ECMAScript white space, and the slice neither starts nor ends with white space. |
| JsText.TrimIdempotent | js/script.js:503 | Trimming twice gives the same result as trimming once. |
| JsText.TrimEmptyIff | js/script.js:503 | A string trims to empty exactly when every character in it is white space. |
| JsText.ToUpperAscii | js/script.js:360 | Upper-casing keeps the length, leaves no ASCII lower-case letter, and changes no other character. |
| JsText.UpperKeepsSpaces | js/script.js:360 | Upper-casing neither creates nor removes white space at any position. |
| JsText.ParseIntDecimal | server/controllers/blogController.js:25-26 | `parseInt` of a number's decimal form gives the number back. |
| JsText.DecimalInjective | server/models/Blog.js:46 | Two different counters print as two different strings. |
| Slugs.SlugifyIsSlug | server/models/Blog.js:33 | A slug derived from any title: (1) uses only `a-z`, `0-9` and `-`; (2) never has two `-` in a row; (3) never starts or ends with `-`. |
| Slugs.SlugIsFixpoint | server/models/Blog.js:33 | Deriving a slug from a well-formed slug returns it unchanged. |
| Slugs.SlugifyIdempotent | server/models/Blog.js:33 | Deriving a slug from a derived slug returns it unchanged. |
| Slugs.CandidateInjective | server/models/Blog.js:36-48 | Different probe steps try different names. |
| Slugs.CandidateIsSlug | server/models/Blog.js:33-48 | Every name probed from a non-empty well-formed slug is well-formed too. |
| Slugs.ProbedFromUnique | server/models/Blog.js:36-48 | The first free name in the probe order is unique, so the probe's result is determined by the base and the existing slugs. |
| Slugs.ProbeSlug | server/models/Blog.js:36-48 | The probe loop returns `base` when it is free; otherwise it returns `base-k` for the least k ≥ 1 that is free. The result is never an existing slug, and the loop makes at most as many tries as there are existing slugs, plus one. |
| Sorting.Filter | server/models/Blog.js:154-162 | A filter keeps exactly the rows that pass the test, and only rows of its input. |
| Sorting.SortCorrect | server/models/Blog.js:151 | The sort returns a permutation of its input, ordered by the comparator. |
| Sorting.TopKCorrect | server/models/Blog.js:164 | `.order(...).limit(k)` returns `min(k, n)` rows of the input, in order. No row left out sorts before a row returned. |
| Sorting.StrLeIsTotalPreorder | server/models/Blog.js:350 | The string order used by `sort()` is a total preorder. |
| BlogModel.SlugBase | server/models/Blog.js:33 | A truthy slug in the body is used verbatim as the probe base. Otherwise the base is derived from the title and is well-formed. With neither, the call fails, as `title.toLowerCase()` throws. |
| BlogModel.NewRowDefaults | server/models/Blog.js:51-71 | `published_at` is set exactly when the status is `'published'`. Status defaults to `'draft'`, author to `'Pan Logistics'` and tags to `[]`. `allow_comments` is true unless it is exactly `false`. Views and counter start empty. |
| BlogModel.NewRowIgnoresUnstoredFields | server/models/Blog.js:12-31 | `meta_title`, `meta_description`, `focus_keyword` and `created_by` are read from the body but have no effect on the stored row. Neither has `change_summary`, which `create` does not read at all. |
| BlogModel.PatchedKeeps | server/models/Blog.js:269-283 | An update never changes id, `scheduled_at`, the three flags, the view count or `created_at`. It always sets `updated_at`. |
| BlogModel.PatchedIgnoresUnreadFields | server/models/Blog.js:236-243 | The meta fields, flags, schedule, creator and change summary of a body have no effect on the updated row. |
| BlogModel.PatchedRevisionNumber | server/models/Blog.js:281 | The counter rises by exactly one whenever content is supplied, even content equal to the stored content. |
| BlogModel.SnapshotMatchesCounter | server/models/Blog.js:252-262 | A snapshot holds the pre-edit title, content and content_html. Its number is the counter value the edit gives the post. |
| BlogModel.PublishedAtStampedOnce | server/models/Blog.js:265-267 | `published_at` is set only when none is stored and the incoming status is `'published'`. Once set, it never changes. |
| BlogModel.PublishedAtOverHistory | server/models/Blog.js:265-280 | After any run of updates, `published_at` is the stored value if there was one. Otherwise it is the time of the first update to `'published'`. Draft/published round trips never move it. |
| BlogModel.RevisionNumberOverHistory | server/models/Blog.js:281 | After a run of updates, the counter equals its start value plus the number of updates that supplied content. |
| BlogModel.RestoreEffect | server/models/Blog.js:428-445 | A restore puts back the revision's non-empty title and content and its content_html. It leaves status, `published_at`, slug, excerpt, category, tags and author alone, whatever post the revision came from. |
| BlogModel.RestoreSnapshotsIff | server/models/Blog.js:439-444 | A restore snapshots the post first exactly when the revision's content is non-empty and differs from the post's. |
| BlogQueries.IndexOfIdUnique | server/models/Blog.js:177-190 | With unique ids, looking up a row's id finds that row. |
| BlogQueries.FindById | server/models/Blog.js:177-190 | `findById` returns the row with the id. When there is none it fails; it never returns null. |
| BlogQueries.FindBySlug | server/models/Blog.js:197-218 | `findBySlug` returns a row with the slug. Outside preview that row is also published and not dated in the future. It fails unless exactly one row matches. |
| BlogQueries.LookupBySlug | server/models/Blog.js:197-218 | Corrected lookup: no match gives a null result. Exactly one match gives that post, which is the post `findBySlug` returns. Several matches fail, as `.single()` does. |
| BlogQueries.FindPublished | server/models/Blog.js:147-172 | A NaN or negative limit is a failed query, and nothing else is. |
| BlogQueries.FindPublishedCorrect | server/models/Blog.js:147-172 | `findPublished` returns rows of the table. Outside preview they are only visible rows; with `featured`, only featured rows. They come newest `published_at` first (nulls first), as many as match up to the limit. No matching row left out is newer than one returned. |
| BlogQueries.PreviewListsEverything | server/models/Blog.js:153-158 | In preview, without the featured filter and with a large enough limit, every row is returned, drafts included. |
| BlogQueries.FindAll | server/models/Blog.js:87-139 | The query fails exactly when the page or limit is NaN, the limit is negative, a positive limit meets a page below 1 (a negative offset), `sortBy` names no column, or a positive limit meets a page that starts past the last matching row. Otherwise the result holds at most `limit` rows, each from the table and each passing the status, category, featured and search filters. `total` counts every matching row. `totalPages` is null exactly when the limit is 0, and then the page is empty. |
| BlogQueries.FindAllCorrect | server/models/Blog.js:98-122 | A successful `findAll` orders by the named column, ascending exactly when `sortOrder` is `'asc'`. The page is sorted that way and holds only matching rows. Page 1 holds `min(limit, matches)` rows, and no matching row left out sorts before a row returned. |
| BlogQueries.FindAllLimitZero | server/models/Blog.js:120-136 | A limit of 0 with a known column is no error: no rows, every match counted, and no page count. |
| BlogQueries.RowOrderIsTotalPreorder | server/models/Blog.js:103 | `.order(column, { ascending })` is a total preorder for every column and direction, with NULLs last ascending and first descending. |
| BlogQueries.NamedOrdersAreColumnOrders | server/models/Blog.js:151 | The public list's order is `published_at` descending, and the analytics top list's order is `views_count` descending, as column orders. |
| BlogQueries.AdvertisedPagesInRange | server/models/Blog.js:98-136 | Page 1 and every page up to `totalPages` start within the counted rows, so none of them is refused. Every page two or more beyond `totalPages` starts past them. |
| BlogQueries.TotalPagesIsCeiling | server/models/Blog.js:136 | `totalPages` is the least number of `limit`-row pages that hold all matching rows. |
| BlogQueries.PagesArePrefix | server/models/Blog.js:98-122 | Pages 1..n, read with offset `(page-1)*limit`, are consecutive slices: together they form a prefix of the filtered rows. |
| BlogQueries.PagesCoverAll | server/models/Blog.js:98-136 | Reading pages 1 to `totalPages` returns every filtered row exactly once, in order. |
| BlogQueries.NonNullCategories | server/models/Blog.js:339-342 | Exactly the non-null categories of the rows are read. |
| BlogQueries.Dedupe | server/models/Blog.js:349 | `[...new Set(...)]` holds exactly the values of its input, each of them once. |
| BlogQueries.CategoriesCorrect | server/models/Blog.js:338-351 | `getCategories` returns each non-null category exactly once, in sorted order. |
| BlogQueries.CountStatus | server/models/Blog.js:451-465 | A status count is the number of rows with exactly that status. |
| BlogQueries.GetAnalytics | server/models/Blog.js:450-484 | The total is the number of rows. The published and draft counts are the numbers of rows with those statuses. The view total is the sum of the counters, null read as 0. The top list is the five most viewed rows' summaries. |
| BlogQueries.AnalyticsCountsCorrect | server/models/Blog.js:451-465 | Published and draft counts never add up to more than the total. |
| BlogQueries.TopPostsCorrect | server/models/Blog.js:467-471 | The top list holds `min(5, n)` rows in views-descending order (nulls first). No row left out has more views than a row listed. |
| BlogQueries.TotalViewsBump | server/models/Blog.js:473-475 | Adding one to one row's view counter adds exactly one to the analytics total. |
| BlogQueries.RevisionsOfCorrect | server/models/Blog.js:410-423 | `getRevisions` returns exactly the post's revisions, highest number first. |
| BlogStore.Bumped | server/models/Blog.js:330-332 | The view counter becomes its old value plus one, with null read as 0. Nothing else in the row changes. |
| BlogStore.UpdateKeepsStrict | server/models/Blog.js:252-283 | A successful update keeps each post's revisions strictly increasing and no higher than the post's counter. |
| BlogStore.RemoveKeepsConsistent | server/models/Blog.js:303-315 | Deleting a row keeps ids unique and histories bounded. The rows left are exactly those whose id differs from the deleted one. |
| BlogStore.AppendKeepsConsistent | server/models/Blog.js:53-82 | Inserting a row under the next post id keeps the tables consistent. A slug not already taken keeps slugs unique. |
| BlogStore.IndexOfRevision | server/models/Blog.js:429-433 | A revision is found by its id alone. It is absent exactly when no revision has that id. |
| BlogStore.Store.Create | server/models/Blog.js:11-82 | See "create" under the class rows below. |
| BlogStore.Store.CreateRevision | server/models/Blog.js:390-405 | On success the revision row is appended with the next id. A failed insert returns null and changes nothing. |
| BlogStore.Store.Update | server/models/Blog.js:223-298 | An unknown id fails and changes nothing. Otherwise a snapshot is appended when the content changed (unless the snapshot insert fails), and then the row is patched. If the row write fails, the call fails but the snapshot stays. Unique ids and ordered, bounded histories are preserved. |
| BlogStore.Store.RestoreRevision | server/models/Blog.js:428-445 | An unknown revision id fails with "Revision not found" and changes nothing. Otherwise the effect is exactly an update of `postId` with the revision's title, content and content_html, attributed to no user. |
| BlogStore.Store.IncrementViews | server/models/Blog.js:320-333 | The row's view counter goes up by exactly one. An unknown id or a failed write changes nothing and raises nothing. |
| BlogStore.Store.DeletePost | server/models/Blog.js:303-315 | The row with the id is removed and every other row is kept in order. An id no row has changes nothing. The post's revisions stay, and the store invariant and strict histories are kept. |
| BlogController.Reply | server/controllers/blogController.js:35-47 | A store result becomes `success: true` with its data. A thrown store error becomes status 500, `success: false`, the handler's message and the error. |
| BlogController.IntParam | server/controllers/blogController.js:13-26 | An absent numeric query value takes its default; a present one goes through `parseInt`. |
| BlogController.Attribution | server/controllers/blogController.js:146-174 | The change is attributed to the user's id when there is a non-empty one, and to null otherwise. |
| BlogController.AllPostsOptions | server/controllers/blogController.js:13-33 | `getAllPosts` passes page 1 and limit 10 unless given, and sorts by `created_at`, `desc`. A decimal page or limit reaches the store as that number. |
| BlogController.GetAllPostsDefaults | server/controllers/blogController.js:11-48 | With an empty query string the admin list is the ten most recently created rows, newest `created_at` first. No row left out was created later than a row listed. The whole table is counted, and the page count is ceil(total / 10). |
| BlogController.GetAllPostsRejectsPageZero | server/controllers/blogController.js:25-47 | `page=0` with a positive (or default) limit gives a negative offset and is answered 500. |
| BlogController.GetAllPostsLimitZero | server/controllers/blogController.js:25-33 | `limit=0` is answered 200 with no rows, the matching rows counted, and `totalPages` null. |
| BlogController.GetAllPostsPage | server/controllers/blogController.js:25-33 | When page n of k-row pages starts within the filtered rows, it is answered 200 with the n-th slice of those rows in the requested order and the pagination block `(n, k, total, ceil(total/k))`. A page starting past the last filtered row, or a `sortBy` naming no column, is answered 500. |
| BlogController.PublishedPostsNeverPreview | server/controllers/blogController.js:57 | As written, `getPublishedPosts` never returns a draft or a future post, and `?preview=true` returns only featured posts. |
| BlogController.PreviewOmitsDraft | server/controllers/blogController.js:57 | For a table holding one draft, a preview request answers an empty list as written; the corrected handler lists the draft. |
| BlogController.IntendedPreviewListsDrafts | server/controllers/blogController.js:52-57 | Corrected, a preview with the default limit lists every post of a table of up to ten posts, drafts included. |
| BlogController.SlugReply | server/controllers/blogController.js:81-106 | As written, the response is 200 exactly when the store found the post, and 500 exactly when it threw. |
| BlogController.MissingSlugIsServerError | server/controllers/blogController.js:83-106 | As written, a slug that no post (or no visible post) has is answered 500 "Failed to fetch post", never 404. |
| BlogController.SlugReplyIntended | server/controllers/blogController.js:83-88 | Corrected: no post gives 404 "Post not found", one post gives 200 with it, and a store error gives 500. |
| BlogController.MissingSlugIsNotFound | server/controllers/blogController.js:83-88 | Corrected, a slug is answered 404 exactly when no post matches. Whenever some post matches, the answer is the same as before the correction. |
| BlogController.FoundRowIndex | server/controllers/blogController.js:92 | The row `findBySlug` returned is the row that `incrementViews(post.id)` updates. |
| BlogController.GetPostBySlug | server/controllers/blogController.js:77-107 | As written, the response is `SlugReply` of the lookup. The found row's view counter rises by one unless `preview` is `'true'` or the write fails. The post is answered as it was read, before the increment. |
| BlogController.GetPostBySlugIntended | server/controllers/blogController.js:77-107 | Corrected: a missing post is answered 404 and leaves every view count unchanged. Otherwise as `GetPostBySlug`. |
| BlogController.CreatePost | server/controllers/blogController.js:141-163 | A created post is answered 201 with the row the body makes, whoever the user is. A failure is answered 500 and leaves the table unchanged. |
| BlogController.UpdatePost | server/controllers/blogController.js:168-191 | The effect is exactly an update attributed to the requesting user, or to null. It is answered 200 "Post updated successfully" or 500. |
| Tracking.StatusClass | js/script.js:50-59 | The five statuses map to their five badge classes. Any other string maps to `status-default`. |
| Tracking.Progress | js/script.js:405-412 | The five statuses map to 20/50/70/90/100 and any other string to 0. |
| Tracking.ProgressBounded | js/script.js:405-412 | Progress is always within 0..100, and it is 100 only for `Delivered`. |
| Tracking.ProgressMonotone | js/script.js:405-412 | Progress strictly rises along the status order. |
| Tracking.FirstIncomplete | js/script.js:448 | `findIndex(e => !e.completed)` is the first incomplete event, or -1 when every event is complete. |
| Tracking.CurrentIff | js/script.js:448 | Event i is current exactly when it and every earlier event are complete and the next event is not. |
| Tracking.CurrentIsUnique | js/script.js:448 | At most one event is current. |
| Tracking.NoCurrentAtEnds | js/script.js:448 | No event is current when all are complete or when the first is incomplete. |
| Tracking.NormalizeTrackingId | js/script.js:360 | The cleaned id is no longer than the input and has no lower-case ASCII letter. |
| Tracking.SubmitTracking | js/script.js:360-366 | An empty cleaned id shows "Please enter a tracking ID"; otherwise the cleaned id is requested. |
| Tracking.SubmitIffNonBlank | js/script.js:360-366 | A request is made exactly when the input holds a character that is not white space. |
| Tracking.NormalizeIdempotent | js/script.js:360 | The requested id has no white space at either end, and cleaning it again changes nothing. |
| Widgets.Advance | js/script.js:256 | The next index stays in [0, n): i+1, wrapping to 0 after the last card. With no cards it becomes NaN. |
| Widgets.AdvanceNSplit | js/script.js:255-261 | Autoplay ticks compose: a+b ticks are a ticks followed by b more. |
| Widgets.AdvanceCycles | js/script.js:255-261 | After one tick per card, the slider is back on the card it started from. |
| Widgets.TestimonialSlider.Show | js/script.js:246-253 | After `showTestimonial(k)`, exactly card k and dot k are active. |
| Widgets.TestimonialSlider.Next | js/script.js:255-258 | The index advances as `Advance`, and exactly the new card and dot are active. |
| Widgets.TestimonialSlider.ClickDot | js/script.js:268-275 | A click on dot d makes d the index, with exactly card d and dot d active. |
| Widgets.AtMostOneOpen | js/script.js:290-298 | After any click, at most one FAQ item is open. |
| Widgets.ClickToggles | js/script.js:290-298 | Clicking the open item closes all items, and clicking a closed one leaves only that one open. A second click on the same item restores its first state, with every other item closed. |
| Widgets.FaqAccordion.Click | js/script.js:290-298 | The items' flags after the click are `AfterClick` of the flags before it. |
| Widgets.BlurErrorIff | js/script.js:503 | The blur check marks a field exactly when it is required and holds only white space. |
| Widgets.FormField.Blur | js/script.js:499-508 | Inside a form group, the error state becomes the blur check. When the check fails and the group has a message element, the message is set to "This field is required". Outside a group, nothing changes. |
| Widgets.FormField.Input | js/script.js:510-515 | Typing into a field inside a group clears its error. The message text stays. |
| Widgets.InitialLanguage | js/script.js:664 | The saved language is used when it is non-empty; otherwise `en`. |
| Widgets.LanguageToggle.MarkButtons | js/script.js:692-699 | Exactly the buttons for the language are active. |
| Widgets.LanguageToggle.Click | js/script.js:670-677 | Choosing the current language changes nothing. Otherwise the new language becomes current and is saved, and exactly its buttons are active. |

`BlogStore.Store.Create` in detail:
- The slug base is taken or derived as in `SlugBase`, then probed against the existing slugs.
- On success one row is appended: `NewRow` of the body, with the next id and the first free candidate slug.
- A failed base or a failed insert changes nothing.
- Unique slugs stay unique, and the store invariant is kept.

## Left out

- Supabase client, connection and HTTP wiring: the database is two in-memory tables. server/server.js, server/routes/blog.js, api/index.js and js/config.js (the `fetch` helpers) are not part of this model.
- Query errors other than "no single row", an unknown sort column, a refused range (see the RangeRejected line) and a refused write are not modelled: network failures and permission errors, for example.
- RangeRejected assumption: the store passes a NaN page or limit, a negative limit, or a page below 1 with a positive limit (a negative offset) to the database unchanged. The model assumes the database rejects such a range, and that the handler then answers 500. The same holds for `findAll`'s range when its offset is past the number of matching rows: the query asks for an exact count, and the database then refuses the range as not satisfiable. An offset equal to the count is an empty page. A limit of 0 is an empty page, and its `totalPages` (`Math.ceil(count / 0)`, Infinity or NaN) is modelled as null, which is what JSON writes.
- Concurrency: the probe-then-insert race in `create` and the read-then-write view counter are modelled as sequential steps.
- Clocks and ISO-8601 strings: times are integers compared as numbers, and `now` is a parameter. `formatDate` is not modelled.
- `toLowerCase` in slug derivation is exact for ASCII and for the two non-ASCII characters that lower-case to ASCII letters (U+0130, U+212A). Other non-ASCII letters are treated as non-slug characters either way, so the slug is unaffected.
- Tracking.NormalizeTrackingId: upper-cases ASCII letters only; `toUpperCase` on other scripts (for example `ß` to `SS`) is not modelled.
- BlogQueries.FindAll: the `ilike` search is modelled as a case-insensitive substring test over ASCII. `%` and `_` wildcards inside the search text are not interpreted. A comma or parenthesis that breaks the `or` filter syntax is not modelled either, and neither is Unicode case folding.
- BlogQueries.FindAll: text columns are ordered by code point; the database's collation may order them differently. Rows that tie on the sort column come in insertion-sort order, while the database may return ties in any order.
- BlogQueries.FindAll: a `sortBy` naming a column the model's row does not carry (`tags`, or one the store never writes) is answered as a failed query (`ColumnRejected`). The database would order by such a column.
- BlogQueries.Categories: `sort()` compares UTF-16 code units; the model compares code points, which agree below U+10000.
- BlogQueries.GetAnalytics: each of the five analytics queries reads as empty (0) when it fails. The model has no failure there. PostgREST's row cap on `data.length` counts is not modelled.
- JsText.ParseInt: exact on integers. Precision loss above 2^53 and the `Infinity` forms are not modelled.
- Tracking.StatusClass, Tracking.Progress: the table lookup on a plain object also matches inherited names such as `constructor`. This quirk is not modelled.
- Slugs.ProbeSlug: the probe uses `.maybeSingle()`. When two rows already share a slug, that call errors, `existing` is undefined and the probe stops on a taken name. The model assumes unique slugs here, as `create` itself keeps them.
- Media and comment CRUD (server/models/Blog.js:489-621), `getAllCategories` and `getAllTags` (plain reads of other tables), and the handlers that only pass through one store call (`getPostById`, `deletePost`, `getCategories`, `getTags`, `getRevisions`, `restoreRevision`, `getAnalytics`, media and comments) are not modelled.
- js/language.js and js/translations.js (string tables and DOM walking), `animateCounters` (floating-point steps), scrolling, `IntersectionObserver`, notifications, the autoplay timer and HTML templating are not modelled.
- Widgets.LanguageToggle.Click: the `languageChange` event and the translation pass that follow a switch are not modelled.
- The store's tables are sequences whose ids are kept unique by the class invariant, rather than maps from id to row. The queries need the table order that `ORDER BY` ties and `range` paging depend on.

## Findings

| source | as written | input that shows it | evidently intended | confidence | as-written member | corrected member |
|---|---|---|---|---|---|---|
| server/controllers/blogController.js:57 | `findPublished(parseInt(limit), preview === 'true')` passes the preview flag as the second argument, `featured`, and leaves `preview` false | `GET /api/blog/?preview=true` on a table holding one draft answers `[]` | the documented `?preview=true` shows drafts too: `findPublished(limit, false, preview)` | high (not executed) | BlogController.PreviewOmitsDraft | BlogController.GetPublishedPostsIntended |
| server/controllers/blogController.js:83-88 | `findBySlug` reads with `.single()`, which errors on zero rows, so the handler's `!post` 404 branch never runs | a slug no post has: the handler answers 500 "Failed to fetch post" | 404 "Post not found", with no view counted | medium (not executed) | BlogController.MissingSlugIsServerError | BlogController.GetPostBySlugIntended |
