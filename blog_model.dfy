/**
 * The rows of the `blog_posts` and `blog_revisions` tables, the JSON bodies the
 * handlers receive, and the row each write produces (server/models/Blog.js).
 */
module BlogModel {
  import opened Wrappers
  import opened JsText
  import opened Slugs

  /** Timestamps, ordered as the ISO strings the source writes are ordered. */
  type Time = int
  type PostId = nat
  type RevisionId = nat
  type UserId = string

  /** A value read from a JSON body: the key is absent, it is null, or it holds a value. */
  datatype Field<T> = Undefined | Null | Val(value: T)

  /** JavaScript truthiness of a string-valued body field. */
  predicate Truthy(f: Field<string>) { f.Val? && f.value != "" }

  /** The column written for a body value that is not undefined: null stays null. */
  function Column<T>(f: Field<T>): Option<T> {
    if f.Val? then Some(f.value) else None
  }

  /** A column read back into a body: null is null, not absent. */
  function FromColumn<T>(c: Option<T>): Field<T> {
    if c.Some? then Val(c.value) else Null
  }

  const Published: string := "published"
  const Draft: string := "draft"
  const DefaultAuthor: string := "Pan Logistics"

  /**
   * A `blog_posts` row. Columns that may hold null are options; a column that an
   * insert leaves out (views, revision counter, update time) starts as None and is
   * read as 0 wherever the source writes `|| 0`.
   */
  datatype Post = Post(
    id: PostId,
    title: Option<string>,
    slug: string,
    excerpt: Option<string>,
    content: Option<string>,
    contentHtml: Option<string>,
    author: string,
    category: Option<string>,
    tags: Option<seq<string>>,
    featuredImage: Option<string>,
    status: string,
    publishedAt: Option<Time>,
    scheduledAt: Option<string>,
    allowComments: bool,
    isFeatured: bool,
    isSticky: bool,
    viewsCount: Option<nat>,
    revisionNumber: Option<nat>,
    createdAt: Time,
    updatedAt: Option<Time>)

  /** A `blog_revisions` row: the title and body of a post before an edit. */
  datatype Revision = Revision(
    id: RevisionId,
    postId: PostId,
    title: Option<string>,
    content: Option<string>,
    contentHtml: Option<string>,
    revisionNumber: nat,
    changedBy: Option<UserId>,
    changeSummary: Option<string>,
    createdAt: Time)

  /** The request body of create and update: every field either may read. */
  datatype PostBody = PostBody(
    title: Field<string>,
    slug: Field<string>,
    excerpt: Field<string>,
    content: Field<string>,
    contentHtml: Field<string>,
    author: Field<string>,
    category: Field<string>,
    tags: Field<seq<string>>,
    featuredImage: Field<string>,
    status: Field<string>,
    metaTitle: Field<string>,
    metaDescription: Field<string>,
    focusKeyword: Field<string>,
    scheduledAt: Field<string>,
    allowComments: Field<bool>,
    isFeatured: Field<bool>,
    isSticky: Field<bool>,
    createdBy: Field<UserId>,
    changeSummary: Field<string>)

  /** What a store operation can fail with. */
  datatype StoreError =
    | NoSingleRow          // `.single()` found zero rows, or more than one
    | TitleMissing(wasNull: bool)  // `title.toLowerCase()` on undefined or null
    | WriteRejected        // the hosted database refused an insert, update or delete
    | RevisionNotFound     // restoreRevision's own "Revision not found"
    | RangeRejected        // a NaN or negative limit/offset reached the query
    | ColumnRejected       // ORDER BY named a column the table does not have

  /** The counter as the source reads it: `revision_number || 0`. */
  function RevNum(p: Post): nat { p.revisionNumber.GetOr(0) }

  /** The view count as the source reads it: `views_count || 0`. */
  function Views(p: Post): nat { p.viewsCount.GetOr(0) }

  // ---------------------------------------------------------------- create

  /** The slug `create` starts probing from: the supplied slug if truthy, else one derived from the title. */
  function SlugBase(body: PostBody): (r: Result<string, StoreError>)
    ensures Truthy(body.slug) ==> r == Ok(body.slug.value)
    ensures !Truthy(body.slug) && body.title.Val? ==> r.Ok? && IsSlug(r.value)
    ensures r.Err? <==> !Truthy(body.slug) && !body.title.Val?
  {
    if Truthy(body.slug) then Ok(body.slug.value)
    else if body.title.Val? then (SlugifyIsSlug(body.title.value); Ok(Slugify(body.title.value)))
    else Err(TitleMissing(body.title.Null?))
  }

  /** The row `create` inserts, given the id the database assigns and the probed slug. */
  function NewRow(body: PostBody, id: PostId, slug: string, now: Time): Post {
    Post(
      id := id,
      title := Column(body.title),
      slug := slug,
      excerpt := Column(body.excerpt),
      content := Column(body.content),
      contentHtml := Column(body.contentHtml),
      author := if Truthy(body.author) then body.author.value else DefaultAuthor,
      category := Column(body.category),
      tags := Some(if body.tags.Val? then body.tags.value else []),
      featuredImage := Column(body.featuredImage),
      status := if Truthy(body.status) then body.status.value else Draft,
      publishedAt := if body.status == Val(Published) then Some(now) else None,
      scheduledAt := if Truthy(body.scheduledAt) then Some(body.scheduledAt.value) else None,
      allowComments := body.allowComments != Val(false),
      isFeatured := body.isFeatured == Val(true),
      isSticky := body.isSticky == Val(true),
      viewsCount := None,
      revisionNumber := None,
      createdAt := now,
      updatedAt := None)
  }

  /** The defaults of a new row, and `published_at` is stamped exactly when the status is 'published'. */
  lemma NewRowDefaults(body: PostBody, id: PostId, slug: string, now: Time)
    ensures var p := NewRow(body, id, slug, now);
      && (p.publishedAt.Some? <==> body.status == Val(Published))
      && (p.publishedAt.Some? ==> p.publishedAt.value == now && p.status == Published)
      && (!Truthy(body.status) ==> p.status == Draft && p.publishedAt.None?)
      && (!Truthy(body.author) ==> p.author == DefaultAuthor)
      && (!body.tags.Val? ==> p.tags == Some([]))
      && (p.allowComments <==> body.allowComments != Val(false))
      && p.viewsCount.None? && p.revisionNumber.None? && p.createdAt == now
  {
  }

  /**
   * `create` reads meta_title, meta_description, focus_keyword and created_by from the
   * body but stores none of them, and does not read change_summary at all: the row
   * depends on none of them.
   */
  lemma NewRowIgnoresUnstoredFields(body: PostBody, id: PostId, slug: string, now: Time,
                                    mt: Field<string>, md: Field<string>, fk: Field<string>,
                                    creator: Field<UserId>, cs: Field<string>)
    ensures NewRow(body, id, slug, now)
         == NewRow(body.(metaTitle := mt, metaDescription := md, focusKeyword := fk,
                         createdBy := creator, changeSummary := cs), id, slug, now)
  {
  }

  // ---------------------------------------------------------------- update

  /** Whether `update` snapshots the post first: the incoming content is truthy and differs from the stored one. */
  predicate ContentChanged(p: Post, body: PostBody) {
    Truthy(body.content) && Some(body.content.value) != p.content
  }

  /** The revision `update` writes: the post's title and body before the edit. */
  function Snapshot(p: Post, body: PostBody, userId: Option<UserId>, id: RevisionId, now: Time): Revision {
    Revision(id, p.id, p.title, p.content, p.contentHtml, RevNum(p) + 1, userId, Column(body.changeSummary), now)
  }

  /** `published_at` after an update: stamped when the status becomes 'published' and none is stored. */
  function StampedPublishedAt(p: Post, body: PostBody, now: Time): Option<Time> {
    if body.status == Val(Published) && p.publishedAt.None? then Some(now) else p.publishedAt
  }

  /**
   * The row after `update`: a partial update in which title, slug, content, author and
   * status are written only when truthy, the other editable fields when not undefined.
   */
  function Patched(p: Post, body: PostBody, now: Time): Post {
    p.(
      title := if Truthy(body.title) then Some(body.title.value) else p.title,
      slug := if Truthy(body.slug) then body.slug.value else p.slug,
      excerpt := if body.excerpt.Undefined? then p.excerpt else Column(body.excerpt),
      content := if Truthy(body.content) then Some(body.content.value) else p.content,
      contentHtml := if body.contentHtml.Undefined? then p.contentHtml else Column(body.contentHtml),
      author := if Truthy(body.author) then body.author.value else p.author,
      category := if body.category.Undefined? then p.category else Column(body.category),
      tags := if body.tags.Undefined? then p.tags else Column(body.tags),
      featuredImage := if body.featuredImage.Undefined? then p.featuredImage else Column(body.featuredImage),
      status := if Truthy(body.status) then body.status.value else p.status,
      publishedAt := StampedPublishedAt(p, body, now),
      revisionNumber := if Truthy(body.content) then Some(RevNum(p) + 1) else p.revisionNumber,
      updatedAt := Some(now))
  }

  /** What update never touches: the id, the three flags, `scheduled_at`, the view count and `created_at`. */
  lemma PatchedKeeps(p: Post, body: PostBody, now: Time)
    ensures var q := Patched(p, body, now);
      && q.id == p.id && q.scheduledAt == p.scheduledAt && q.allowComments == p.allowComments
      && q.isFeatured == p.isFeatured && q.isSticky == p.isSticky
      && q.viewsCount == p.viewsCount && q.createdAt == p.createdAt && q.updatedAt == Some(now)
  {
  }

  /** The meta fields, flags, schedule and creator of a body have no effect on update. */
  lemma PatchedIgnoresUnreadFields(p: Post, body: PostBody, now: Time, other: PostBody)
    requires other == body.(metaTitle := other.metaTitle, metaDescription := other.metaDescription,
                            focusKeyword := other.focusKeyword, scheduledAt := other.scheduledAt,
                            allowComments := other.allowComments, isFeatured := other.isFeatured,
                            isSticky := other.isSticky, createdBy := other.createdBy,
                            changeSummary := other.changeSummary)
    ensures Patched(p, body, now) == Patched(p, other, now)
  {
  }

  /** The counter rises by exactly one whenever content is supplied, even unchanged content. */
  lemma PatchedRevisionNumber(p: Post, body: PostBody, now: Time)
    ensures RevNum(Patched(p, body, now)) == if Truthy(body.content) then RevNum(p) + 1 else RevNum(p)
    ensures Truthy(body.content) && !ContentChanged(p, body) ==> Patched(p, body, now).content == p.content
  {
  }

  /** A snapshot is numbered with the counter value the edit gives the post, and holds the pre-edit text. */
  lemma SnapshotMatchesCounter(p: Post, body: PostBody, userId: Option<UserId>, id: RevisionId, now: Time)
    requires ContentChanged(p, body)
    ensures var r := Snapshot(p, body, userId, id, now);
      && r.revisionNumber == RevNum(Patched(p, body, now))
      && r.postId == p.id && r.title == p.title && r.content == p.content && r.contentHtml == p.contentHtml
      && Patched(p, body, now).content != r.content
  {
  }

  /** `published_at` is stamped once: set only from none, with status 'published', and never rewritten. */
  lemma PublishedAtStampedOnce(p: Post, body: PostBody, now: Time)
    ensures p.publishedAt.Some? ==> Patched(p, body, now).publishedAt == p.publishedAt
    ensures p.publishedAt.None? ==>
      (Patched(p, body, now).publishedAt.Some? <==> body.status == Val(Published))
  {
  }

  /** A run of updates, each with its body and its time. */
  function ApplyAll(p: Post, edits: seq<(PostBody, Time)>): Post
    decreases |edits|
  {
    if edits == [] then p else ApplyAll(Patched(p, edits[0].0, edits[0].1), edits[1..])
  }

  /** The time of the first edit whose status is 'published', if any. */
  function FirstPublishTime(edits: seq<(PostBody, Time)>): Option<Time> {
    if edits == [] then None
    else if edits[0].0.status == Val(Published) then Some(edits[0].1)
    else FirstPublishTime(edits[1..])
  }

  /**
   * Over any run of updates, `published_at` is the stored one if there was one, else the
   * time of the first update into 'published': draft/published round trips never move it.
   */
  lemma {:induction false} PublishedAtOverHistory(p: Post, edits: seq<(PostBody, Time)>)
    ensures ApplyAll(p, edits).publishedAt
         == if p.publishedAt.Some? then p.publishedAt else FirstPublishTime(edits)
    decreases |edits|
  {
    if edits != [] {
      PublishedAtOverHistory(Patched(p, edits[0].0, edits[0].1), edits[1..]);
    }
  }

  function ContentEdits(edits: seq<(PostBody, Time)>): nat {
    if edits == [] then 0 else (if Truthy(edits[0].0.content) then 1 else 0) + ContentEdits(edits[1..])
  }

  /** The counter after a run of updates is the start value plus the number of updates that supplied content. */
  lemma {:induction false} RevisionNumberOverHistory(p: Post, edits: seq<(PostBody, Time)>)
    ensures RevNum(ApplyAll(p, edits)) == RevNum(p) + ContentEdits(edits)
    decreases |edits|
  {
    if edits != [] {
      RevisionNumberOverHistory(Patched(p, edits[0].0, edits[0].1), edits[1..]);
    }
  }

  // ---------------------------------------------------------------- restore

  /** The body `restoreRevision` hands to update: the revision's title and text, nothing else. */
  function RestoreBody(r: Revision): PostBody {
    PostBody(
      title := FromColumn(r.title),
      slug := Undefined,
      excerpt := Undefined,
      content := FromColumn(r.content),
      contentHtml := FromColumn(r.contentHtml),
      author := Undefined,
      category := Undefined,
      tags := Undefined,
      featuredImage := Undefined,
      status := Undefined,
      metaTitle := Undefined,
      metaDescription := Undefined,
      focusKeyword := Undefined,
      scheduledAt := Undefined,
      allowComments := Undefined,
      isFeatured := Undefined,
      isSticky := Undefined,
      createdBy := Undefined,
      changeSummary := Val("Restored from revision " + Decimal(r.revisionNumber)))
  }

  /**
   * Restoring puts back the revision's non-empty title and content and its content_html
   * (null included), and leaves status and `published_at` alone, whatever post the revision came from.
   */
  lemma RestoreEffect(p: Post, r: Revision, now: Time)
    ensures var q := Patched(p, RestoreBody(r), now);
      && q.title == (if r.title.Some? && r.title.value != "" then r.title else p.title)
      && q.content == (if r.content.Some? && r.content.value != "" then r.content else p.content)
      && q.contentHtml == r.contentHtml
      && q.status == p.status && q.publishedAt == p.publishedAt && q.slug == p.slug
      && q.excerpt == p.excerpt && q.category == p.category && q.tags == p.tags && q.author == p.author
  {
  }

  /** Restoring a revision whose content is non-empty and differs from the post's snapshots the post first. */
  lemma RestoreSnapshotsIff(p: Post, r: Revision)
    ensures ContentChanged(p, RestoreBody(r)) <==> r.content.Some? && r.content.value != "" && r.content != p.content
  {
  }

  // ---------------------------------------------------------------- table invariants

  ghost predicate UniquePostIds(posts: seq<Post>) {
    forall i, j :: 0 <= i < j < |posts| ==> posts[i].id != posts[j].id
  }

  ghost predicate UniqueSlugs(posts: seq<Post>) {
    forall i, j :: 0 <= i < j < |posts| ==> posts[i].slug != posts[j].slug
  }

  function SlugSet(posts: seq<Post>): set<string> {
    set p | p in posts :: p.slug
  }

  /** Each post's revisions appear with non-decreasing numbers. */
  ghost predicate HistoryMonotone(revs: seq<Revision>) {
    forall i, j :: 0 <= i < j < |revs| && revs[i].postId == revs[j].postId ==>
      revs[i].revisionNumber <= revs[j].revisionNumber
  }

  /** No revision of a live post is numbered beyond the post's counter plus one. */
  ghost predicate HistoryBounded(posts: seq<Post>, revs: seq<Revision>) {
    forall i, k :: 0 <= i < |posts| && 0 <= k < |revs| && revs[k].postId == posts[i].id ==>
      revs[k].revisionNumber <= RevNum(posts[i]) + 1
  }

  /**
   * The history the design describes: each post's revisions strictly increase and none is
   * numbered beyond the post's counter. It holds as long as no post write fails after its snapshot.
   */
  ghost predicate HistoryStrict(posts: seq<Post>, revs: seq<Revision>) {
    && (forall i, j :: 0 <= i < j < |revs| && revs[i].postId == revs[j].postId ==>
          revs[i].revisionNumber < revs[j].revisionNumber)
    && (forall i, k :: 0 <= i < |posts| && 0 <= k < |revs| && revs[k].postId == posts[i].id ==>
          revs[k].revisionNumber <= RevNum(posts[i]))
  }
}
