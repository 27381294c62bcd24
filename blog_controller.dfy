/**
 * The request handlers of server/controllers/blogController.js that compose store calls:
 * query-string defaults and parsing, the preview flag, the view counter on a read, the
 * user a change is attributed to, and the mapping of store results to HTTP responses.
 *
 * Query values are strings or absent (`Option<string>`); the authenticated user's id is
 * an `Option<string>` (absent when the request carries no user).
 */
module BlogController {
  import opened Wrappers
  import opened JsText
  import opened Sorting
  import opened BlogModel
  import opened BlogQueries
  import opened BlogStore

  /** A JSON response: status code, `success`, optional `message`, `data` and `error`. */
  datatype Response<T> = Response(status: nat, success: bool, message: Option<string>,
                                  data: Option<T>, error: Option<StoreError>)

  /** Every handler's shape: the store's value on success, 500 with the failure message on a thrown error. */
  function Reply<T>(r: Result<T, StoreError>, okStatus: nat, okMessage: Option<string>, failMessage: string)
    : (resp: Response<T>)
    requires okStatus < 500
    ensures resp.success <==> r.Ok?
    ensures resp.status == 500 <==> r.Err?
    ensures r.Ok? ==> resp.data == Some(r.value) && resp.status == okStatus && resp.message == okMessage
    ensures r.Err? ==> resp.error == Some(r.error) && resp.data.None? && resp.message == Some(failMessage)
  {
    match r
    case Ok(v) => Response(okStatus, true, okMessage, Some(v), None)
    case Err(e) => Response(500, false, Some(failMessage), None, Some(e))
  }

  /** A numeric query value: its default when absent, otherwise `parseInt` of the string (None for NaN). */
  function IntParam(q: Option<string>, default: int): (r: Option<int>)
    ensures q.None? ==> r == Some(default)
    ensures q.Some? ==> r == ParseInt(q.value)
  {
    if q.None? then Some(default) else ParseInt(q.value)
  }

  function Present(q: Option<string>): (f: Field<string>)
    ensures f != Null
    ensures f.Val? <==> q.Some?
  {
    if q.None? then Undefined else Val(q.value)
  }

  /** `req.user?.id || null`: the user's id when there is one and it is not empty. */
  function Attribution(user: Option<string>): (r: Option<UserId>)
    ensures r.Some? <==> user.Some? && user.value != ""
    ensures r.Some? ==> r == user
  {
    if user.Some? && user.value != "" then user else None
  }

  // ---------------------------------------------------------------- getAllPosts

  datatype AllPostsQuery = AllPostsQuery(
    page: Option<string>, limit: Option<string>, status: Option<string>, search: Option<string>,
    category: Option<string>, featured: Option<string>, sortBy: Option<string>, sortOrder: Option<string>)

  /** The options `getAllPosts` hands to `findAll`: page 1 and limit 10 unless given, newest `created_at` first. */
  function AllPostsOptions(q: AllPostsQuery): (o: FindAllOptions)
    ensures q.page.None? ==> o.page == Some(1)
    ensures q.limit.None? ==> o.limit == Some(10)
    ensures q.sortBy.None? ==> o.sortBy == "created_at"
    ensures q.sortBy.Some? ==> o.sortBy == q.sortBy.value
    ensures q.sortOrder.None? ==> o.sortOrder == "desc"
    ensures forall n: nat :: q.page == Some(Decimal(n)) ==> o.page == Some(n)
    ensures forall n: nat :: q.limit == Some(Decimal(n)) ==> o.limit == Some(n)
  {
    forall n: nat ensures ParseInt(Decimal(n)) == Some(n) {
      ParseIntDecimal(n);
    }
    FindAllOptions(
      page := IntParam(q.page, 1),
      limit := IntParam(q.limit, 10),
      status := Present(q.status),
      search := Present(q.search),
      category := Present(q.category),
      featured := Present(q.featured),
      sortBy := q.sortBy.GetOr("created_at"),
      sortOrder := q.sortOrder.GetOr("desc"))
  }

  function GetAllPosts(rows: seq<Post>, q: AllPostsQuery): Response<PostPage> {
    Reply(FindAll(rows, AllPostsOptions(q)), 200, None, "Failed to fetch posts")
  }

  /**
   * With an empty query string the admin list is the ten most recently created posts,
   * newest first, with the whole table counted and ceil(total / 10) pages.
   */
  lemma GetAllPostsDefaults(rows: seq<Post>)
    ensures var q := AllPostsQuery(None, None, None, None, None, None, None, None);
      var resp := GetAllPosts(rows, q);
      && resp.status == 200 && resp.data.Some?
      && var page := resp.data.value.data;
      && page == TopK(rows, RowOrder(CreatedAtColumn, false), 10)
      && |page| == Min(10, |rows|)
      && multiset(page) <= multiset(rows)
      && (forall i, j :: 0 <= i < j < |page| ==> page[i].createdAt >= page[j].createdAt)
      && (forall x, y :: x in page && y in multiset(rows) - multiset(page) ==> x.createdAt >= y.createdAt)
      && resp.data.value.pagination == Pagination(1, 10, |rows|, Some(TotalPages(|rows|, 10)))
  {
    var q := AllPostsQuery(None, None, None, None, None, None, None, None);
    var o := AllPostsOptions(q);
    var le := RowOrder(CreatedAtColumn, false);
    assert o.page == Some(1) && o.limit == Some(10);
    assert SortColumnOf(o.sortBy) == Some(CreatedAtColumn) && Requested(CreatedAtColumn, o) == le;
    FilterAll(rows, (p: Post) => AdminFilter(p, o));
    assert Matching(rows, o) == rows;
    FindAllCorrect(rows, o);
    FindAllData(rows, o);
    FirstPageIsTopK(rows, le, 10);
    CreatedAtDescending(FindAll(rows, o).value.data, rows);
  }

  /** Under `created_at` descending, "comes first" means "created no earlier". */
  lemma CreatedAtDescending(page: seq<Post>, rows: seq<Post>)
    requires SortedBy(page, RowOrder(CreatedAtColumn, false))
    requires forall x, y :: x in page && y in multiset(rows) - multiset(page) ==> RowOrder(CreatedAtColumn, false)(x, y)
    ensures forall i, j :: 0 <= i < j < |page| ==> page[i].createdAt >= page[j].createdAt
    ensures forall x, y :: x in page && y in multiset(rows) - multiset(page) ==> x.createdAt >= y.createdAt
  {
    var le := RowOrder(CreatedAtColumn, false);
    forall i, j | 0 <= i < j < |page| ensures page[i].createdAt >= page[j].createdAt {
      assert le(page[i], page[j]);
    }
    forall x, y | x in page && y in multiset(rows) - multiset(page) ensures x.createdAt >= y.createdAt {
      assert le(x, y);
    }
  }

  /** A page of `0` with a positive (or default) limit is a negative offset: a failed request (500). */
  lemma GetAllPostsRejectsPageZero(rows: seq<Post>, q: AllPostsQuery, k: nat)
    requires q.page == Some("0") && k >= 1 && (q.limit.None? || q.limit == Some(Decimal(k)))
    ensures GetAllPosts(rows, q).status == 500 && !GetAllPosts(rows, q).success
  {
    assert Decimal(0) == "0";
    ParseIntDecimal(0);
    ParseIntDecimal(k);
  }

  /**
   * A limit of `0` is no error: the page is empty, the matching rows are still counted,
   * and `totalPages` is `Math.ceil(total / 0)`, which JSON writes as null.
   */
  lemma GetAllPostsLimitZero(rows: seq<Post>, q: AllPostsQuery, n: nat)
    requires q.limit == Some("0") && (q.page.None? || q.page == Some(Decimal(n)))
    requires SortColumnOf(q.sortBy.GetOr("created_at")).Some?
    ensures var resp := GetAllPosts(rows, q);
      && resp.status == 200 && resp.success && resp.data.Some?
      && resp.data.value.data == []
      && resp.data.value.pagination.limit == 0
      && resp.data.value.pagination.total == |Matching(rows, AllPostsOptions(q))|
      && resp.data.value.pagination.totalPages.None?
  {
    ZeroLimitParsed(q, n);
    KnownColumnParsed(q);
    FindAllLimitZero(rows, AllPostsOptions(q));
  }

  /** `limit=0` with an absent or numeric page gives a page number and a limit of 0. */
  lemma ZeroLimitParsed(q: AllPostsQuery, n: nat)
    requires q.limit == Some("0") && (q.page.None? || q.page == Some(Decimal(n)))
    ensures AllPostsOptions(q).page.Some? && AllPostsOptions(q).limit == Some(0)
  {
    assert Decimal(0) == "0";
    ParseIntDecimal(0);
  }

  /** A query naming a known column, or none (`created_at`), orders by a known column. */
  lemma KnownColumnParsed(q: AllPostsQuery)
    requires SortColumnOf(q.sortBy.GetOr("created_at")).Some?
    ensures SortColumnOf(AllPostsOptions(q).sortBy).Some?
  {
    assert AllPostsOptions(q).sortBy == q.sortBy.GetOr("created_at");
  }

  /**
   * Page `n` of `k`-row pages starts `(n - 1) * k` rows into the matching rows in the
   * requested order and holds at most `k` of them. Ordering by a column the table lacks,
   * or a page starting past the last match, fails with 500.
   */
  lemma GetAllPostsPage(rows: seq<Post>, q: AllPostsQuery, n: nat, k: nat)
    requires n >= 1 && k >= 1
    requires q.page == Some(Decimal(n)) && q.limit == Some(Decimal(k))
    ensures var resp := GetAllPosts(rows, q);
      var o := AllPostsOptions(q);
      var m := Matching(rows, o);
      && (SortColumnOf(o.sortBy).Some? && (n - 1) * k <= |m| ==>
            && resp.status == 200
            && resp.data.value.data == PageOf(Ordered(rows, o, SortColumnOf(o.sortBy).value), n, k)
            && resp.data.value.pagination == Pagination(n, k, |m|, Some(TotalPages(|m|, k))))
      && (SortColumnOf(o.sortBy).None? || (n - 1) * k > |m| ==> resp.status == 500 && !resp.success)
  {
    var o := AllPostsOptions(q);
    if SortColumnOf(o.sortBy).Some? {
      OrderedRows(rows, o, SortColumnOf(o.sortBy).value);
    }
  }

  // ---------------------------------------------------------------- getPublishedPosts

  /**
   * `getPublishedPosts` as written: `findPublished(parseInt(limit), preview === 'true')`,
   * which puts the preview flag in the `featured` position and leaves `preview` false.
   */
  function GetPublishedPosts(rows: seq<Post>, limitQ: Option<string>, previewQ: Option<string>, now: Time)
    : Response<seq<Post>>
  {
    Reply(FindPublished(rows, IntParam(limitQ, 10), previewQ == Some("true"), false, now),
          200, None, "Failed to fetch posts")
  }

  /** As written, no request shows a draft or a future post, and `?preview=true` shows only featured posts. */
  lemma PublishedPostsNeverPreview(rows: seq<Post>, limitQ: Option<string>, previewQ: Option<string>, now: Time)
    ensures var resp := GetPublishedPosts(rows, limitQ, previewQ, now);
      resp.data.Some? ==>
        && (forall p :: p in resp.data.value ==> p in rows && Visible(p, now))
        && (previewQ == Some("true") ==> forall p :: p in resp.data.value ==> p.isFeatured)
  {
    var limit := IntParam(limitQ, 10);
    if limit.Some? && limit.value >= 0 {
      FindPublishedCorrect(rows, limit.value, previewQ == Some("true"), false, now);
      var r := FindPublished(rows, limit, previewQ == Some("true"), false, now).value;
      forall p | p in r ensures p in rows {
        assert p in multiset(r);
      }
    }
  }

  /** The intended handler: `findPublished(limit, false, preview)`, so preview lists drafts too. */
  function GetPublishedPostsIntended(rows: seq<Post>, limitQ: Option<string>, previewQ: Option<string>, now: Time)
    : Response<seq<Post>>
  {
    Reply(FindPublished(rows, IntParam(limitQ, 10), false, previewQ == Some("true"), now),
          200, None, "Failed to fetch posts")
  }

  /** Corrected, a preview with the default limit lists every post of a table of at most ten, drafts included. */
  lemma IntendedPreviewListsDrafts(rows: seq<Post>, now: Time)
    requires |rows| <= 10
    ensures var resp := GetPublishedPostsIntended(rows, None, Some("true"), now);
      resp.status == 200 && multiset(resp.data.value) == multiset(rows)
  {
    PreviewListsEverything(rows, 10, now);
  }

  /** Corrected, a request without `?preview=true` gets the visible posts, featured or not, as before the fix it would without preview. */
  lemma IntendedPublicListUnchanged(rows: seq<Post>, limitQ: Option<string>, previewQ: Option<string>, now: Time)
    requires previewQ != Some("true")
    ensures GetPublishedPostsIntended(rows, limitQ, previewQ, now) == GetPublishedPosts(rows, limitQ, previewQ, now)
  {
  }

  /** One draft, previewed: the handler as written answers an empty list; the intended one lists the draft. */
  lemma PreviewOmitsDraft(draft: Post, now: Time)
    requires draft.status == Draft
    ensures GetPublishedPosts([draft], None, Some("true"), now).data == Some([])
    ensures GetPublishedPostsIntended([draft], None, Some("true"), now).data == Some([draft])
  {
    var keepAsWritten := (p: Post) => PublishedFilter(p, true, false, now);
    assert Filter([draft], keepAsWritten) == [];
    var keepIntended := (p: Post) => PublishedFilter(p, false, true, now);
    assert Filter([draft], keepIntended) == [draft];
    assert Sort([draft], NewestFirst) == [draft];
  }

  // ---------------------------------------------------------------- getPostBySlug

  /**
   * The response of `getPostBySlug` as written. The store's `.single()` throws when no
   * row matches, so the `!post` branch never runs and a missing post is a 500.
   */
  function SlugReply(found: Result<Post, StoreError>): (resp: Response<Post>)
    ensures resp.status == 200 <==> found.Ok?
    ensures resp.status == 500 <==> found.Err?
  {
    Reply(found, 200, None, "Failed to fetch post")
  }

  /** As written, asking for a slug no (visible) post has is answered 500, never 404. */
  lemma MissingSlugIsServerError(rows: seq<Post>, slug: string, preview: bool, now: Time)
    requires forall p :: p in rows ==> !SlugMatch(p, slug, preview, now)
    ensures SlugReply(FindBySlug(rows, slug, preview, now)).status == 500
    ensures SlugReply(FindBySlug(rows, slug, preview, now)).message == Some("Failed to fetch post")
  {
  }

  /** The intended response: no post is 404 'Post not found', one post is 200, a store error 500. */
  function SlugReplyIntended(found: Result<Option<Post>, StoreError>): (resp: Response<Post>)
    ensures resp.status == 404 <==> found == Ok(None)
    ensures resp.status == 200 <==> found.Ok? && found.value.Some?
    ensures resp.status == 200 ==> resp.data == Some(found.value.value)
    ensures resp.status == 500 <==> found.Err?
  {
    match found
    case Ok(None) => Response(404, false, Some("Post not found"), None, None)
    case Ok(Some(p)) => Response(200, true, None, Some(p), None)
    case Err(e) => Response(500, false, Some("Failed to fetch post"), None, Some(e))
  }

  /** Corrected, a slug no (visible) post has is answered 404, and every other request is answered as before. */
  lemma MissingSlugIsNotFound(rows: seq<Post>, slug: string, preview: bool, now: Time)
    ensures (forall p :: p in rows ==> !SlugMatch(p, slug, preview, now))
        <==> SlugReplyIntended(LookupBySlug(rows, slug, preview, now)).status == 404
    ensures SlugReplyIntended(LookupBySlug(rows, slug, preview, now)).status == 200
        ==> SlugReplyIntended(LookupBySlug(rows, slug, preview, now)) == SlugReply(FindBySlug(rows, slug, preview, now))
    ensures (exists p :: p in rows && SlugMatch(p, slug, preview, now))
        ==> SlugReplyIntended(LookupBySlug(rows, slug, preview, now)) == SlugReply(FindBySlug(rows, slug, preview, now))
    ensures FindBySlug(rows, slug, preview, now).Ok?
        ==> SlugReplyIntended(LookupBySlug(rows, slug, preview, now)) == SlugReply(FindBySlug(rows, slug, preview, now))
  {
    if exists p :: p in rows && SlugMatch(p, slug, preview, now) {
      var p :| p in rows && SlugMatch(p, slug, preview, now);
      assert p in SlugMatches(rows, slug, preview, now);
    }
  }

  /** Row `p` of `before` is `after`'s only change, and its view counter went up by one. */
  ghost predicate ViewBumped(before: seq<Post>, after: seq<Post>, p: Post) {
    exists i :: 0 <= i < |before| && before[i] == p && after == before[i := Bumped(p)]
  }

  /** The row the store returned is the row `incrementViews(post.id)` updates. */
  lemma FoundRowIndex(rows: seq<Post>, p: Post)
    requires UniquePostIds(rows) && p in rows
    ensures IndexOfId(rows, p.id).Some? && rows[IndexOfId(rows, p.id).value] == p
  {
    var j :| 0 <= j < |rows| && rows[j] == p;
    IndexOfIdUnique(rows, j);
  }

  /**
   * `getPostBySlug` as written: look the slug up (`preview === 'true'` lifts the
   * visibility rule), count a view unless previewing, answer with the post as read.
   */
  method GetPostBySlug(store: Store, slug: string, previewQ: Option<string>, now: Time, viewWriteFails: bool)
    returns (resp: Response<Post>)
    requires store.Valid()
    modifies store
    ensures store.Valid()
    ensures store.revisions == old(store.revisions)
    ensures var found := FindBySlug(old(store.posts), slug, previewQ == Some("true"), now);
      && resp == SlugReply(found)
      && (found.Err? || previewQ == Some("true") || viewWriteFails ==> store.posts == old(store.posts))
      && (found.Ok? && previewQ != Some("true") && !viewWriteFails ==>
            ViewBumped(old(store.posts), store.posts, found.value))
  {
    var preview := previewQ == Some("true");
    var found := FindBySlug(store.posts, slug, preview, now);
    if found.Err? {
      return SlugReply(found);
    }
    if !preview {
      FoundRowIndex(store.posts, found.value);
      store.IncrementViews(found.value.id, viewWriteFails);
    }
    resp := SlugReply(found);
  }

  /** `getPostBySlug` as intended: a missing post is 404 and counts no view. */
  method GetPostBySlugIntended(store: Store, slug: string, previewQ: Option<string>, now: Time, viewWriteFails: bool)
    returns (resp: Response<Post>)
    requires store.Valid()
    modifies store
    ensures store.Valid()
    ensures store.revisions == old(store.revisions)
    ensures var found := LookupBySlug(old(store.posts), slug, previewQ == Some("true"), now);
      && resp == SlugReplyIntended(found)
      && (resp.status != 200 || previewQ == Some("true") || viewWriteFails ==> store.posts == old(store.posts))
      && (resp.status == 200 && previewQ != Some("true") && !viewWriteFails ==>
            ViewBumped(old(store.posts), store.posts, resp.data.value))
  {
    var preview := previewQ == Some("true");
    var found := LookupBySlug(store.posts, slug, preview, now);
    if found.Err? || found.value.None? {
      return SlugReplyIntended(found);
    }
    var post := found.value.value;
    if !preview {
      FoundRowIndex(store.posts, post);
      store.IncrementViews(post.id, viewWriteFails);
    }
    resp := SlugReplyIntended(found);
  }

  // ---------------------------------------------------------------- createPost / updatePost

  /**
   * `createPost`: create the post with `created_by` set to the requesting user, answer
   * 201. The store does not keep `created_by`, so the row is the one the bare body makes.
   */
  method CreatePost(store: Store, body: PostBody, user: Option<string>, now: Time, insertFails: bool)
    returns (resp: Response<Post>)
    requires store.Valid()
    modifies store
    ensures store.Valid()
    ensures store.revisions == old(store.revisions)
    ensures resp.status == 201 || resp.status == 500
    ensures resp.status == 201 <==> SlugBase(body).Ok? && !insertFails
    ensures resp.status == 201 ==>
      && resp.message == Some("Post created successfully") && resp.data.Some?
      && store.posts == old(store.posts) + [resp.data.value]
      && resp.data.value == NewRow(body, old(store.nextPostId), resp.data.value.slug, now)
    ensures resp.status == 500 ==> store.posts == old(store.posts) && resp.message == Some("Failed to create post")
  {
    var attributed := body.(createdBy := FromColumn(Attribution(user)));
    assert SlugBase(attributed) == SlugBase(body);
    var r := store.Create(attributed, now, insertFails);
    if r.Ok? {
      NewRowIgnoresUnstoredFields(body, old(store.nextPostId), r.value.slug, now,
                                  body.metaTitle, body.metaDescription, body.focusKeyword,
                                  attributed.createdBy, body.changeSummary);
    }
    resp := Reply(r, 201, Some("Post created successfully"), "Failed to create post");
  }

  /** `updatePost`: update with the change attributed to the requesting user, or to nobody. */
  method UpdatePost(store: Store, id: PostId, body: PostBody, user: Option<string>, now: Time,
                    snapshotFails: bool, writeFails: bool) returns (resp: Response<Post>)
    requires store.Valid()
    modifies store
    ensures store.Valid()
    ensures exists r :: UpdateOutcome(old(store.posts), old(store.revisions), old(store.nextRevisionId), id, body,
                                      Attribution(user), now, snapshotFails, writeFails, store.posts, store.revisions, r)
                     && resp == Reply(r, 200, Some("Post updated successfully"), "Failed to update post")
  {
    var r := store.Update(id, body, Attribution(user), now, snapshotFails, writeFails);
    resp := Reply(r, 200, Some("Post updated successfully"), "Failed to update post");
  }
}
