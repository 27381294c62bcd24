/**
 * The read side of the blog store (server/models/Blog.js): lookups, the public
 * listing, the admin listing with pagination, categories and analytics. Each
 * query is a function of the `blog_posts` rows (and `blog_revisions` rows).
 */
module BlogQueries {
  import opened Wrappers
  import opened JsText
  import opened Sorting
  import opened BlogModel

  // ---------------------------------------------------------------- lookups

  /** Where the row with this id is, if anywhere (ids are the table's primary key). */
  function IndexOfId(rows: seq<Post>, id: PostId): (r: Option<nat>)
    ensures r.Some? ==> r.value < |rows| && rows[r.value].id == id
    ensures r.None? <==> forall i :: 0 <= i < |rows| ==> rows[i].id != id
  {
    if rows == [] then None
    else if rows[0].id == id then Some(0)
    else
      var r := IndexOfId(rows[1..], id);
      assert forall i :: 1 <= i < |rows| ==> rows[i] == rows[1..][i - 1];
      if r.Some? then Some(r.value + 1) else None
  }

  /** In a table with unique ids, the only row with an id is the one `IndexOfId` finds. */
  lemma IndexOfIdUnique(rows: seq<Post>, i: nat)
    requires UniquePostIds(rows) && i < |rows|
    ensures IndexOfId(rows, rows[i].id) == Some(i)
  {
  }

  /** `findById`: `.single()` on the id; no row is an error, not a null result. */
  function FindById(rows: seq<Post>, id: PostId): (r: Result<Post, StoreError>)
    ensures r.Ok? ==> r.value in rows && r.value.id == id
    ensures r.Err? <==> forall p :: p in rows ==> p.id != id
    ensures r.Err? ==> r.error == NoSingleRow
  {
    match IndexOfId(rows, id)
    case Some(i) => Ok(rows[i])
    case None => Err(NoSingleRow)
  }

  /** The public visibility rule: status 'published' and `published_at` not in the future. */
  predicate Visible(p: Post, now: Time) {
    p.status == Published && p.publishedAt.Some? && p.publishedAt.value <= now
  }

  predicate SlugMatch(p: Post, slug: string, preview: bool, now: Time) {
    p.slug == slug && (preview || Visible(p, now))
  }

  function SlugMatches(rows: seq<Post>, slug: string, preview: bool, now: Time): seq<Post> {
    Filter(rows, (p: Post) => SlugMatch(p, slug, preview, now))
  }

  /**
   * `findBySlug`: the rows with the slug (and, outside preview, visible), read with
   * `.single()`: exactly one row is the result, none or several are an error.
   */
  function FindBySlug(rows: seq<Post>, slug: string, preview: bool, now: Time): (r: Result<Post, StoreError>)
    ensures r.Ok? ==> r.value in rows && r.value.slug == slug
    ensures r.Ok? && !preview ==> Visible(r.value, now)
    ensures r.Err? <==> |SlugMatches(rows, slug, preview, now)| != 1
    ensures (forall p :: p in rows ==> !SlugMatch(p, slug, preview, now)) ==> r == Err(NoSingleRow)
  {
    var m := SlugMatches(rows, slug, preview, now);
    if |m| == 1 then
      assert m[0] in m;
      Ok(m[0])
    else
      Err(NoSingleRow)
  }

  /**
   * The lookup `getPostBySlug` was written for (what `.maybeSingle()` gives): no row is
   * a null result, one row is the post, several are an error.
   */
  function LookupBySlug(rows: seq<Post>, slug: string, preview: bool, now: Time): (r: Result<Option<Post>, StoreError>)
    ensures r == Ok(None) <==> forall p :: p in rows ==> !SlugMatch(p, slug, preview, now)
    ensures r.Ok? && r.value.Some? ==> r.value.value in rows && SlugMatch(r.value.value, slug, preview, now)
    ensures r.Ok? && r.value.Some? ==> FindBySlug(rows, slug, preview, now) == Ok(r.value.value)
    ensures |SlugMatches(rows, slug, preview, now)| == 1 ==> r == Ok(Some(SlugMatches(rows, slug, preview, now)[0]))
    ensures |SlugMatches(rows, slug, preview, now)| > 1 ==> r == Err(NoSingleRow)
  {
    var m := SlugMatches(rows, slug, preview, now);
    if |m| == 0 then Ok(None)
    else if |m| == 1 then
      assert m[0] in m;
      Ok(Some(m[0]))
    else
      assert m[0] in m;
      Err(NoSingleRow)
  }

  // ---------------------------------------------------------------- findPublished

  /** `a` sorts before `b` in `ORDER BY x DESC` on a nullable column: nulls first, then larger first. */
  predicate NullsFirstDesc(a: Option<int>, b: Option<int>) {
    a.None? || (b.Some? && a.value >= b.value)
  }

  predicate NewestFirst(p: Post, q: Post) { NullsFirstDesc(p.publishedAt, q.publishedAt) }

  lemma NewestFirstIsTotalPreorder()
    ensures TotalPreorder(NewestFirst)
  {
  }

  predicate PublishedFilter(p: Post, featured: bool, preview: bool, now: Time) {
    (preview || Visible(p, now)) && (!featured || p.isFeatured)
  }

  function PublishedCandidates(rows: seq<Post>, featured: bool, preview: bool, now: Time): seq<Post> {
    Filter(rows, (p: Post) => PublishedFilter(p, featured, preview, now))
  }

  /**
   * `findPublished(limit, featured, preview)`: outside preview only visible posts,
   * with `featured` only featured ones, newest `published_at` first, at most `limit`.
   * A NaN (None) or negative limit is a rejected query.
   */
  function FindPublished(rows: seq<Post>, limit: Option<int>, featured: bool, preview: bool, now: Time)
    : (r: Result<seq<Post>, StoreError>)
    ensures r.Err? <==> limit.None? || limit.value < 0
  {
    if limit.None? || limit.value < 0 then Err(RangeRejected)
    else Ok(TopK(PublishedCandidates(rows, featured, preview, now), NewestFirst, limit.value))
  }

  /**
   * What `findPublished` returns: rows of the table; outside preview only visible ones;
   * with `featured` only featured ones; newest first; as many as match up to the limit;
   * and no matching row left out is newer than one returned.
   */
  lemma FindPublishedCorrect(rows: seq<Post>, limit: nat, featured: bool, preview: bool, now: Time)
    ensures var r := FindPublished(rows, Some(limit), featured, preview, now);
      var m := PublishedCandidates(rows, featured, preview, now);
      && r.Ok?
      && multiset(r.value) <= multiset(rows)
      && (forall p :: p in r.value ==> PublishedFilter(p, featured, preview, now))
      && (!preview ==> forall p :: p in r.value ==> Visible(p, now))
      && (featured ==> forall p :: p in r.value ==> p.isFeatured)
      && SortedBy(r.value, NewestFirst)
      && |r.value| == Min(limit, |m|)
      && (forall p, q :: p in r.value && q in multiset(m) - multiset(r.value) ==> NewestFirst(p, q))
  {
    var m := PublishedCandidates(rows, featured, preview, now);
    NewestFirstIsTotalPreorder();
    TopKCorrect(m, NewestFirst, limit);
    var t := TopK(m, NewestFirst, limit);
    forall p | p in t ensures p in m {
      assert p in multiset(t);
    }
  }

  /** In preview with no featured filter and a large enough limit, every row comes back, drafts included. */
  lemma PreviewListsEverything(rows: seq<Post>, limit: nat, now: Time)
    requires limit >= |rows|
    ensures var r := FindPublished(rows, Some(limit), false, true, now);
      r.Ok? && multiset(r.value) == multiset(rows)
  {
    var m := PublishedCandidates(rows, false, true, now);
    FilterAll(rows, (p: Post) => PublishedFilter(p, false, true, now));
    assert m == rows;
    NewestFirstIsTotalPreorder();
    SortCorrect(m, NewestFirst);
    var r := Sort(m, NewestFirst);
    assert |r| == |rows| by { assert |multiset(r)| == |multiset(rows)|; }
    assert TopK(m, NewestFirst, limit) == r;
  }

  lemma {:induction false} FilterAll<T(!new)>(s: seq<T>, keep: T -> bool)
    requires forall x :: keep(x)
    ensures Filter(s, keep) == s
  {
    if s != [] {
      FilterAll(s[1..], keep);
    }
  }

  // ---------------------------------------------------------------- ORDER BY a named column

  /** A column value as ORDER BY compares it: a number (ids, counters, times, booleans as 0/1) or a text. */
  datatype Key = Num(n: int) | Text(s: string)

  /** Numbers compare as numbers and texts in code-point order; one column never holds both kinds. */
  predicate KeyLe(a: Key, b: Key) {
    match (a, b)
    case (Num(x), Num(y)) => x <= y
    case (Text(x), Text(y)) => StrLe(x, y)
    case (Num(_), Text(_)) => true
    case (Text(_), Num(_)) => false
  }

  /** The `blog_posts` columns a listing can be ordered by. */
  datatype SortColumn =
    | IdColumn | TitleColumn | SlugColumn | ExcerptColumn | ContentColumn | ContentHtmlColumn
    | AuthorColumn | CategoryColumn | FeaturedImageColumn | StatusColumn | PublishedAtColumn
    | ScheduledAtColumn | AllowCommentsColumn | IsFeaturedColumn | IsStickyColumn
    | ViewsCountColumn | RevisionNumberColumn | CreatedAtColumn | UpdatedAtColumn

  /** The column a `sortBy` name denotes, None for a name the table does not have. */
  function SortColumnOf(name: string): Option<SortColumn> {
    if name == "id" then Some(IdColumn)
    else if name == "title" then Some(TitleColumn)
    else if name == "slug" then Some(SlugColumn)
    else if name == "excerpt" then Some(ExcerptColumn)
    else if name == "content" then Some(ContentColumn)
    else if name == "content_html" then Some(ContentHtmlColumn)
    else if name == "author" then Some(AuthorColumn)
    else if name == "category" then Some(CategoryColumn)
    else if name == "featured_image" then Some(FeaturedImageColumn)
    else if name == "status" then Some(StatusColumn)
    else if name == "published_at" then Some(PublishedAtColumn)
    else if name == "scheduled_at" then Some(ScheduledAtColumn)
    else if name == "allow_comments" then Some(AllowCommentsColumn)
    else if name == "is_featured" then Some(IsFeaturedColumn)
    else if name == "is_sticky" then Some(IsStickyColumn)
    else if name == "views_count" then Some(ViewsCountColumn)
    else if name == "revision_number" then Some(RevisionNumberColumn)
    else if name == "created_at" then Some(CreatedAtColumn)
    else if name == "updated_at" then Some(UpdatedAtColumn)
    else None
  }

  function NumKey(v: Option<int>): Option<Key> { if v.Some? then Some(Num(v.value)) else None }
  function CountKey(v: Option<nat>): Option<Key> { if v.Some? then Some(Num(v.value)) else None }
  function TextKey(v: Option<string>): Option<Key> { if v.Some? then Some(Text(v.value)) else None }
  function FlagKey(b: bool): Key { Num(if b then 1 else 0) }

  /** The value of a column in a row, None standing for SQL NULL. */
  function ColumnKey(p: Post, c: SortColumn): Option<Key> {
    match c
    case IdColumn => Some(Num(p.id))
    case TitleColumn => TextKey(p.title)
    case SlugColumn => Some(Text(p.slug))
    case ExcerptColumn => TextKey(p.excerpt)
    case ContentColumn => TextKey(p.content)
    case ContentHtmlColumn => TextKey(p.contentHtml)
    case AuthorColumn => Some(Text(p.author))
    case CategoryColumn => TextKey(p.category)
    case FeaturedImageColumn => TextKey(p.featuredImage)
    case StatusColumn => Some(Text(p.status))
    case PublishedAtColumn => NumKey(p.publishedAt)
    case ScheduledAtColumn => TextKey(p.scheduledAt)
    case AllowCommentsColumn => Some(FlagKey(p.allowComments))
    case IsFeaturedColumn => Some(FlagKey(p.isFeatured))
    case IsStickyColumn => Some(FlagKey(p.isSticky))
    case ViewsCountColumn => CountKey(p.viewsCount)
    case RevisionNumberColumn => CountKey(p.revisionNumber)
    case CreatedAtColumn => Some(Num(p.createdAt))
    case UpdatedAtColumn => NumKey(p.updatedAt)
  }

  /**
   * `p` may come before `q` under `.order(column, { ascending })`. PostgreSQL puts
   * NULLs last when ascending and first when descending.
   */
  predicate ColumnLe(c: SortColumn, ascending: bool, p: Post, q: Post) {
    NullableLe(ascending, ColumnKey(p, c), ColumnKey(q, c))
  }

  /** The order on nullable column values: NULL greatest, so last ascending and first descending. */
  predicate NullableLe(ascending: bool, a: Option<Key>, b: Option<Key>) {
    if ascending then b.None? || (a.Some? && KeyLe(a.value, b.value))
    else a.None? || (b.Some? && KeyLe(b.value, a.value))
  }

  lemma NullableLeTotal(ascending: bool, a: Option<Key>, b: Option<Key>)
    ensures NullableLe(ascending, a, b) || NullableLe(ascending, b, a)
  {
    if a.Some? && b.Some? && a.value.Text? && b.value.Text? {
      StrLeTotal(a.value.s, b.value.s);
    }
  }

  lemma NullableLeTransitive(ascending: bool, a: Option<Key>, b: Option<Key>, d: Option<Key>)
    requires NullableLe(ascending, a, b) && NullableLe(ascending, b, d)
    ensures NullableLe(ascending, a, d)
  {
    if a.Some? && b.Some? && d.Some? && a.value.Text? && b.value.Text? && d.value.Text? {
      if ascending {
        StrLeTransitive(a.value.s, b.value.s, d.value.s);
      } else {
        StrLeTransitive(d.value.s, b.value.s, a.value.s);
      }
    }
  }

  function RowOrder(c: SortColumn, ascending: bool): (Post, Post) -> bool {
    (p: Post, q: Post) => ColumnLe(c, ascending, p, q)
  }

  /** Every column order, either direction, is a total preorder, so sorting by it is well defined up to ties. */
  lemma RowOrderIsTotalPreorder(c: SortColumn, ascending: bool)
    ensures TotalPreorder(RowOrder(c, ascending))
  {
    var le := RowOrder(c, ascending);
    forall p, q ensures le(p, q) || le(q, p) {
      NullableLeTotal(ascending, ColumnKey(p, c), ColumnKey(q, c));
    }
    forall p, q, r | le(p, q) && le(q, r) ensures le(p, r) {
      NullableLeTransitive(ascending, ColumnKey(p, c), ColumnKey(q, c), ColumnKey(r, c));
    }
  }

  /** The public list's and the analytics' orders are the column orders on `published_at` and `views_count`, descending. */
  lemma NamedOrdersAreColumnOrders(p: Post, q: Post)
    ensures NewestFirst(p, q) == ColumnLe(PublishedAtColumn, false, p, q)
    ensures MostViewedFirst(p, q) == ColumnLe(ViewsCountColumn, false, p, q)
  {
  }

  // ---------------------------------------------------------------- findAll

  /** `ilike '%needle%'` on a nullable column, folding ASCII case; a null column never matches. */
  predicate ContainsFolded(hay: Option<string>, needle: string) {
    hay.Some? &&
    var h := FoldAscii(hay.value);
    var n := FoldAscii(needle);
    exists i :: 0 <= i <= |h| - |n| && OccursAt(h, n, i)
  }

  predicate OccursAt(h: string, n: string, i: int)
    requires 0 <= i <= |h| - |n|
  {
    h[i..i + |n|] == n
  }

  function FoldAscii(s: string): string {
    seq(|s|, i requires 0 <= i < |s| => if 'A' <= s[i] <= 'Z' then (s[i] as int + 32) as char else s[i])
  }

  /** The options `findAll` destructures. `page` and `limit` are numbers, None standing for NaN. */
  datatype FindAllOptions = FindAllOptions(
    page: Option<int>,
    limit: Option<int>,
    status: Field<string>,
    search: Field<string>,
    category: Field<string>,
    featured: Field<string>,
    sortBy: string,
    sortOrder: string)

  /** The conjunction of the filters `findAll` applies: status and category unless 'all', featured on 'true', search over three columns. */
  predicate AdminFilter(p: Post, o: FindAllOptions) {
    && (Truthy(o.status) && o.status.value != "all" ==> p.status == o.status.value)
    && (Truthy(o.category) && o.category.value != "all" ==> p.category == Some(o.category.value))
    && (o.featured == Val("true") ==> p.isFeatured)
    && (Truthy(o.search) ==>
          ContainsFolded(p.title, o.search.value) || ContainsFolded(p.content, o.search.value)
          || ContainsFolded(p.excerpt, o.search.value))
  }

  function Offset(page: int, limit: int): int { (page - 1) * limit }

  /** `Math.ceil(total / limit)` for a positive limit. */
  function TotalPages(total: nat, limit: nat): (n: nat)
    requires limit >= 1
  {
    (total + limit - 1) / limit
  }

  /** The page count is the least number of pages of `limit` rows that hold `total` rows. */
  lemma TotalPagesIsCeiling(total: nat, limit: nat)
    requires limit >= 1
    ensures TotalPages(total, limit) * limit >= total
    ensures TotalPages(total, limit) == 0 || (TotalPages(total, limit) - 1) * limit < total
  {
    var n := TotalPages(total, limit);
    var q := total + limit - 1;
    assert q == n * limit + q % limit;
    assert 0 <= q % limit < limit;
    assert n * limit >= total;
    if n > 0 {
      assert (n - 1) * limit == n * limit - limit;
    }
  }

  /**
   * Every page the pagination block advertises (page 1 and pages up to `totalPages`) starts
   * within the counted rows, and every page two or more beyond it starts past them.
   */
  lemma AdvertisedPagesInRange(total: nat, limit: nat, n: int)
    requires limit >= 1 && n >= 1
    ensures n == 1 || n <= TotalPages(total, limit) ==> Offset(n, limit) <= total
    ensures n >= TotalPages(total, limit) + 2 ==> Offset(n, limit) > total
  {
    var t := TotalPages(total, limit);
    TotalPagesIsCeiling(total, limit);
    if n <= t {
      MulMonotone(n - 1, t - 1, limit);
    }
    if n >= t + 2 {
      MulMonotone(t + 1, n - 1, limit);
      assert (t + 1) * limit == t * limit + limit;
    }
  }

  lemma MulMonotone(a: int, b: int, k: nat)
    requires a <= b
    ensures a * k <= b * k
  {
    assert b * k - a * k == (b - a) * k;
  }

  /** `.range(offset, offset + limit - 1)`: the rows from `offset` on, at most `limit` of them. */
  function PageOf<T>(s: seq<T>, page: int, limit: int): (r: seq<T>)
    requires page >= 1 && limit >= 1
    ensures |r| <= limit
  {
    var from := Offset(page, limit);
    if from >= |s| then [] else s[from..if from + limit <= |s| then from + limit else |s|]
  }

  /** The pagination block; `totalPages` is None where `Math.ceil(count / 0)` is Infinity or NaN (JSON null). */
  datatype Pagination = Pagination(page: int, limit: int, total: nat, totalPages: Option<nat>)
  datatype PostPage = PostPage(data: seq<Post>, pagination: Pagination)

  function Matching(rows: seq<Post>, o: FindAllOptions): seq<Post> {
    Filter(rows, (p: Post) => AdminFilter(p, o))
  }

  /** The order `findAll` asks for: `ascending` exactly when `sortOrder` is 'asc'. */
  function Requested(c: SortColumn, o: FindAllOptions): (Post, Post) -> bool {
    RowOrder(c, o.sortOrder == "asc")
  }

  /** The matching rows in the requested order. */
  function Ordered(rows: seq<Post>, o: FindAllOptions, c: SortColumn): seq<Post> {
    Sort(Matching(rows, o), Requested(c, o))
  }

  /**
   * `findAll`: filter, order, count, then cut one page with `.range(offset, offset + limit - 1)`.
   * A NaN page or limit, a negative limit, a negative offset (page below 1 with a positive
   * limit) and an unknown column are rejected queries, and so is an offset past the counted
   * rows: with `count: 'exact'` the database refuses such a range. A limit of 0 asks for no
   * row at offset 0: an empty page whose page count is not a number.
   */
  function FindAll(rows: seq<Post>, o: FindAllOptions): (r: Result<PostPage, StoreError>)
    ensures r.Err? <==> o.page.None? || o.limit.None? || o.limit.value < 0
                        || (o.limit.value > 0 && o.page.value < 1) || SortColumnOf(o.sortBy).None?
                        || (o.limit.value > 0 && Offset(o.page.value, o.limit.value) > |Matching(rows, o)|)
    ensures r.Ok? ==> |r.value.data| <= o.limit.value
    ensures r.Ok? ==> forall p :: p in r.value.data ==> p in rows && AdminFilter(p, o)
    ensures r.Ok? ==> r.value.pagination.total == |Matching(rows, o)|
    ensures r.Ok? ==> (r.value.pagination.totalPages.None? <==> o.limit.value == 0)
    ensures r.Ok? && o.limit.value == 0 ==> r.value.data == []
  {
    if o.page.None? || o.limit.None? || o.limit.value < 0 then Err(RangeRejected)
    else if o.limit.value > 0 && o.page.value < 1 then Err(RangeRejected)
    else if SortColumnOf(o.sortBy).None? then Err(ColumnRejected)
    else if o.limit.value > 0 && Offset(o.page.value, o.limit.value) > |Matching(rows, o)| then Err(RangeRejected)
    else
      var m := Ordered(rows, o, SortColumnOf(o.sortBy).value);
      OrderedRows(rows, o, SortColumnOf(o.sortBy).value);
      if o.limit.value == 0 then
        Ok(PostPage([], Pagination(o.page.value, 0, |m|, None)))
      else
        var data := PageOf(m, o.page.value, o.limit.value);
        assert forall p :: p in data ==> p in m;
        Ok(PostPage(data, Pagination(o.page.value, o.limit.value, |m|, Some(TotalPages(|m|, o.limit.value)))))
  }

  /** A limit of 0 is an empty page with the matches counted and no page count. */
  lemma FindAllLimitZero(rows: seq<Post>, o: FindAllOptions)
    requires o.page.Some? && o.limit == Some(0) && SortColumnOf(o.sortBy).Some?
    ensures FindAll(rows, o).Ok?
    ensures FindAll(rows, o).value.data == []
    ensures FindAll(rows, o).value.pagination.total == |Matching(rows, o)|
    ensures FindAll(rows, o).value.pagination.totalPages.None?
  {
  }

  /** Ordering keeps exactly the matching rows. */
  lemma OrderedRows(rows: seq<Post>, o: FindAllOptions, c: SortColumn)
    ensures multiset(Ordered(rows, o, c)) == multiset(Matching(rows, o))
    ensures |Ordered(rows, o, c)| == |Matching(rows, o)|
    ensures forall p :: p in Ordered(rows, o, c) ==> p in rows && AdminFilter(p, o)
  {
    var m := Matching(rows, o);
    var s := Ordered(rows, o, c);
    SortPermutes(m, Requested(c, o));
    assert |multiset(s)| == |multiset(m)|;
    forall p | p in s ensures p in rows && AdminFilter(p, o) {
      assert p in multiset(s);
      assert p in m;
    }
  }

  /** The rows `findAll` answers with: none for a limit of 0, otherwise one page of the ordered matches. */
  lemma FindAllData(rows: seq<Post>, o: FindAllOptions)
    requires FindAll(rows, o).Ok?
    ensures var s := Ordered(rows, o, SortColumnOf(o.sortBy).value);
      FindAll(rows, o).value.data == if o.limit.value == 0 then [] else PageOf(s, o.page.value, o.limit.value)
  {
  }

  /**
   * A page of `findAll` is in the requested order, is drawn from the matching rows, and
   * page 1 holds the first `limit` of them: no matching row left out sorts before one returned.
   */
  lemma FindAllCorrect(rows: seq<Post>, o: FindAllOptions)
    requires FindAll(rows, o).Ok?
    ensures SortColumnOf(o.sortBy).Some?
    ensures var r := FindAll(rows, o).value.data;
      var le := Requested(SortColumnOf(o.sortBy).value, o);
      var m := Matching(rows, o);
      && SortedBy(r, le)
      && multiset(r) <= multiset(m)
      && (o.page == Some(1) ==>
            |r| == Min(o.limit.value, |m|)
            && forall x, y :: x in r && y in multiset(m) - multiset(r) ==> le(x, y))
  {
    var c := SortColumnOf(o.sortBy).value;
    RowOrderIsTotalPreorder(c, o.sortOrder == "asc");
    FindAllData(rows, o);
    PageOfOrdered(Matching(rows, o), Requested(c, o), o.limit.value, o.page.value);
  }

  /**
   * The page `findAll` cuts from sorted rows: sorted, part of them, and on page 1 the
   * first `limit` rows of the order.
   */
  lemma PageOfOrdered<T(!new)>(m: seq<T>, le: (T, T) -> bool, k: int, page: int)
    requires TotalPreorder(le) && k >= 0 && (k > 0 ==> page >= 1)
    ensures var r := if k == 0 then [] else PageOf(Sort(m, le), page, k);
      && SortedBy(r, le)
      && multiset(r) <= multiset(m)
      && (page == 1 ==> |r| == Min(k, |m|) && forall x, y :: x in r && y in multiset(m) - multiset(r) ==> le(x, y))
  {
    SortCorrect(m, le);
    if k > 0 {
      PageSorted(Sort(m, le), le, page, k);
      if page == 1 {
        TopKCorrect(m, le, k);
        FirstPageIsTopK(m, le, k);
      }
    }
  }

  lemma PageSorted<T>(s: seq<T>, le: (T, T) -> bool, page: int, k: int)
    requires SortedBy(s, le) && page >= 1 && k >= 1
    ensures SortedBy(PageOf(s, page, k), le)
    ensures multiset(PageOf(s, page, k)) <= multiset(s)
  {
    var a := Offset(page, k);
    if a < |s| {
      var b := if a + k <= |s| then a + k else |s|;
      SortedSlice(s, le, a, b);
      assert PageOf(s, page, k) == s[a..b];
    } else {
      assert PageOf(s, page, k) == [];
    }
  }

  lemma FirstPageIsTopK<T>(m: seq<T>, le: (T, T) -> bool, k: int)
    requires k >= 1
    ensures PageOf(Sort(m, le), 1, k) == TopK(m, le, k)
  {
    assert Offset(1, k) == 0;
  }

  /** A slice of a sorted sequence is sorted and part of it. */
  lemma SortedSlice<T>(s: seq<T>, le: (T, T) -> bool, a: nat, b: nat)
    requires SortedBy(s, le) && a <= b <= |s|
    ensures SortedBy(s[a..b], le)
    ensures multiset(s[a..b]) <= multiset(s)
  {
    assert s == s[..a] + s[a..b] + s[b..];
    forall i, j | 0 <= i < j < b - a ensures le(s[a..b][i], s[a..b][j]) {
      assert s[a..b][i] == s[a + i] && s[a..b][j] == s[a + j];
    }
  }

  /** Pages 1..n laid end to end. */
  function Pages<T>(s: seq<T>, limit: nat, n: nat): seq<T>
    requires limit >= 1
  {
    if n == 0 then [] else Pages(s, limit, n - 1) + PageOf(s, n, limit)
  }

  lemma {:induction false} PagesArePrefix<T>(s: seq<T>, limit: nat, n: nat)
    requires limit >= 1
    ensures Pages(s, limit, n) == s[..if n * limit <= |s| then n * limit else |s|]
  {
    if n > 0 {
      PagesArePrefix(s, limit, n - 1);
      PagesStep(s, limit, n, (n - 1) * limit);
      assert n * limit == (n - 1) * limit + limit;
    }
  }

  /** One more page extends the prefix that ends at row `a` (the offset of page n) by `limit` rows. */
  lemma PagesStep<T>(s: seq<T>, limit: nat, n: nat, a: nat)
    requires limit >= 1 && n >= 1 && a == Offset(n, limit)
    requires Pages(s, limit, n - 1) == s[..if a <= |s| then a else |s|]
    ensures Pages(s, limit, n) == s[..if a + limit <= |s| then a + limit else |s|]
  {
    if a < |s| {
      var b := if a + limit <= |s| then a + limit else |s|;
      assert s[..a] + s[a..b] == s[..b];
    }
  }

  /** Pages 1 to totalPages, read in order, give back every matching row exactly once. */
  lemma PagesCoverAll<T>(s: seq<T>, limit: nat)
    requires limit >= 1
    ensures Pages(s, limit, TotalPages(|s|, limit)) == s
    ensures PageOf(s, TotalPages(|s|, limit) + 1, limit) == []
  {
    TotalPagesIsCeiling(|s|, limit);
    PagesArePrefix(s, limit, TotalPages(|s|, limit));
  }

  // ---------------------------------------------------------------- categories

  function NonNullCategories(rows: seq<Post>): (r: seq<string>)
    ensures forall c :: c in r <==> exists p :: p in rows && p.category == Some(c)
  {
    if rows == [] then []
    else
      var rest := NonNullCategories(rows[1..]);
      assert forall p :: p in rows <==> p == rows[0] || p in rows[1..];
      if rows[0].category.Some? then [rows[0].category.value] + rest else rest
  }

  ghost predicate Distinct<T>(s: seq<T>) {
    forall i, j :: 0 <= i < j < |s| ==> s[i] != s[j]
  }

  /** `[...new Set(s)]`: first occurrences, in order. */
  function Dedupe<T(==,!new)>(s: seq<T>): (r: seq<T>)
    ensures forall x :: x in r <==> x in s
    ensures Distinct(r)
  {
    if s == [] then []
    else
      var rest := Dedupe(s[..|s| - 1]);
      var last := s[|s| - 1];
      assert forall x :: x in s <==> x in s[..|s| - 1] || x == last;
      if last in rest then rest else rest + [last]
  }

  lemma {:induction false} DistinctMultiplicity<T>(s: seq<T>)
    requires Distinct(s)
    ensures forall x :: multiset(s)[x] <= 1
  {
    if s != [] {
      DistinctMultiplicity(s[1..]);
      assert s == [s[0]] + s[1..];
      assert s[0] !in s[1..];
    }
  }

  lemma {:induction false} MultiplicityDistinct<T>(s: seq<T>)
    requires forall x :: multiset(s)[x] <= 1
    ensures Distinct(s)
  {
    if s != [] {
      assert s == [s[0]] + s[1..];
      forall x ensures multiset(s[1..])[x] <= 1 {
        assert multiset(s)[x] == multiset(s[1..])[x] + (if x == s[0] then 1 else 0);
      }
      MultiplicityDistinct(s[1..]);
      assert multiset(s[1..])[s[0]] == 0;
      forall j | 0 < j < |s| ensures s[0] != s[j] {
        assert s[j] == s[1..][j - 1];
        assert s[j] in multiset(s[1..]);
      }
    }
  }

  /** `getCategories`: the distinct non-null categories, sorted. */
  function Categories(rows: seq<Post>): seq<string> {
    Sort(Dedupe(NonNullCategories(rows)), StrLe)
  }

  /** Each non-null category appears once, nothing else appears, and the list is in strictly increasing order. */
  lemma CategoriesCorrect(rows: seq<Post>)
    ensures forall c :: c in Categories(rows) <==> exists p :: p in rows && p.category == Some(c)
    ensures forall i, j :: 0 <= i < j < |Categories(rows)| ==>
      StrLe(Categories(rows)[i], Categories(rows)[j]) && Categories(rows)[i] != Categories(rows)[j]
  {
    var d := Dedupe(NonNullCategories(rows));
    StrLeIsTotalPreorder();
    SortCorrect(d, StrLe);
    var r := Sort(d, StrLe);
    forall c ensures c in r <==> c in d {
      assert c in r <==> c in multiset(r);
      assert c in d <==> c in multiset(d);
    }
    DistinctMultiplicity(d);
    MultiplicityDistinct(r);
  }

  // ---------------------------------------------------------------- analytics

  /** The rows `.eq('status', status)` selects. */
  function WithStatus(rows: seq<Post>, status: string): seq<Post> {
    Filter(rows, (p: Post) => p.status == status)
  }

  /** How many rows have the status, counted one row at a time. */
  function CountStatus(rows: seq<Post>, status: string): (n: nat)
    ensures n <= |rows|
    ensures n == |WithStatus(rows, status)|
  {
    if rows == [] then 0 else (if rows[0].status == status then 1 else 0) + CountStatus(rows[1..], status)
  }

  /** `reduce((sum, p) => sum + (p.views_count || 0), 0)`. */
  function TotalViews(rows: seq<Post>): nat {
    if rows == [] then 0 else Views(rows[0]) + TotalViews(rows[1..])
  }

  predicate MostViewedFirst(p: Post, q: Post) {
    NullsFirstDesc(if p.viewsCount.Some? then Some(p.viewsCount.value as int) else None,
                   if q.viewsCount.Some? then Some(q.viewsCount.value as int) else None)
  }

  lemma MostViewedFirstIsTotalPreorder()
    ensures TotalPreorder(MostViewedFirst)
  {
  }

  datatype TopPost = TopPost(title: Option<string>, slug: string, viewsCount: Option<nat>)

  datatype Analytics = Analytics(
    totalPosts: nat, publishedPosts: nat, draftPosts: nat, totalViews: nat, topPosts: seq<TopPost>)

  function Summary(p: Post): TopPost { TopPost(p.title, p.slug, p.viewsCount) }

  function Summaries(s: seq<Post>): (r: seq<TopPost>)
    ensures |r| == |s| && forall i :: 0 <= i < |s| ==> r[i] == Summary(s[i])
  {
    seq(|s|, i requires 0 <= i < |s| => Summary(s[i]))
  }

  function TopViewed(rows: seq<Post>): seq<Post> { TopK(rows, MostViewedFirst, 5) }

  /** `getAnalytics`: counts, the five most viewed posts (as title, slug, views) and the total of views. */
  function GetAnalytics(rows: seq<Post>): (a: Analytics)
    ensures a.totalPosts == |rows|
    ensures a.publishedPosts <= a.totalPosts && a.draftPosts <= a.totalPosts
    ensures a.publishedPosts == |WithStatus(rows, Published)| && a.draftPosts == |WithStatus(rows, Draft)|
    ensures a.totalViews == TotalViews(rows)
    ensures a.topPosts == Summaries(TopViewed(rows))
  {
    Analytics(|rows|, CountStatus(rows, Published), CountStatus(rows, Draft),
              TotalViews(rows), Summaries(TopViewed(rows)))
  }

  lemma {:induction false} PublishedAndDraftDisjoint(rows: seq<Post>)
    ensures CountStatus(rows, Published) + CountStatus(rows, Draft) <= |rows|
  {
    if rows != [] {
      PublishedAndDraftDisjoint(rows[1..]);
    }
  }

  /** Published and draft counts never add up to more than the total. */
  lemma AnalyticsCountsCorrect(rows: seq<Post>)
    ensures GetAnalytics(rows).publishedPosts + GetAnalytics(rows).draftPosts <= GetAnalytics(rows).totalPosts
  {
    PublishedAndDraftDisjoint(rows);
  }

  /** The top list has min(5, n) rows, most viewed first, and no row left out has more views than one listed. */
  lemma TopPostsCorrect(rows: seq<Post>)
    ensures |TopViewed(rows)| == Min(5, |rows|)
    ensures multiset(TopViewed(rows)) <= multiset(rows)
    ensures SortedBy(TopViewed(rows), MostViewedFirst)
    ensures forall p, q :: p in TopViewed(rows) && q in multiset(rows) - multiset(TopViewed(rows)) ==>
      MostViewedFirst(p, q)
  {
    MostViewedFirstIsTotalPreorder();
    TopKCorrect(rows, MostViewedFirst, 5);
  }

  /** Raising one row's view count by one raises the total by exactly one. */
  lemma {:induction false} TotalViewsBump(rows: seq<Post>, i: nat)
    requires i < |rows|
    ensures TotalViews(rows[i := rows[i].(viewsCount := Some(Views(rows[i]) + 1))]) == TotalViews(rows) + 1
  {
    if i > 0 {
      TotalViewsBump(rows[1..], i - 1);
      var b := rows[i].(viewsCount := Some(Views(rows[i]) + 1));
      assert rows[i := b][1..] == rows[1..][i - 1 := b];
    }
  }

  // ---------------------------------------------------------------- revisions

  predicate HigherNumberFirst(a: Revision, b: Revision) { a.revisionNumber >= b.revisionNumber }

  /** `getRevisions(postId)`: that post's revisions, highest number first. */
  function RevisionsOf(revs: seq<Revision>, postId: PostId): seq<Revision> {
    Sort(Filter(revs, (r: Revision) => r.postId == postId), HigherNumberFirst)
  }

  lemma RevisionsOfCorrect(revs: seq<Revision>, postId: PostId)
    ensures multiset(RevisionsOf(revs, postId)) == multiset(Filter(revs, (r: Revision) => r.postId == postId))
    ensures forall r :: r in RevisionsOf(revs, postId) <==> r in revs && r.postId == postId
    ensures SortedBy(RevisionsOf(revs, postId), HigherNumberFirst)
  {
    var m := Filter(revs, (r: Revision) => r.postId == postId);
    assert TotalPreorder(HigherNumberFirst);
    SortCorrect(m, HigherNumberFirst);
    forall r ensures r in RevisionsOf(revs, postId) <==> r in m {
      assert r in RevisionsOf(revs, postId) <==> r in multiset(RevisionsOf(revs, postId));
      assert r in m <==> r in multiset(m);
    }
  }
}
