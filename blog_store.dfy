/**
 * The write side of the blog store (server/models/Blog.js): the `blog_posts` and
 * `blog_revisions` tables as fields of a `Store`, and create, update, createRevision,
 * restoreRevision, incrementViews and delete as methods over them.
 *
 * A failing database write is a boolean parameter of the method that issues it; the
 * database's own id sequences are the `next…Id` fields.
 */
module BlogStore {
  import opened Wrappers
  import opened Slugs
  import opened BlogModel
  import opened BlogQueries

  /** `update`'s effect, as a relation between the tables before and after and the result. */
  ghost predicate UpdateOutcome(
    posts0: seq<Post>, revs0: seq<Revision>, nextRev0: RevisionId,
    id: PostId, body: PostBody, userId: Option<UserId>, now: Time, snapshotFails: bool, writeFails: bool,
    posts1: seq<Post>, revs1: seq<Revision>, r: Result<Post, StoreError>)
  {
    match IndexOfId(posts0, id)
    case None =>
      r == Err(NoSingleRow) && posts1 == posts0 && revs1 == revs0
    case Some(i) =>
      var cur := posts0[i];
      var next := Patched(cur, body, now);
      && revs1 == revs0 + (if ContentChanged(cur, body) && !snapshotFails
                           then [Snapshot(cur, body, userId, nextRev0, now)] else [])
      && (writeFails ==> r == Err(WriteRejected) && posts1 == posts0)
      && (!writeFails ==> r == Ok(next) && posts1 == posts0[i := next])
  }

  /** A view counter raised by one; nothing else of the row changes. */
  function Bumped(p: Post): (q: Post)
    ensures Views(q) == Views(p) + 1 && q.(viewsCount := p.viewsCount) == p
  {
    p.(viewsCount := Some(Views(p) + 1))
  }

  /** The tables' invariant: ids unique and below the sequences, each post's history ordered and bounded by its counter. */
  ghost predicate Consistent(posts: seq<Post>, revs: seq<Revision>, nextPost: PostId, nextRev: RevisionId) {
    && UniquePostIds(posts)
    && (forall i :: 0 <= i < |posts| ==> posts[i].id < nextPost)
    && (forall k, l :: 0 <= k < l < |revs| ==> revs[k].id != revs[l].id)
    && (forall k :: 0 <= k < |revs| ==> revs[k].id < nextRev && revs[k].postId < nextPost)
    && HistoryMonotone(revs)
    && HistoryBounded(posts, revs)
  }

  /** Writing `next` over row `i` keeps the tables consistent when `next`'s counter covers its revisions. */
  lemma PatchKeepsConsistent(posts: seq<Post>, revs: seq<Revision>, nextPost: PostId, nextRev: RevisionId,
                             i: nat, next: Post)
    requires Consistent(posts, revs, nextPost, nextRev)
    requires i < |posts| && next.id == posts[i].id && RevNum(posts[i]) <= RevNum(next)
    ensures Consistent(posts[i := next], revs, nextPost, nextRev)
  {
    var q := posts[i := next];
    forall j, k | 0 <= j < |q| && 0 <= k < |revs| && revs[k].postId == q[j].id
      ensures revs[k].revisionNumber <= RevNum(q[j]) + 1
    {
      if j == i {
        assert revs[k].revisionNumber <= RevNum(posts[i]) + 1;
      }
    }
  }

  /** In consistent tables, row `i` is the only row with its id, and a snapshot of it may be numbered one above its counter. */
  lemma SnapshotAdmissible(posts: seq<Post>, revs: seq<Revision>, nextPost: PostId, nextRev: RevisionId, i: nat)
    requires Consistent(posts, revs, nextPost, nextRev) && i < |posts|
    ensures posts[i].id < nextPost
    ensures forall j :: 0 <= j < |posts| && posts[j].id == posts[i].id ==> j == i
    ensures forall k :: 0 <= k < |revs| && revs[k].postId == posts[i].id ==>
      revs[k].revisionNumber <= RevNum(posts[i]) + 1
  {
  }

  /** Appending a revision numbered at least as high as its post's earlier ones keeps the history ordered. */
  lemma AppendKeepsMonotone(revs: seq<Revision>, rev: Revision)
    requires HistoryMonotone(revs)
    requires forall k :: 0 <= k < |revs| && revs[k].postId == rev.postId ==>
      revs[k].revisionNumber <= rev.revisionNumber
    ensures HistoryMonotone(revs + [rev])
  {
  }

  /**
   * A successful `update` keeps the strict history: the snapshot is numbered one above
   * the post's counter, which is above every earlier revision of the post, and the
   * write then raises the counter to that number.
   */
  lemma UpdateKeepsStrict(
    posts0: seq<Post>, revs0: seq<Revision>, nextRev0: RevisionId,
    id: PostId, body: PostBody, userId: Option<UserId>, now: Time, snapshotFails: bool,
    posts1: seq<Post>, revs1: seq<Revision>, r: Result<Post, StoreError>)
    requires UniquePostIds(posts0) && HistoryStrict(posts0, revs0)
    requires UpdateOutcome(posts0, revs0, nextRev0, id, body, userId, now, snapshotFails, false, posts1, revs1, r)
    ensures HistoryStrict(posts1, revs1)
  {
    match IndexOfId(posts0, id)
    case None =>
    case Some(i) =>
      var cur := posts0[i];
      var next := Patched(cur, body, now);
      PatchedRevisionNumber(cur, body, now);
      assert forall j :: 0 <= j < |posts0| && posts0[j].id == id ==> j == i;
      forall j, k | 0 <= j < |posts1| && 0 <= k < |revs1| && revs1[k].postId == posts1[j].id
        ensures revs1[k].revisionNumber <= RevNum(posts1[j])
      {
        if k < |revs0| {
          assert revs1[k] == revs0[k];
          if j != i {
            assert posts1[j] == posts0[j];
          }
        }
      }
  }

  /** Dropping row `i` keeps the tables consistent and removes exactly the rows with its id. */
  lemma RemoveKeepsConsistent(posts: seq<Post>, revs: seq<Revision>, nextPost: PostId, nextRev: RevisionId, i: nat)
    requires Consistent(posts, revs, nextPost, nextRev) && i < |posts|
    ensures Consistent(posts[..i] + posts[i + 1..], revs, nextPost, nextRev)
    ensures forall p :: p in posts[..i] + posts[i + 1..] <==> p in posts && p.id != posts[i].id
    ensures HistoryStrict(posts, revs) ==> HistoryStrict(posts[..i] + posts[i + 1..], revs)
  {
    var q := posts[..i] + posts[i + 1..];
    assert forall j :: 0 <= j < |q| ==> q[j] == posts[if j < i then j else j + 1];
    forall p | p in posts && p.id != posts[i].id
      ensures p in q
    {
      var j :| 0 <= j < |posts| && posts[j] == p;
      assert q[if j < i then j else j - 1] == p;
    }
  }

  /** Appending a row numbered with the next post id keeps the tables consistent, and a fresh slug keeps slugs unique. */
  lemma AppendKeepsConsistent(posts: seq<Post>, revs: seq<Revision>, nextPost: PostId, nextRev: RevisionId, p: Post)
    requires Consistent(posts, revs, nextPost, nextRev) && p.id == nextPost
    ensures Consistent(posts + [p], revs, nextPost + 1, nextRev)
    ensures UniqueSlugs(posts) && p.slug !in SlugSet(posts) ==> UniqueSlugs(posts + [p])
    ensures HistoryStrict(posts, revs) ==> HistoryStrict(posts + [p], revs)
  {
    var q := posts + [p];
    forall i, j | 0 <= i < j < |q| ensures q[i].id != q[j].id {
      assert q[i] == posts[i];
      if j < |posts| {
        assert q[j] == posts[j];
      }
    }
    forall i, k | 0 <= i < |q| && 0 <= k < |revs| && revs[k].postId == q[i].id
      ensures revs[k].revisionNumber <= RevNum(q[i]) + 1
    {
      assert i < |posts|;
      assert q[i] == posts[i];
    }
    AppendKeepsUniqueSlugs(posts, p);
    if HistoryStrict(posts, revs) {
      forall i, k | 0 <= i < |q| && 0 <= k < |revs| && revs[k].postId == q[i].id
        ensures revs[k].revisionNumber <= RevNum(q[i])
      {
        assert i < |posts|;
        assert q[i] == posts[i];
      }
    }
  }

  lemma AppendKeepsUniqueSlugs(posts: seq<Post>, p: Post)
    ensures UniqueSlugs(posts) && p.slug !in SlugSet(posts) ==> UniqueSlugs(posts + [p])
  {
    var q := posts + [p];
    if UniqueSlugs(posts) && p.slug !in SlugSet(posts) {
      forall i, j | 0 <= i < j < |q| ensures q[i].slug != q[j].slug {
        assert q[i] == posts[i];
        assert posts[i].slug in SlugSet(posts);
        if j < |posts| {
          assert q[j] == posts[j];
        }
      }
    }
  }

  /** Raising one post's view counter keeps the tables consistent. */
  lemma BumpKeepsConsistent(posts: seq<Post>, revs: seq<Revision>, nextPost: PostId, nextRev: RevisionId, i: nat)
    requires Consistent(posts, revs, nextPost, nextRev) && i < |posts|
    ensures Consistent(posts[i := Bumped(posts[i])], revs, nextPost, nextRev)
    ensures HistoryStrict(posts, revs) ==> HistoryStrict(posts[i := Bumped(posts[i])], revs)
  {
    var q := posts[i := Bumped(posts[i])];
    assert forall j :: 0 <= j < |q| ==> q[j].id == posts[j].id && RevNum(q[j]) == RevNum(posts[j]);
  }

  /** `UpdateOutcome` for a post found at row `i`, stated through its parts. */
  lemma UpdateOutcomeIntro(
    posts0: seq<Post>, revs0: seq<Revision>, nextRev0: RevisionId,
    id: PostId, body: PostBody, userId: Option<UserId>, now: Time, snapshotFails: bool, writeFails: bool,
    posts1: seq<Post>, revs1: seq<Revision>, r: Result<Post, StoreError>, i: nat)
    requires IndexOfId(posts0, id) == Some(i)
    requires revs1 == revs0 + (if ContentChanged(posts0[i], body) && !snapshotFails
                               then [Snapshot(posts0[i], body, userId, nextRev0, now)] else [])
    requires writeFails ==> r == Err(WriteRejected) && posts1 == posts0
    requires !writeFails ==> r == Ok(Patched(posts0[i], body, now)) && posts1 == posts0[i := Patched(posts0[i], body, now)]
    ensures UpdateOutcome(posts0, revs0, nextRev0, id, body, userId, now, snapshotFails, writeFails, posts1, revs1, r)
  {
  }

  function IndexOfRevision(revs: seq<Revision>, id: RevisionId): (r: Option<nat>)
    ensures r.Some? ==> r.value < |revs| && revs[r.value].id == id
    ensures r.None? <==> forall k :: 0 <= k < |revs| ==> revs[k].id != id
  {
    if revs == [] then None
    else if revs[0].id == id then Some(0)
    else
      var r := IndexOfRevision(revs[1..], id);
      assert forall k :: 1 <= k < |revs| ==> revs[k] == revs[1..][k - 1];
      if r.Some? then Some(r.value + 1) else None
  }

  class Store {
    var posts: seq<Post>
    var revisions: seq<Revision>
    var nextPostId: PostId
    var nextRevisionId: RevisionId

    /** Ids are unique and below the sequences; each post's history is ordered and bounded by its counter. */
    ghost predicate Valid()
      reads this
    {
      Consistent(posts, revisions, nextPostId, nextRevisionId)
    }

    constructor ()
      ensures Valid() && posts == [] && revisions == []
    {
      posts := [];
      revisions := [];
      nextPostId := 0;
      nextRevisionId := 0;
    }

    /**
     * `create`: derive or take the slug, probe for a free one, insert the row.
     * The new post's slug is the least free candidate, so unique slugs stay unique.
     */
    method Create(body: PostBody, now: Time, insertFails: bool) returns (r: Result<Post, StoreError>)
      requires Valid()
      modifies this
      ensures Valid()
      ensures revisions == old(revisions) && nextRevisionId == old(nextRevisionId)
      ensures SlugBase(body).Err? ==> r == Err(SlugBase(body).error) && posts == old(posts)
      ensures SlugBase(body).Ok? && insertFails ==> r == Err(WriteRejected) && posts == old(posts)
      ensures SlugBase(body).Ok? && !insertFails ==>
        && r.Ok? && posts == old(posts) + [r.value]
        && r.value == NewRow(body, old(nextPostId), r.value.slug, now)
        && ProbedFrom(SlugBase(body).value, SlugSet(old(posts)), r.value.slug)
      ensures UniqueSlugs(old(posts)) ==> UniqueSlugs(posts)
      ensures HistoryStrict(old(posts), old(revisions)) ==> HistoryStrict(posts, revisions)
    {
      var base := SlugBase(body);
      if base.Err? {
        return Err(base.error);
      }
      var slug, suffix := ProbeSlug(base.value, SlugSet(posts));
      if insertFails {
        return Err(WriteRejected);
      }
      var p := NewRow(body, nextPostId, slug, now);
      AppendKeepsConsistent(posts, revisions, nextPostId, nextRevisionId, p);
      posts := posts + [p];
      nextPostId := nextPostId + 1;
      r := Ok(p);
    }

    /** `createRevision`: insert a snapshot row; a failed insert is logged, not raised, and yields null. */
    method CreateRevision(postId: PostId, title: Option<string>, content: Option<string>,
                          contentHtml: Option<string>, revisionNumber: nat, changedBy: Option<UserId>,
                          changeSummary: Option<string>, now: Time, insertFails: bool)
      returns (r: Option<Revision>)
      requires Valid()
      requires postId < nextPostId
      requires forall k :: 0 <= k < |revisions| && revisions[k].postId == postId ==>
        revisions[k].revisionNumber <= revisionNumber
      requires forall i :: 0 <= i < |posts| && posts[i].id == postId ==> revisionNumber <= RevNum(posts[i]) + 1
      modifies this
      ensures Valid()
      ensures posts == old(posts) && nextPostId == old(nextPostId)
      ensures insertFails ==> r == None && revisions == old(revisions) && nextRevisionId == old(nextRevisionId)
      ensures !insertFails ==>
        var rev := Revision(old(nextRevisionId), postId, title, content, contentHtml, revisionNumber,
                            changedBy, changeSummary, now);
        r == Some(rev) && revisions == old(revisions) + [rev]
    {
      if insertFails {
        return None;
      }
      var rev := Revision(nextRevisionId, postId, title, content, contentHtml, revisionNumber,
                          changedBy, changeSummary, now);
      AppendKeepsMonotone(revisions, rev);
      revisions := revisions + [rev];
      nextRevisionId := nextRevisionId + 1;
      r := Some(rev);
    }

    /** The first step of `update`: when the content changes, save row `i` as it was as a revision. */
    method SnapshotIfChanged(i: nat, body: PostBody, userId: Option<UserId>, now: Time, snapshotFails: bool)
      requires Valid() && i < |posts|
      modifies this
      ensures Valid()
      ensures posts == old(posts) && nextPostId == old(nextPostId)
      ensures revisions == old(revisions) + (if ContentChanged(posts[i], body) && !snapshotFails
                                             then [Snapshot(posts[i], body, userId, old(nextRevisionId), now)] else [])
    {
      var cur := posts[i];
      SnapshotAdmissible(posts, revisions, nextPostId, nextRevisionId, i);
      if ContentChanged(cur, body) {
        var _ := CreateRevision(cur.id, cur.title, cur.content, cur.contentHtml, RevNum(cur) + 1,
                                userId, Column(body.changeSummary), now, snapshotFails);
      }
    }

    /**
     * `update`: read the post, snapshot it when the content changes, then write the
     * partial update. The snapshot and the write are separate: a failed snapshot does
     * not stop the write, and a failed write does not undo the snapshot.
     */
    method Update(id: PostId, body: PostBody, userId: Option<UserId>, now: Time,
                  snapshotFails: bool, writeFails: bool) returns (r: Result<Post, StoreError>)
      requires Valid()
      modifies this
      ensures Valid()
      ensures nextPostId == old(nextPostId)
      ensures UpdateOutcome(old(posts), old(revisions), old(nextRevisionId), id, body, userId, now,
                            snapshotFails, writeFails, posts, revisions, r)
      ensures !writeFails && HistoryStrict(old(posts), old(revisions)) ==> HistoryStrict(posts, revisions)
    {
      ghost var posts0, revs0, nextRev0 := posts, revisions, nextRevisionId;
      var found := FindById(posts, id);
      if found.Err? {
        return Err(found.error);
      }
      var cur := found.value;
      var i := IndexOfId(posts, id).value;
      assert cur == posts[i];
      SnapshotIfChanged(i, body, userId, now, snapshotFails);
      if writeFails {
        r := Err(WriteRejected);
        UpdateOutcomeIntro(posts0, revs0, nextRev0, id, body, userId, now, snapshotFails, writeFails,
                           posts, revisions, r, i);
        return;
      }
      var next := Patched(cur, body, now);
      PatchedRevisionNumber(cur, body, now);
      PatchKeepsConsistent(posts, revisions, nextPostId, nextRevisionId, i, next);
      posts := posts[i := next];
      r := Ok(next);
      UpdateOutcomeIntro(posts0, revs0, nextRev0, id, body, userId, now, snapshotFails, writeFails,
                         posts, revisions, r, i);
      if HistoryStrict(posts0, revs0) {
        UpdateKeepsStrict(posts0, revs0, nextRev0, id, body, userId, now, snapshotFails, posts, revisions, r);
      }
    }

    /**
     * `restoreRevision`: look the revision up by id alone (its post is not checked) and
     * run `update` on `postId` with its title, content and content_html, with no user.
     */
    method RestoreRevision(postId: PostId, revisionId: RevisionId, now: Time,
                           snapshotFails: bool, writeFails: bool) returns (r: Result<Post, StoreError>)
      requires Valid()
      modifies this
      ensures Valid()
      ensures IndexOfRevision(old(revisions), revisionId).None? ==>
        r == Err(RevisionNotFound) && posts == old(posts) && revisions == old(revisions)
      ensures IndexOfRevision(old(revisions), revisionId).Some? ==>
        var rev := old(revisions)[IndexOfRevision(old(revisions), revisionId).value];
        UpdateOutcome(old(posts), old(revisions), old(nextRevisionId), postId, RestoreBody(rev), None, now,
                      snapshotFails, writeFails, posts, revisions, r)
    {
      var k := IndexOfRevision(revisions, revisionId);
      if k.None? {
        return Err(RevisionNotFound);
      }
      r := Update(postId, RestoreBody(revisions[k.value]), None, now, snapshotFails, writeFails);
    }

    /**
     * `incrementViews`: read the counter, write it back plus one. A failed read returns
     * silently, and so does a failed write (its result is never inspected).
     */
    method IncrementViews(id: PostId, writeFails: bool)
      requires Valid()
      modifies this
      ensures Valid()
      ensures revisions == old(revisions) && nextPostId == old(nextPostId) && nextRevisionId == old(nextRevisionId)
      ensures IndexOfId(old(posts), id).None? || writeFails ==> posts == old(posts)
      ensures IndexOfId(old(posts), id).Some? && !writeFails ==>
        var i := IndexOfId(old(posts), id).value;
        posts == old(posts)[i := Bumped(old(posts)[i])]
      ensures HistoryStrict(old(posts), old(revisions)) ==> HistoryStrict(posts, revisions)
    {
      var found := FindById(posts, id);
      if found.Err? {
        return;
      }
      if writeFails {
        return;
      }
      var i := IndexOfId(posts, id).value;
      BumpKeepsConsistent(posts, revisions, nextPostId, nextRevisionId, i);
      posts := posts[i := Bumped(posts[i])];
    }

    /** `delete`: remove the row with the id, if any; its revisions stay behind. */
    method DeletePost(id: PostId, writeFails: bool) returns (r: Result<bool, StoreError>)
      requires Valid()
      modifies this
      ensures Valid()
      ensures revisions == old(revisions) && nextPostId == old(nextPostId) && nextRevisionId == old(nextRevisionId)
      ensures writeFails ==> r == Err(WriteRejected) && posts == old(posts)
      ensures !writeFails ==> r == Ok(true) && forall p :: p in posts <==> p in old(posts) && p.id != id
      ensures !writeFails && IndexOfId(old(posts), id).Some? ==>
        var i := IndexOfId(old(posts), id).value;
        posts == old(posts)[..i] + old(posts)[i + 1..]
      ensures !writeFails && IndexOfId(old(posts), id).None? ==> posts == old(posts)
      ensures HistoryStrict(old(posts), old(revisions)) ==> HistoryStrict(posts, revisions)
    {
      if writeFails {
        return Err(WriteRejected);
      }
      var k := IndexOfId(posts, id);
      if k.Some? {
        var i := k.value;
        RemoveKeepsConsistent(posts, revisions, nextPostId, nextRevisionId, i);
        posts := posts[..i] + posts[i + 1..];
      }
      r := Ok(true);
    }
  }
}
