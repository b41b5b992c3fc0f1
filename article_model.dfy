/** The article records of server/src/models/article.model.ts and the pure parts of
    server/src/repository/article/article.repository.ts: the record changes its update
    queries make, and the three aggregation reads (the author's list, the single-article
    view and the preference feed). */
module ArticleModel {
  import opened Common

  /** One stored article. `likes`, `dislikes` and `blocks` are arrays in the database, but
      the repository only ever changes them with `$addToSet` and `$pull`, so they never hold
      an identity twice: sets of identities describe them exactly. */
  datatype Article = Article(
    id: ArticleId,
    accountId: UserId,
    articleName: string,
    description: string,
    category: seq<string>,
    images: seq<string>,
    likes: set<UserId>,
    dislikes: set<UserId>,
    blocks: set<UserId>,
    isDeleted: bool,
    createdAt: int)

  /** The content an author supplies when creating or editing an article (IUpdatedArticle);
      images are the URLs the image host returned. */
  datatype ArticleData = ArticleData(
    articleName: string, description: string, category: seq<string>, images: seq<string>)

  datatype Reaction = Like | Dislike

  /** What the read queries project: the counts of the identity sets instead of the identities. */
  datatype ArticleSummary = ArticleSummary(
    id: ArticleId,
    accountId: UserId,
    articleName: string,
    description: string,
    category: seq<string>,
    images: seq<string>,
    likesCount: nat,
    dislikesCount: nat,
    blockCount: nat)

  /** The single-article view: the summary plus the viewer's own reaction. */
  datatype ArticleDetail = ArticleDetail(summary: ArticleSummary, isLiked: bool, isDisliked: bool)

  // ---------------------------------------------------------------------------------
  // The store invariant.

  /** No user both likes and dislikes an article. */
  predicate Exclusive(a: Article) {
    a.likes !! a.dislikes
  }

  predicate AllExclusive(docs: seq<Article>) {
    forall k :: 0 <= k < |docs| ==> Exclusive(docs[k])
  }

  // ---------------------------------------------------------------------------------
  // Record changes made by the repository's update queries.

  /** The record `addArticle` creates (article.repository.ts:13-18): empty identity sets,
      not deleted. */
  function NewArticle(id: ArticleId, author: UserId, data: ArticleData, createdAt: int): (a: Article)
    ensures a.id == id && a.accountId == author && !a.isDeleted
    ensures a.articleName == data.articleName && a.description == data.description
    ensures a.category == data.category && a.images == data.images && a.createdAt == createdAt
    ensures a.likes == {} && a.dislikes == {} && a.blocks == {}
    ensures Exclusive(a)
  {
    Article(id, author, data.articleName, data.description, data.category, data.images,
            {}, {}, {}, false, createdAt)
  }

  /** `$addToSet: { blocks: user }` (article.repository.ts:139-142). */
  function Blocked(a: Article, user: UserId): (r: Article)
    ensures r.blocks == a.blocks + {user}
    ensures r.(blocks := a.blocks) == a
    ensures r == a <==> user in a.blocks
  {
    a.(blocks := a.blocks + {user})
  }

  /** `$set: { is_deleted: true }` (article.repository.ts:152): the record is kept. */
  function Deleted(a: Article): (r: Article)
    ensures r.isDeleted
    ensures r.(isDeleted := a.isDeleted) == a
    ensures r == a <==> a.isDeleted
  {
    a.(isDeleted := true)
  }

  /** The single update of `reactToArticle` (article.repository.ts:166-182): add the user
      to the reaction's set and, when `undoOther` holds, pull them from the opposite set. */
  function Reacted(a: Article, user: UserId, reaction: Reaction, undoOther: bool): (r: Article)
    ensures reaction == Like ==> user in r.likes && (undoOther ==> user !in r.dislikes)
    ensures reaction == Dislike ==> user in r.dislikes && (undoOther ==> user !in r.likes)
    ensures reaction == Like && !undoOther ==> r.dislikes == a.dislikes
    ensures reaction == Dislike && !undoOther ==> r.likes == a.likes
    ensures forall v :: v != user ==> (v in r.likes <==> v in a.likes) && (v in r.dislikes <==> v in a.dislikes)
    ensures r.(likes := a.likes, dislikes := a.dislikes) == a
  {
    match reaction
    case Like =>
      a.(likes := a.likes + {user}, dislikes := if undoOther then a.dislikes - {user} else a.dislikes)
    case Dislike =>
      a.(dislikes := a.dislikes + {user}, likes := if undoOther then a.likes - {user} else a.likes)
  }

  /** The `$set` of `updateArticle` (article.repository.ts:192-206): name, description and
      category always; the image list only when the new one is non-empty. */
  function Edited(a: Article, data: ArticleData): (r: Article)
    ensures r.articleName == data.articleName && r.description == data.description
    ensures r.category == data.category
    ensures r.images == (if data.images == [] then a.images else data.images)
    ensures r.id == a.id && r.accountId == a.accountId && r.createdAt == a.createdAt
    ensures r.likes == a.likes && r.dislikes == a.dislikes && r.blocks == a.blocks
    ensures r.isDeleted == a.isDeleted
  {
    var r := a.(articleName := data.articleName, description := data.description,
                 category := data.category);
    if |data.images| > 0 then r.(images := data.images) else r
  }

  // ---------------------------------------------------------------------------------
  // Looking records up by id (`findById`, `updateOne({ _id })`): the first match.

  function IndexOfId(docs: seq<Article>, id: ArticleId): (r: Option<nat>)
    ensures r.None? <==> forall k :: 0 <= k < |docs| ==> docs[k].id != id
    ensures r.Some? ==> r.value < |docs| && docs[r.value].id == id
    ensures r.Some? ==> forall k :: 0 <= k < r.value ==> docs[k].id != id
  {
    FirstIndex(docs, (a: Article) => a.id == id)
  }

  /** `findById` (article.repository.ts:55-64, base.repository.ts:17-19). */
  function FindById(docs: seq<Article>, id: ArticleId): (r: Option<Article>)
    ensures r.None? <==> forall k :: 0 <= k < |docs| ==> docs[k].id != id
    ensures r.Some? ==> r.value in docs && r.value.id == id
  {
    match IndexOfId(docs, id)
    case None => None
    case Some(k) => Some(docs[k])
  }

  /** `updateOne({ _id: id }, …)`: the first record with that id is replaced by its changed
      version; nothing else changes, and an unknown id changes nothing. */
  function UpdatedById(docs: seq<Article>, id: ArticleId, change: Article -> Article): (r: seq<Article>)
    ensures |r| == |docs|
    ensures IndexOfId(docs, id).None? ==> r == docs
    ensures IndexOfId(docs, id).Some? ==>
              var k := IndexOfId(docs, id).value; r == docs[k := change(docs[k])]
  {
    match IndexOfId(docs, id)
    case None => docs
    case Some(k) => docs[k := change(docs[k])]
  }

  // ---------------------------------------------------------------------------------
  // The aggregation reads.

  /** The `$project` stage shared by the three reads: counts replace the identity sets. */
  function Summarize(a: Article): ArticleSummary {
    ArticleSummary(a.id, a.accountId, a.articleName, a.description, a.category, a.images,
                   |a.likes|, |a.dislikes|, |a.blocks|)
  }

  function SummarizeAll(docs: seq<Article>): (r: seq<ArticleSummary>)
    ensures |r| == |docs|
    ensures forall k :: 0 <= k < |r| ==> r[k] == Summarize(docs[k])
  {
    seq(|docs|, k requires 0 <= k < |docs| => Summarize(docs[k]))
  }

  /** A `$match` stage: the records satisfying `p`, in store order. */
  function Filter(docs: seq<Article>, p: Article -> bool): (r: seq<Article>)
    ensures |r| <= |docs|
    ensures forall a :: multiset(r)[a] == if p(a) then multiset(docs)[a] else 0
    ensures forall k :: 0 <= k < |r| ==> p(r[k]) && r[k] in docs
  {
    if docs == [] then []
    else
      var rest := Filter(docs[1..], p);
      assert docs == [docs[0]] + docs[1..];
      if p(docs[0]) then [docs[0]] + rest else rest
  }

  /** `getArticlesByUserId` (article.repository.ts:25-53): every record of the author,
      deleted ones included, in store order. */
  function ArticlesByAuthor(docs: seq<Article>, author: UserId): (r: seq<ArticleSummary>)
    ensures forall k :: 0 <= k < |r| ==>
              exists a :: a in docs && a.accountId == author && r[k] == Summarize(a)
    ensures forall a :: a in docs && a.accountId == author ==> Summarize(a) in r
  {
    var mine := Filter(docs, (a: Article) => a.accountId == author);
    var r := SummarizeAll(mine);
    assert forall a :: a in docs && a.accountId == author ==> a in mine && Summarize(a) in r by {
      forall a | a in docs && a.accountId == author
        ensures a in mine && Summarize(a) in r
      {
        assert multiset(mine)[a] == multiset(docs)[a] > 0;
        var k :| 0 <= k < |mine| && mine[k] == a;
        assert r[k] == Summarize(a);
      }
    }
    r
  }

  /** `getAggregatedArticleById` (article.repository.ts:66-98): the record with that id
      whatever its deleted or blocked state, with the viewer's reaction, or null. */
  function AggregatedArticleById(docs: seq<Article>, viewer: UserId, id: ArticleId): (r: Option<ArticleDetail>)
    ensures r.None? <==> forall k :: 0 <= k < |docs| ==> docs[k].id != id
    ensures r.Some? ==>
              exists a :: && a in docs && a.id == id
                          && r.value.summary == Summarize(a)
                          && (r.value.isLiked <==> viewer in a.likes)
                          && (r.value.isDisliked <==> viewer in a.dislikes)
  {
    match FindById(docs, id)
    case None => None
    case Some(a) => Some(ArticleDetail(Summarize(a), viewer in a.likes, viewer in a.dislikes))
  }

  /** The `$match` of `fetchPreferredArticle` (article.repository.ts:105-109): not deleted,
      some category among the viewer's preferences, and not blocked by the viewer. */
  predicate InFeed(a: Article, viewer: UserId, preferences: seq<string>) {
    && !a.isDeleted
    && (exists c :: c in a.category && c in preferences)
    && viewer !in a.blocks
  }

  /** Newest first: `createdAt` never increases along the sequence. */
  predicate NewestFirst(s: seq<Article>) {
    forall i, j :: 0 <= i < j < |s| ==> s[i].createdAt >= s[j].createdAt
  }

  /** A record no older than the head of a newest-first sequence can be put in front. */
  lemma PrependNewest(x: Article, t: seq<Article>)
    requires NewestFirst(t) && (t == [] || x.createdAt >= t[0].createdAt)
    ensures NewestFirst([x] + t)
  {
    var r := [x] + t;
    forall i, j | 0 <= i < j < |r|
      ensures r[i].createdAt >= r[j].createdAt
    {
      assert r[j] == t[j - 1];
      if i > 0 {
        assert r[i] == t[i - 1];
      } else if j > 1 {
        assert t[0].createdAt >= t[j - 1].createdAt;
      }
    }
  }

  /** Inserts `a` into a newest-first sequence, before the records no newer than it. */
  function InsertByDate(a: Article, s: seq<Article>): (r: seq<Article>)
    requires NewestFirst(s)
    ensures NewestFirst(r)
    ensures multiset(r) == multiset(s) + multiset{a}
    ensures |r| == |s| + 1 && (r[0] == a || (|s| > 0 && r[0] == s[0]))
  {
    if s == [] || a.createdAt >= s[0].createdAt then
      PrependNewest(a, s);
      [a] + s
    else
      assert s == [s[0]] + s[1..];
      assert NewestFirst(s[1..]);
      var rest := InsertByDate(a, s[1..]);
      PrependNewest(s[0], rest);
      [s[0]] + rest
  }

  /** The `$sort: { createdAt: -1 }` stage. The database leaves ties in any order; this
      one keeps them in store order. */
  function SortNewestFirst(s: seq<Article>): (r: seq<Article>)
    ensures NewestFirst(r)
    ensures multiset(r) == multiset(s)
  {
    if s == [] then []
    else
      assert s == [s[0]] + s[1..];
      InsertByDate(s[0], SortNewestFirst(s[1..]))
  }

  /** The records of the feed before projection: matched, then sorted. */
  function FeedRecords(docs: seq<Article>, viewer: UserId, preferences: seq<string>): seq<Article> {
    SortNewestFirst(Filter(docs, (a: Article) => InFeed(a, viewer, preferences)))
  }

  /** `fetchPreferredArticle` (article.repository.ts:100-135): match, sort, project. */
  function PreferredArticles(docs: seq<Article>, viewer: UserId, preferences: seq<string>): (r: seq<ArticleSummary>)
    ensures |r| == |FeedRecords(docs, viewer, preferences)|
    ensures forall k :: 0 <= k < |r| ==> r[k] == Summarize(FeedRecords(docs, viewer, preferences)[k])
  {
    SummarizeAll(FeedRecords(docs, viewer, preferences))
  }

  // ---------------------------------------------------------------------------------
  // Properties of the feed.

  /** The feed holds exactly the visible records, each as often as it is stored. */
  lemma FeedIsExactlyVisible(docs: seq<Article>, viewer: UserId, preferences: seq<string>)
    ensures forall a :: multiset(FeedRecords(docs, viewer, preferences))[a]
                        == if InFeed(a, viewer, preferences) then multiset(docs)[a] else 0
    ensures forall a :: a in FeedRecords(docs, viewer, preferences)
                        <==> a in docs && InFeed(a, viewer, preferences)
  {
    var matched := Filter(docs, (a: Article) => InFeed(a, viewer, preferences));
    assert multiset(FeedRecords(docs, viewer, preferences)) == multiset(matched);
  }

  /** Every feed entry is the projection of a record that is not deleted, shares a category
      with the viewer's preferences and is not blocked by the viewer; the entries run
      newest first. */
  lemma FeedEntriesAreVisible(docs: seq<Article>, viewer: UserId, preferences: seq<string>)
    ensures var r := PreferredArticles(docs, viewer, preferences);
            var recs := FeedRecords(docs, viewer, preferences);
            && (forall k :: 0 <= k < |r| ==>
                  && recs[k] in docs && r[k] == Summarize(recs[k])
                  && !recs[k].isDeleted && viewer !in recs[k].blocks
                  && (exists c :: c in recs[k].category && c in preferences))
            && (forall i, j :: 0 <= i < j < |r| ==> recs[i].createdAt >= recs[j].createdAt)
  {
    FeedIsExactlyVisible(docs, viewer, preferences);
    var recs := FeedRecords(docs, viewer, preferences);
    forall k | 0 <= k < |recs|
      ensures recs[k] in docs && InFeed(recs[k], viewer, preferences)
    {
      assert recs[k] in recs;
    }
  }

  /** Every visible record appears in the feed. */
  lemma FeedIsComplete(docs: seq<Article>, viewer: UserId, preferences: seq<string>, a: Article)
    requires a in docs && InFeed(a, viewer, preferences)
    ensures Summarize(a) in PreferredArticles(docs, viewer, preferences)
  {
    FeedIsExactlyVisible(docs, viewer, preferences);
    var recs := FeedRecords(docs, viewer, preferences);
    var k :| 0 <= k < |recs| && recs[k] == a;
    assert PreferredArticles(docs, viewer, preferences)[k] == Summarize(a);
  }

  /** A viewer with no preferences sees an empty feed. */
  lemma NoPreferencesNoFeed(docs: seq<Article>, viewer: UserId)
    ensures PreferredArticles(docs, viewer, []) == []
  {
    FeedIsExactlyVisible(docs, viewer, []);
  }

  /** Under the store invariant, the single-article view never reports both flags. */
  lemma DetailFlagsExclusive(docs: seq<Article>, viewer: UserId, id: ArticleId)
    requires AllExclusive(docs)
    ensures var r := AggregatedArticleById(docs, viewer, id);
            r.Some? ==> !(r.value.isLiked && r.value.isDisliked)
  {
    match IndexOfId(docs, id)
    case None =>
    case Some(k) =>
      assert Exclusive(docs[k]);
  }
}
