/** The article service of server/dist/services/article/article.service.js: the reaction
    resolver (read, reject a repeated reaction, one update), block, soft delete, edit, and
    the reads that forward the repository's aggregations. Key renaming of the results
    (camelCase) is not modelled: the service returns the repository's records as they are. */
module ArticleSvc {
  import opened Common
  import opened ArticleModel
  import opened ArticleRepo
  import opened UserRepo

  /** The user already holds the requested reaction (article.service.js:141-144). */
  predicate AlreadyReacted(a: Article, user: UserId, reaction: Reaction) {
    || (reaction == Like && user in a.likes)
    || (reaction == Dislike && user in a.dislikes)
  }

  /** The `undoOther` flag the service passes (article.service.js:153): whether the user
      holds the opposite reaction. */
  function UndoOther(a: Article, user: UserId, reaction: Reaction): bool {
    if reaction == Like then user in a.dislikes else user in a.likes
  }

  /** The record a reaction the service lets through produces. */
  function ServiceReacted(a: Article, user: UserId, reaction: Reaction): (r: Article)
    ensures reaction == Like ==> user in r.likes && user !in r.dislikes
    ensures reaction == Dislike ==> user in r.dislikes && user !in r.likes
    ensures Exclusive(a) ==> Exclusive(r)
    ensures r.(likes := a.likes, dislikes := a.dislikes) == a
    ensures forall v :: v != user ==> (v in r.likes <==> v in a.likes) && (v in r.dislikes <==> v in a.dislikes)
    ensures !AlreadyReacted(a, user, reaction) ==> r != a
  {
    Reacted(a, user, reaction, UndoOther(a, user, reaction))
  }

  class ArticleService {
    const articles: ArticleRepository
    const users: UserRepository

    constructor (articles: ArticleRepository, users: UserRepository)
      ensures this.articles == articles && this.users == users
    {
      this.articles := articles;
      this.users := users;
    }

    /** `reactToArticle` (article.service.js:128-167). An unknown article gives 404 and a
        repeated identical reaction 409, both without a change; any other reaction, on a
        deleted article too, is applied in one update and answered with 200 whatever the
        repository reports. No user ends up in both `likes` and `dislikes`. */
    method ReactToArticle(user: UserId, articleId: ArticleId, reaction: Reaction) returns (res: Response)
      requires articles.Valid()
      modifies articles
      ensures articles.Valid() && articles.nextId == old(articles.nextId)
      ensures var k := IndexOfId(old(articles.docs), articleId);
              && (k.None? ==>
                    res == Response(NOT_FOUND, ARTICLE_FETCHING_FAILURE)
                    && articles.docs == old(articles.docs))
              && (k.Some? && AlreadyReacted(old(articles.docs)[k.value], user, reaction) ==>
                    res == Response(CONFLICT, if reaction == Like then ARTICLE_ALREADY_LIKED else ARTICLE_ALREADY_DISLIKED)
                    && articles.docs == old(articles.docs))
              && (k.Some? && !AlreadyReacted(old(articles.docs)[k.value], user, reaction) ==>
                    res == Response(OK, if reaction == Like then ARTICLE_LIKED else ARTICLE_DISLIKED)
                    && articles.docs == old(articles.docs)[k.value := ServiceReacted(old(articles.docs)[k.value], user, reaction)])
      ensures AllExclusive(old(articles.docs)) ==> AllExclusive(articles.docs)
    {
      var data := articles.GetArticleById(articleId);
      if data.None? {
        return Response(NOT_FOUND, ARTICLE_FETCHING_FAILURE);
      }
      var isLiked := user in data.value.likes;
      var isDisliked := user in data.value.dislikes;
      if (reaction == Like && isLiked) || (reaction == Dislike && isDisliked) {
        return Response(CONFLICT, if reaction == Like then ARTICLE_ALREADY_LIKED else ARTICLE_ALREADY_DISLIKED);
      }
      var _ := articles.ReactToArticle(user, articleId, reaction, if reaction == Like then isDisliked else isLiked);
      res := Response(OK, if reaction == Like then ARTICLE_LIKED else ARTICLE_DISLIKED);
    }

    /** `blockArticle` (article.service.js:106-116): forwards `updateArticleBlock`; the
        reaction sets are untouched. */
    method BlockArticle(user: UserId, articleId: ArticleId) returns (modified: bool)
      requires articles.Valid()
      modifies articles
      ensures articles.Valid() && articles.nextId == old(articles.nextId)
      ensures var k := IndexOfId(old(articles.docs), articleId);
              && (k.None? ==> articles.docs == old(articles.docs) && !modified)
              && (k.Some? ==>
                    articles.docs == old(articles.docs)[k.value := Blocked(old(articles.docs)[k.value], user)]
                    && (modified <==> user !in old(articles.docs)[k.value].blocks))
      ensures AllExclusive(old(articles.docs)) ==> AllExclusive(articles.docs)
    {
      modified := articles.UpdateArticleBlock(user, articleId);
    }

    /** `deleteArticle` (article.service.js:117-127): forwards `updateDeleteArticle`. */
    method DeleteArticle(articleId: ArticleId) returns (modified: bool)
      requires articles.Valid()
      modifies articles
      ensures articles.Valid() && articles.nextId == old(articles.nextId)
      ensures var k := IndexOfId(old(articles.docs), articleId);
              && (k.None? ==> articles.docs == old(articles.docs) && !modified)
              && (k.Some? ==>
                    articles.docs == old(articles.docs)[k.value := Deleted(old(articles.docs)[k.value])]
                    && (modified <==> !old(articles.docs)[k.value].isDeleted))
      ensures AllExclusive(old(articles.docs)) ==> AllExclusive(articles.docs)
    {
      modified := articles.UpdateDeleteArticle(articleId);
    }

    /** `updateArticle` (article.service.js:168-182): new files are uploaded only when there
        are some (`upload` stands for the image host); with none, an empty image list is
        passed and the stored images are kept. */
    method UpdateArticle(articleId: ArticleId, articleName: string, description: string,
                         category: seq<string>, files: seq<string>, upload: seq<string> -> seq<string>)
      returns (modified: bool)
      requires articles.Valid()
      modifies articles
      ensures articles.Valid() && articles.nextId == old(articles.nextId)
      ensures var k := IndexOfId(old(articles.docs), articleId);
              var urls := if |files| > 0 then upload(files) else [];
              && (k.None? ==> articles.docs == old(articles.docs) && !modified)
              && (k.Some? ==>
                    articles.docs == old(articles.docs)[k.value :=
                      Edited(old(articles.docs)[k.value], ArticleData(articleName, description, category, urls))]
                    && (modified <==> Edited(old(articles.docs)[k.value], ArticleData(articleName, description, category, urls))
                                        != old(articles.docs)[k.value]))
      ensures files == [] ==> forall k :: 0 <= k < |articles.docs| ==> articles.docs[k].images == old(articles.docs)[k].images
      ensures AllExclusive(old(articles.docs)) ==> AllExclusive(articles.docs)
    {
      var urls: seq<string> := [];
      if |files| > 0 {
        urls := upload(files);
      }
      modified := articles.UpdateArticle(articleId, ArticleData(articleName, description, category, urls));
    }

    /** `getArticles` (article.service.js:52-67): the author's records as the repository
        lists them. */
    function GetArticles(author: UserId): (r: seq<ArticleSummary>)
      reads this, articles
      ensures forall k :: 0 <= k < |r| ==> r[k].accountId == author
      ensures forall a :: a in articles.docs && a.accountId == author ==> Summarize(a) in r
    {
      ArticlesByAuthor(articles.docs, author)
    }

    /** `getArticle` (article.service.js:69-84): the single-article view, or null. */
    function GetArticle(viewer: UserId, articleId: ArticleId): (r: Option<ArticleDetail>)
      reads this, articles
      ensures r.None? <==> forall k :: 0 <= k < |articles.docs| ==> articles.docs[k].id != articleId
      ensures r.Some? ==> r.value.summary.id == articleId
      ensures AllExclusive(articles.docs) && r.Some? ==> !(r.value.isLiked && r.value.isDisliked)
    {
      if AllExclusive(articles.docs) then
        DetailFlagsExclusive(articles.docs, viewer, articleId);
        AggregatedArticleById(articles.docs, viewer, articleId)
      else
        AggregatedArticleById(articles.docs, viewer, articleId)
    }

    /** `fetchAllArticles` (article.service.js:86-105): nothing for an unknown viewer;
        otherwise the feed for exactly that viewer's stored preferences. */
    function FetchAllArticles(viewer: UserId): (r: seq<ArticleSummary>)
      reads this, articles, users
      ensures FindUserById(users.users, viewer).None? ==> r == []
      ensures FindUserById(users.users, viewer).Some? ==>
                r == PreferredArticles(articles.docs, viewer, FindUserById(users.users, viewer).value.preference)
    {
      match FindUserById(users.users, viewer)
      case None => []
      case Some(u) => PreferredArticles(articles.docs, viewer, u.preference)
    }
  }
}
