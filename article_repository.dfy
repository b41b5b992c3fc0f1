/** The write side of server/src/repository/article/article.repository.ts: an in-memory
    article collection whose update queries change one stored record in place. */
module ArticleRepo {
  import opened Common
  import opened ArticleModel

  class ArticleRepository {
    /** The collection, in insertion (natural) order. */
    var docs: seq<Article>
    /** The identity the next created record receives (the database's ObjectId generator). */
    var nextId: ArticleId

    /** Every stored identity was handed out before, so a new one is always fresh. */
    ghost predicate Valid()
      reads this
    {
      && (forall k :: 0 <= k < |docs| ==> docs[k].id < nextId)
      && (forall i, j :: 0 <= i < j < |docs| ==> docs[i].id != docs[j].id)
    }

    constructor ()
      ensures Valid() && docs == []
    {
      docs := [];
      nextId := 0;
    }

    /** `addArticle` (article.repository.ts:13-23): one new record with empty identity sets. */
    method AddArticle(author: UserId, data: ArticleData, createdAt: int) returns (id: ArticleId)
      requires Valid()
      modifies this
      ensures Valid()
      ensures FindById(old(docs), id).None?
      ensures docs == old(docs) + [NewArticle(id, author, data, createdAt)]
    {
      id := nextId;
      docs := docs + [NewArticle(id, author, data, createdAt)];
      nextId := nextId + 1;
    }

    /** `getArticleById` (article.repository.ts:55-64): the record with that id, deleted or not. */
    function GetArticleById(id: ArticleId): (r: Option<Article>)
      reads this
      ensures r.None? <==> forall k :: 0 <= k < |docs| ==> docs[k].id != id
      ensures r.Some? ==> r.value in docs && r.value.id == id
    {
      FindById(docs, id)
    }

    /** `BaseRepository.update` / `updateOne` (base.repository.ts:38-41): change the record
        with that id and report whether anything actually changed (`modifiedCount > 0`). */
    method UpdateOne(id: ArticleId, change: Article -> Article) returns (modified: bool)
      requires Valid()
      requires forall a :: change(a).id == a.id
      modifies this
      ensures Valid() && nextId == old(nextId)
      ensures docs == UpdatedById(old(docs), id, change)
      ensures modified <==> docs != old(docs)
    {
      match IndexOfId(docs, id)
      case None =>
        modified := false;
      case Some(k) =>
        var changed := change(docs[k]);
        modified := changed != docs[k];
        if !modified {
          assert docs[k := changed] == docs;
        } else {
          assert docs[k := changed][k] != docs[k];
        }
        docs := docs[k := changed];
    }

    /** `updateArticleBlock` (article.repository.ts:137-148): `$addToSet` the viewer to
        `blocks`; true only when the viewer was not there yet. */
    method UpdateArticleBlock(user: UserId, id: ArticleId) returns (modified: bool)
      requires Valid()
      modifies this
      ensures Valid() && nextId == old(nextId)
      ensures var k := IndexOfId(old(docs), id);
              && (k.None? ==> docs == old(docs) && !modified)
              && (k.Some? ==> docs == old(docs)[k.value := Blocked(old(docs)[k.value], user)]
                              && (modified <==> user !in old(docs)[k.value].blocks))
    {
      modified := UpdateOne(id, (a: Article) => Blocked(a, user));
    }

    /** `updateDeleteArticle` (article.repository.ts:150-157): set `is_deleted`, keep the
        record; false when the id is unknown or the record was already deleted. */
    method UpdateDeleteArticle(id: ArticleId) returns (modified: bool)
      requires Valid()
      modifies this
      ensures Valid() && nextId == old(nextId)
      ensures var k := IndexOfId(old(docs), id);
              && (k.None? ==> docs == old(docs) && !modified)
              && (k.Some? ==> docs == old(docs)[k.value := Deleted(old(docs)[k.value])]
                              && (modified <==> !old(docs)[k.value].isDeleted))
    {
      modified := UpdateOne(id, Deleted);
    }

    /** `reactToArticle` (article.repository.ts:159-188): one update that adds the user to
        the reaction's set and, with `undoOther`, pulls them from the opposite set. */
    method ReactToArticle(user: UserId, id: ArticleId, reaction: Reaction, undoOther: bool)
      returns (modified: bool)
      requires Valid()
      modifies this
      ensures Valid() && nextId == old(nextId)
      ensures var k := IndexOfId(old(docs), id);
              && (k.None? ==> docs == old(docs) && !modified)
              && (k.Some? ==>
                    docs == old(docs)[k.value := Reacted(old(docs)[k.value], user, reaction, undoOther)]
                    && (modified <==> Reacted(old(docs)[k.value], user, reaction, undoOther) != old(docs)[k.value]))
    {
      modified := UpdateOne(id, (a: Article) => Reacted(a, user, reaction, undoOther));
    }

    /** `updateArticle` (article.repository.ts:190-211): `$set` the new content, keeping the
        stored images when the new list is empty. */
    method UpdateArticle(id: ArticleId, data: ArticleData) returns (modified: bool)
      requires Valid()
      modifies this
      ensures Valid() && nextId == old(nextId)
      ensures var k := IndexOfId(old(docs), id);
              && (k.None? ==> docs == old(docs) && !modified)
              && (k.Some? ==> docs == old(docs)[k.value := Edited(old(docs)[k.value], data)]
                              && (modified <==> Edited(old(docs)[k.value], data) != old(docs)[k.value]))
    {
      modified := UpdateOne(id, (a: Article) => Edited(a, data));
    }
  }
}
