/** The edit-article form of client/src/Components/EditArticle.tsx: the same image rules as
    the creation form, except that every one of them lets an empty list through (the stored
    images are then kept). */
module EditArticleForm {
  import opened Forms
  import opened AddArticleForm

  /** `filesSchema` (EditArticle.tsx:12-62): each refinement first accepts an empty list. */
  function EditImageIssues(files: seq<File>): (r: seq<Issue<ArticleField>>)
    ensures r == [] <==> files == [] || ImagesOk(files)
    ensures files == [] ==> r == []
    ensures files != [] ==> r == ImageIssues(files)
  {
    Check(|files| == 0 || |files| == 2, Images, TwoImagesMessage)
    + Check(|files| == 0 || AllAllowed(files), Images, TypeMessage)
    + Check(|files| == 0 || AllSmallEnough(files), Images, SizeMessage)
  }

  predicate EditFormOk(f: ArticleForm) {
    |f.articleName| >= 1 && |f.description| >= 1 && (f.images == [] || ImagesOk(f.images))
  }

  /** `articleSchema` (EditArticle.tsx:64-69). */
  function EditArticleIssues(f: ArticleForm): (r: seq<Issue<ArticleField>>)
    ensures r == [] <==> EditFormOk(f)
    ensures Category !in Fields(r)
    ensures ArticleName in Fields(r) <==> f.articleName == ""
    ensures Description in Fields(r) <==> f.description == ""
    ensures Images in Fields(r) <==> f.images != [] && !ImagesOk(f.images)
  {
    var name := Check(|f.articleName| >= 1, ArticleName, "Article name is required");
    var desc := Check(|f.description| >= 1, Description, "Description is required");
    var images := EditImageIssues(f.images);
    FieldsConcat(name, desc);
    FieldsConcat(name + desc, images);
    name + desc + images
  }

  /** A form with new images is accepted for editing exactly when it would be accepted for
      creation; one without images only when the text fields are filled in. */
  lemma EditAgreesWithCreate(f: ArticleForm)
    ensures f.images != [] ==> (EditArticleIssues(f) == [] <==> ArticleIssues(f) == [])
    ensures f.images == [] ==> (EditArticleIssues(f) == [] <==> f.articleName != "" && f.description != "")
    ensures f.images == [] ==> ArticleIssues(f) != []
  {
  }
}
