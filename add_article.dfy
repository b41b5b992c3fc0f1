/** The create-article form of client/src/Components/AddArticle.tsx: the image-list rules
    and the field rules. A file is its MIME type and its size in bytes. */
module AddArticleForm {
  import opened Forms

  datatype File = File(mimeType: string, size: nat)

  /** The fields of the article forms. */
  datatype ArticleField = ArticleName | Description | Category | Images

  /** 5 MiB. */
  const MaxFileSize: nat := 5 * 1024 * 1024
  const AllowedTypes: seq<string> := ["image/jpeg", "image/png", "image/gif"]

  const TwoImagesMessage := "Exactly two images are required"
  const TypeMessage := "Only JPEG, PNG, or GIF files are allowed"
  const SizeMessage := "Each file must be less than 5MB"

  predicate AllowedType(f: File) {
    f.mimeType in AllowedTypes
  }

  predicate SmallEnough(f: File) {
    f.size <= MaxFileSize
  }

  /** Every file has an allowed type (AddArticle.tsx:25-31). */
  predicate AllAllowed(files: seq<File>) {
    forall k :: 0 <= k < |files| ==> AllowedType(files[k])
  }

  /** Every file is at most 5 MiB (AddArticle.tsx:36-40). */
  predicate AllSmallEnough(files: seq<File>) {
    forall k :: 0 <= k < |files| ==> SmallEnough(files[k])
  }

  /** The image rules stated directly: two files, each of an allowed type and at most 5 MiB. */
  predicate ImagesOk(files: seq<File>) {
    |files| == 2 && AllAllowed(files) && AllSmallEnough(files)
  }

  /** `filesSchema` (AddArticle.tsx:12-44): the three refinements all run and each reports
      its own message on `images`. */
  function ImageIssues(files: seq<File>): (r: seq<Issue<ArticleField>>)
    ensures r == [] <==> ImagesOk(files)
    ensures forall i :: 0 <= i < |r| ==> r[i].field == Images
    ensures Fields(r) == if ImagesOk(files) then {} else {Images}
    ensures Issue(Images, TwoImagesMessage) in r <==> |files| != 2
    ensures Issue(Images, TypeMessage) in r <==> !AllAllowed(files)
    ensures Issue(Images, SizeMessage) in r <==> !AllSmallEnough(files)
  {
    var count := Check(|files| == 2, Images, TwoImagesMessage);
    var types := Check(AllAllowed(files), Images, TypeMessage);
    var sizes := Check(AllSmallEnough(files), Images, SizeMessage);
    FieldsConcat(count, types);
    FieldsConcat(count + types, sizes);
    count + types + sizes
  }

  /** The form values; `category` is the selected interest. */
  datatype ArticleForm = ArticleForm(articleName: string, description: string, category: string, images: seq<File>)

  predicate ArticleFormOk(f: ArticleForm) {
    |f.articleName| >= 1 && |f.description| >= 1 && ImagesOk(f.images)
  }

  /** `articleSchema` (AddArticle.tsx:46-51): name and description need a character, the
      category takes any string, the images follow the image rules. */
  function ArticleIssues(f: ArticleForm): (r: seq<Issue<ArticleField>>)
    ensures r == [] <==> ArticleFormOk(f)
    ensures Category !in Fields(r)
    ensures ArticleName in Fields(r) <==> f.articleName == ""
    ensures Description in Fields(r) <==> f.description == ""
    ensures Images in Fields(r) <==> !ImagesOk(f.images)
  {
    var name := Check(|f.articleName| >= 1, ArticleName, "Article name is required");
    var desc := Check(|f.description| >= 1, Description, "Description is required");
    var images := ImageIssues(f.images);
    FieldsConcat(name, desc);
    FieldsConcat(name + desc, images);
    name + desc + images
  }
}
