/** The text of an article card in client/src/Components/MyArticles.tsx. */
module ArticleCard {
  const PreviewLength: nat := 80

  /** The description preview (MyArticles.tsx:140-142): unchanged up to 80 characters,
      otherwise the first 80 followed by an ellipsis. */
  function DescriptionPreview(d: string): (r: string)
    ensures |d| <= PreviewLength ==> r == d
    ensures |d| > PreviewLength ==> |r| == PreviewLength + 3 && r[PreviewLength..] == "..."
    ensures |r| <= PreviewLength + 3
    ensures var n := if |d| < PreviewLength then |d| else PreviewLength;
            n <= |r| && r[..n] == d[..n]
  {
    if |d| > PreviewLength then d[..PreviewLength] + "..." else d
  }

  /** The category label (MyArticles.tsx:145): the first category, unless the list is empty
      or that category is the empty string. */
  function CategoryLabel(category: seq<string>): (r: string)
    ensures r == "Uncategorized" || (|category| > 0 && r == category[0])
    ensures |category| > 0 && category[0] != "" ==> r == category[0]
    ensures (category == [] || category[0] == "") ==> r == "Uncategorized"
  {
    if |category| > 0 && category[0] != "" then category[0] else "Uncategorized"
  }
}
