/** What the main loop does with one page once it is fetched and parsed: derive
    the title, compose the PDF, then trim its first and last page. */
module Pipeline {
  import opened Wrappers
  import opened Title
  import opened Compositor
  import opened Trimmer

  /** On success the file is named after the page's title and holds the canvases
      of the images at positions `1 .. n - 2`, in document order. */
  method ProcessPage(headings: seq<string>, tags: seq<ImgTag>, fetch: string -> Fetched)
    returns (r: Result<Pdf, Error>)
    ensures r.Ok? <==> tags != [] && UsableUpTo(tags, fetch, |tags|)
    ensures r.Ok? ==>
      r.value.fileName == GetComicTitle(headings) + ".pdf" &&
      |r.value.pages| == (if |tags| >= 2 then |tags| - 2 else 0) &&
      forall i :: 0 <= i < |r.value.pages| ==>
        r.value.pages[i] == CanvasFor(i + 1, tags[i + 1], fetch)
    ensures r.Err? ==> FailsWith(tags, fetch, r.error)
  {
    var title := GetComicTitle(headings);
    var composed := CreatePdfFromImages(tags, fetch, title);
    if composed.Err? {
      return Err(composed.error);
    }
    var kept := RemoveFirstAndLastPage(composed.value.pages);
    r := Ok(Pdf(composed.value.fileName, kept));
  }
}
