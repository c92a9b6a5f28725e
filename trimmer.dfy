/** The page trimmer, `remove_first_and_last_page`: the written PDF is read back
    and rewritten with the pages of index `1 .. page_count - 2`. Reading and
    writing the file are not part of this model; pages are opaque values. */
module Trimmer {

  /** The loop `for page_num in range(1, len(reader.pages) - 1)` adding each page
      to a fresh writer. With two pages or fewer the range is empty and the
      rewritten document has no pages. */
  method RemoveFirstAndLastPage<Page>(pages: seq<Page>) returns (kept: seq<Page>)
    ensures |kept| == if |pages| >= 2 then |pages| - 2 else 0
    ensures forall i :: 0 <= i < |kept| ==> kept[i] == pages[i + 1]
    ensures |pages| >= 2 ==> kept == pages[1..|pages| - 1]
  {
    kept := [];
    var pageNum := 1;
    while pageNum < |pages| - 1
      invariant 1 <= pageNum <= if |pages| >= 2 then |pages| - 1 else 1
      invariant |kept| == pageNum - 1
      invariant forall i :: 0 <= i < |kept| ==> kept[i] == pages[i + 1]
    {
      kept := kept + [pages[pageNum]];
      pageNum := pageNum + 1;
    }
  }
}
