/** The image compositor, `create_pdf_from_images`: one A4 canvas per `<img>`
    element, in document order, gathered into one PDF named after the title.
    The parsed page is represented by its `<img>` elements; fetching an image over
    the network and decoding it is the parameter `fetch`. */
module Compositor {
  import opened Wrappers
  import opened Geometry

  /** An `<img>` element; `src` is `None` when the attribute is absent. */
  datatype ImgTag = ImgTag(src: Option<string>)

  /** What `requests.get(url).content` followed by `Image.open` gives. */
  datatype Fetched = Image(width: Pos, height: Pos) | NetworkError | DecodeError

  /** A white A4 canvas with the `image`-th image of the page pasted at
      `layout.offset`, resized to `layout.size`. */
  datatype Canvas = Canvas(image: nat, layout: Layout)

  /** The PDF written to the output directory: its file name and its pages. */
  datatype Pdf = Pdf(fileName: string, pages: seq<Canvas>)

  datatype Error =
    | MissingSrc(index: nat)    // `img['src']` raises KeyError
    | FetchFailed(index: nat)   // `requests.get` raises
    | Undecodable(index: nat)   // `Image.open` raises
    | ZeroSize(index: nat)      // `img.resize` raises on a fitted side of 0
    | NoImages                  // `pdf_file_path` is unbound at the `return`

  /** The fitted size has no side of 0, so the resize can be carried out. */
  predicate Resizable(image: Fetched)
    requires image.Image?
  {
    var size := FitSize(image.width, image.height);
    size.width > 0 && size.height > 0
  }

  /** An image can be resized exactly when it is less than twice as elongated as
      one pixel of the canvas's other side allows. */
  lemma ResizableExactly(w: Pos, h: Pos)
    ensures Resizable(Image(w, h)) <==> w < 2 * A4_WIDTH * h && h < 2 * A4_HEIGHT * w
  {
    ZeroSizedFit(w, h);
  }

  /** The image element has a source, the image behind it decodes, and its
      fitted size can be resized to. */
  predicate Usable(tag: ImgTag, fetch: string -> Fetched) {
    tag.src.Some? && fetch(tag.src.value).Image? && Resizable(fetch(tag.src.value))
  }

  predicate UsableUpTo(tags: seq<ImgTag>, fetch: string -> Fetched, n: int)
    requires n <= |tags|
  {
    forall i :: 0 <= i < n ==> Usable(tags[i], fetch)
  }

  /** The canvas for the `index`-th image: the image keeps its index, is resized
      to the aspect-ratio fit of the fetched image's width and height, a size with
      no side of 0 that spans the canvas width or height, and is pasted at the
      centring offset, wholly inside the canvas. */
  function CanvasFor(index: nat, tag: ImgTag, fetch: string -> Fetched): (c: Canvas)
    requires Usable(tag, fetch)
    ensures c.image == index
    ensures c.layout.size == FitSize(fetch(tag.src.value).width, fetch(tag.src.value).height)
    ensures c.layout.offset == CentreOffset(c.layout.size)
    ensures 0 < c.layout.size.width <= A4_WIDTH && 0 < c.layout.size.height <= A4_HEIGHT
    ensures c.layout.size.width == A4_WIDTH || c.layout.size.height == A4_HEIGHT
    ensures 0 <= c.layout.offset.x && c.layout.offset.x + c.layout.size.width <= A4_WIDTH
    ensures 0 <= c.layout.offset.y && c.layout.offset.y + c.layout.size.height <= A4_HEIGHT
  {
    var image := fetch(tag.src.value);
    Canvas(index, Place(image.width, image.height))
  }

  /** `e` is the error the loop stops with: every element before the failing one
      was processed, and the failing one has the fault `e` names. */
  predicate FailsWith(tags: seq<ImgTag>, fetch: string -> Fetched, e: Error) {
    match e
    case MissingSrc(i) =>
      i < |tags| && UsableUpTo(tags, fetch, i) && tags[i].src.None?
    case FetchFailed(i) =>
      i < |tags| && UsableUpTo(tags, fetch, i) && tags[i].src.Some? &&
      fetch(tags[i].src.value).NetworkError?
    case Undecodable(i) =>
      i < |tags| && UsableUpTo(tags, fetch, i) && tags[i].src.Some? &&
      fetch(tags[i].src.value).DecodeError?
    case ZeroSize(i) =>
      i < |tags| && UsableUpTo(tags, fetch, i) && tags[i].src.Some? &&
      fetch(tags[i].src.value).Image? && !Resizable(fetch(tags[i].src.value))
    case NoImages =>
      tags == []
  }

  /** `create_pdf_from_images`. It succeeds exactly when the page has at least
      one image and every image has a source that decodes to an image whose
      fitted size has no side of 0; the PDF then has one page per image, in
      document order, each holding that image fitted and centred. Otherwise it
      fails at the first faulty image, or, with no images, because no file was
      written. */
  method CreatePdfFromImages(tags: seq<ImgTag>, fetch: string -> Fetched, title: string)
    returns (r: Result<Pdf, Error>)
    ensures r.Ok? <==> tags != [] && UsableUpTo(tags, fetch, |tags|)
    ensures r.Ok? ==>
      r.value.fileName == title + ".pdf" && |r.value.pages| == |tags| &&
      forall i :: 0 <= i < |tags| ==> r.value.pages[i] == CanvasFor(i, tags[i], fetch)
    ensures r.Err? ==> FailsWith(tags, fetch, r.error)
  {
    var images: seq<Canvas> := [];
    for idx := 0 to |tags|
      invariant |images| == idx
      invariant UsableUpTo(tags, fetch, idx)
      invariant forall i :: 0 <= i < idx ==> images[i] == CanvasFor(i, tags[i], fetch)
    {
      var tag := tags[idx];
      if tag.src.None? {
        return Err(MissingSrc(idx));
      }
      match fetch(tag.src.value)
      case NetworkError =>
        return Err(FetchFailed(idx));
      case DecodeError =>
        return Err(Undecodable(idx));
      case Image(w, h) =>
        var layout := Place(w, h);
        if layout.size.width == 0 || layout.size.height == 0 {
          return Err(ZeroSize(idx));
        }
        images := images + [Canvas(idx, layout)];
    }
    if images == [] {
      return Err(NoImages);
    }
    // The first canvas is saved with the rest appended after it.
    var pages := [images[0]] + images[1..];
    r := Ok(Pdf(title + ".pdf", pages));
  }
}
