# readallcomics-pdf-tool, modelled in Dafny

The tool reads a list of comic page addresses from `links.txt`. For each page it
derives a title from the second `<h3>` heading and puts every `<img>` of the
page on its own white A4 canvas (2480×3508 pixels, 300 DPI), fitted and centred.
It saves the canvases as `<title>.pdf` and rewrites that file without its first
and last page.

This project models the deterministic core under that I/O:

- `text.dfy` (module `Text`): Python's `str.strip()`, with the exact whitespace
  set of `str.isspace()`. It also gives an independent description,
  `IsStripOf`, and proves that `Strip` is the only function meeting it.
- `url_list.dfy` (module `UrlList`): `fetch_urls_from_file`. It takes the text
  of the file, splits it into lines as `readlines()` does, and strips each line.
- `title.dfy` (module `Title`): `get_comic_title`. The parsed page is given as
  the texts of its `<h3>` elements.
- `geometry.dfy` (module `Geometry`): the fit and centring arithmetic. The float
  ratios are replaced by exact integer cross-multiplication, and `round` by
  exact round-half-to-even of the rational quotient.
- `compositor.dfy` (module `Compositor`): `create_pdf_from_images` as a method
  with the source's loop. Fetching and decoding an image is the function
  parameter `fetch`, whose result is an image size or the failure.
- `trimmer.dfy` (module `Trimmer`): `remove_first_and_last_page` as a method
  with the source's page loop.
- `pipeline.dfy` (module `Pipeline`): one pass of the main loop over a page that
  is already fetched and parsed (title, compose, trim).
- `wrappers.dfy` (module `Wrappers`): `Option` and `Result`.

Behaviour of the code that the model keeps as it is:

- The character class `[\/:*?"<>|]` at main.py:32 escapes only `/`, so a
  backslash in a title is kept (`Title.SanitizeKeepsBackslash`).
- With two pages or fewer, `remove_first_and_last_page` writes a document with
  no pages, and so does the model.
- With no images, `create_pdf_from_images` fails because `pdf_file_path` is
  unbound at main.py:73. The model returns `Compositor.Error.NoImages`.
- An image whose fitted width or height rounds to 0 makes the resize at
  main.py:58 raise. The model returns `Compositor.Error.ZeroSize` for it
  (`Compositor.ResizableExactly` gives the exact condition).
- Blank lines of the input list are kept as empty entries.

## Model

| member | source | states |
|---|---|---|
| `Text.Strip` | main.py:18 | the result is an infix of the input with only whitespace (as `str.isspace` defines it) on both sides, and it neither starts nor ends with whitespace |
| `Text.StripUnique` | main.py:18 | any string meeting that description equals `Strip`, so the description pins down `str.strip()` |
| `Text.StripIdempotent` | main.py:31 | stripping an already stripped string changes nothing |
| `Text.StripBlank` | main.py:18 | a line made only of whitespace strips to `""` |
| `Text.StripNonBlank` | main.py:18 | a line with any non-whitespace character never strips to `""` |
| `UrlList.ReadLines` | main.py:17 | `readlines()`: the lines concatenate back to the file text, every line is non-empty, a line feed can only end a line, and every line but the last ends with one |
| `UrlList.EntryCount` | main.py:17 | the number of lines is the number of line feeds, plus one when the text ends without a line feed |
| `UrlList.StripLines` | main.py:18 | the comprehension keeps order and count: entry i is line i stripped |
| `UrlList.FetchUrls` | main.py:15-18 | one entry per line of the file, and entry i is line i with its surrounding whitespace removed |
| `UrlList.BlankLinesKept` | main.py:15-18 | a blank line becomes an empty entry at its own position instead of being dropped |
| `UrlList.StrippedLineHasNoNewline` | main.py:18 | stripping a line as `readlines()` yields it removes its line feed, the only one it can hold |
| `UrlList.UrlsAreSingleLines` | main.py:15-18 | no entry contains a line feed or starts or ends with whitespace |
| `Title.Sanitize` | main.py:32 | a one-for-one character map: same length, each of `/ : * ? " < > \|` becomes `-`, every other character is kept, and the result has none of the eight |
| `Title.SanitizeKeepsSafe` | main.py:32 | a string with none of the eight characters is left unchanged |
| `Title.SanitizeIdempotent` | main.py:32 | sanitizing twice gives the same result as sanitizing once |
| `Title.SanitizeKeepsBackslash` | main.py:32 | a backslash is not replaced |
| `Title.GetComicTitle` | main.py:28-35 | with fewer than two headings the title is `"output"`; otherwise it is the second heading stripped, then sanitized character by character; the title never holds an unsafe character |
| `Title.TitleFromSecondHeading` | main.py:29-31 | two heading lists with the same second heading give the same title |
| `Geometry.RoundHalfEven` | main.py:53-56 | `round(n / d)`: the result is within half a unit of the exact quotient, and it is even when the quotient lies exactly halfway |
| `Geometry.NearestEvenUnique` | main.py:53-56 | at most one integer is within half a unit of `n / d` and even on an exact tie |
| `Geometry.RoundHalfEvenUnique` | main.py:53-56 | only one integer is within half a unit and even on a tie, so those two properties define the rounding |
| `Geometry.RoundedWithin` | main.py:51-56 | a rounded quotient that is at most `cap` stays within `0 .. cap` |
| `Geometry.IsWideIsRatioComparison` | main.py:48-51 | the integer test `w·3508 > 2480·h` holds exactly when `w/h > 2480/3508` on real numbers, which is the branch condition of the source |
| `Geometry.FitSize` | main.py:48-56 | a wide image (`w·3508 > 2480·h`) gets width 2480 and the height nearest `2480·h/w`; any other image gets height 3508 and the width nearest `3508·w/h`; both sides stay within 0 .. 2480 and 0 .. 3508 |
| `Geometry.ZeroSizedFit` | main.py:51-56 | the fitted height is 0 exactly when `w ≥ 2·2480·h`, and the fitted width is 0 exactly when `h ≥ 2·3508·w` |
| `Geometry.CentreOffset` | main.py:62 | each offset is the floor of half the margin, so the left and top margins are at most the right and bottom ones, and at most one pixel smaller |
| `Geometry.Place` | main.py:48-64 | the image is resized to `FitSize` of its width and height and pasted at `CentreOffset` of that size; it lies wholly inside the canvas at a non-negative offset; a wide image has horizontal offset 0 and any other image vertical offset 0 |
| `Compositor.ResizableExactly` | main.py:51-58 | the resize can be carried out (no fitted side of 0) exactly when `w < 2·2480·h` and `h < 2·3508·w` |
| `Compositor.CanvasFor` | main.py:43-64 | the canvas for image i keeps index i; the image is resized to `FitSize` of the fetched image's width and height and pasted at `CentreOffset` of that size; the resized image has no side of 0, spans the canvas width or height, and lies wholly inside the canvas |
| `Compositor.CreatePdfFromImages` | main.py:37-73 | succeeds exactly when there is at least one image and every image has a `src` that fetches, decodes and has no fitted side of 0; the PDF is then named `<title>.pdf` with one page per image in document order, page i being `CanvasFor` of image i; otherwise it fails at the first faulty image (missing `src`, fetch failure, decode failure, zero-sized fit), or with `NoImages` when there are no images |
| `Trimmer.RemoveFirstAndLastPage` | main.py:75-83 | keeps `n − 2` pages when `n ≥ 2` and none otherwise; kept page i is original page i + 1, and for `n ≥ 2` the result is the slice `1 .. n − 2` |
| `Pipeline.ProcessPage` | main.py:95-97 | succeeds under the same conditions as the compositor, and the file is then named after the title and holds the canvases of images 1 .. n − 2 in order |

## Left out

- Network access (`requests.get`, main.py:21 and main.py:44) is not modelled. The page is given as its headings and image elements, and each image as what `fetch` returns.
- HTML parsing (BeautifulSoup) is not modelled. Its results are given as the `<h3>` texts and the `<img>` elements in document order.
- Image decoding, LANCZOS resampling, the white RGB canvas, pasting and PDF encoding are not modelled. A canvas is represented by its image's index, its fitted size and its offset.
- Image sizes of zero are not modelled: `fetch` yields positive widths and heights. Pillow refuses to open an image with a side of 0 or less. Only a zero height would divide by zero at main.py:48; a zero width would give the ratio 0.0, take the tall branch, get a fitted width of 0 and fail at the resize at main.py:58.
- Pillow's `resize` is represented only by its refusal of a size with a side of 0 (`Compositor.Error.ZeroSize`); the resampled pixels are not modelled.
- Fetching is a function of the address, so two `<img>` elements with the same `src` are taken to fetch and decode to the same result. The code issues a separate request for each element (main.py:44), and a server could answer them differently.
- Reading and writing PDF files with PyPDF2, and overwriting the output file, are not modelled. Pages are opaque values of a sequence.
- The output directory and `os.path.join` are not modelled. `Pdf.fileName` holds only `<title>.pdf`.
- Opening and decoding the input file (main.py:15) are not modelled, so neither is the error for a missing file nor the `UnicodeDecodeError` raised when the text does not decode in the locale's encoding. `readlines()` is modelled on the text after Python's universal-newline translation (`\r\n` and `\r` already turned into `\n`).
- Geometry.FitSize: the source compares and rounds floating-point ratios, while the model uses the exact rational values. Near a tie, or when the two ratios are nearly equal, the float result may differ from the model by one pixel or in the branch taken.
- The `main` loop over all addresses, `os.makedirs` and the console message (main.py:85-98) are not modelled, except for the per-page steps in `Pipeline.ProcessPage`.
