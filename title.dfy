/** The title extractor, `get_comic_title`. The parsed page is represented by the
    texts of its `<h3>` elements, in document order. */
module Title {
  import opened Text

  /** The characters of the regular-expression class `[\/:*?"<>|]`. Inside the
      class `\/` is an escaped `/`, so a backslash is not among them. */
  predicate IsUnsafe(c: char) {
    c == '/' || c == ':' || c == '*' || c == '?' || c == '"' || c == '<' || c == '>' || c == '|'
  }

  /** `re.sub(r'[\/:*?"<>|]', '-', s)`: every unsafe character becomes `-`,
      every other character is kept, one for one. */
  function Sanitize(s: string): (r: string)
    ensures |r| == |s|
    ensures forall k :: 0 <= k < |s| ==> IsUnsafe(s[k]) ==> r[k] == '-'
    ensures forall k :: 0 <= k < |s| ==> !IsUnsafe(s[k]) ==> r[k] == s[k]
    ensures forall k :: 0 <= k < |r| ==> !IsUnsafe(r[k])
  {
    if s == [] then []
    else [if IsUnsafe(s[0]) then '-' else s[0]] + Sanitize(s[1..])
  }

  /** Sanitizing a title that is already safe changes nothing; in particular
      sanitizing twice is sanitizing once. */
  lemma SanitizeKeepsSafe(s: string)
    requires forall k :: 0 <= k < |s| ==> !IsUnsafe(s[k])
    ensures Sanitize(s) == s
  {
    var r := Sanitize(s);
    assert forall k :: 0 <= k < |s| ==> r[k] == s[k];
  }

  lemma SanitizeIdempotent(s: string)
    ensures Sanitize(Sanitize(s)) == Sanitize(s)
  {
    SanitizeKeepsSafe(Sanitize(s));
  }

  /** A backslash survives sanitizing. */
  lemma SanitizeKeepsBackslash(s: string, k: int)
    requires 0 <= k < |s| && s[k] == '\\'
    ensures Sanitize(s)[k] == '\\'
  {
  }

  /** `get_comic_title`: with two or more `<h3>` elements the title is the text of
      the second one, stripped and sanitized (the first is ignored); otherwise it
      is `"output"`. The title never contains an unsafe character. */
  function GetComicTitle(headings: seq<string>): (title: string)
    ensures |headings| < 2 ==> title == "output"
    ensures |headings| >= 2 ==>
      var stripped := Strip(headings[1]);
      |title| == |stripped| &&
      forall k :: 0 <= k < |title| ==> title[k] == (if IsUnsafe(stripped[k]) then '-' else stripped[k])
    ensures forall k :: 0 <= k < |title| ==> !IsUnsafe(title[k])
  {
    if |headings| > 1 then Sanitize(Strip(headings[1])) else "output"
  }

  /** Only the second heading matters: the first and any after the second are ignored. */
  lemma TitleFromSecondHeading(headings: seq<string>, other: seq<string>)
    requires |headings| >= 2 && |other| >= 2 && headings[1] == other[1]
    ensures GetComicTitle(headings) == GetComicTitle(other)
  {
  }
}
