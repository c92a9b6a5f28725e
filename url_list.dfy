/** The source list reader: `fetch_urls_from_file` reads the input file with
    `readlines()` and strips every line. The file's text is a parameter; opening
    and decoding the file are not part of this model. */
module UrlList {
  import opened Text

  /** Concatenation of a list of lines, the inverse of splitting into lines. */
  function Concat(lines: seq<string>): string {
    if lines == [] then [] else lines[0] + Concat(lines[1..])
  }

  /** A line as `readlines()` yields it: not empty, and a line feed can only be
      its last character. */
  predicate IsLine(line: string) {
    line != [] && forall k :: 0 <= k < |line| - 1 ==> line[k] != '\n'
  }

  /** The length of the first line of `text`: up to and including the first line
      feed, or all of `text` when it has none. */
  function FirstLineLength(text: string): (n: nat)
    requires text != []
    ensures 0 < n <= |text| && IsLine(text[..n])
    ensures n < |text| ==> text[n - 1] == '\n'
  {
    if text[0] == '\n' || |text| == 1 then 1
    else
      var n := 1 + FirstLineLength(text[1..]);
      assert forall k :: 1 <= k < n ==> text[..n][k] == text[1..][..n - 1][k - 1];
      n
  }

  /** `file.readlines()` on the text of a file: every line keeps its line feed,
      and the last line may lack one. */
  function ReadLines(text: string): (lines: seq<string>)
    ensures Concat(lines) == text
    ensures forall i :: 0 <= i < |lines| ==> IsLine(lines[i])
    ensures forall i :: 0 <= i < |lines| - 1 ==> lines[i] != [] && lines[i][|lines[i]| - 1] == '\n'
    decreases |text|
  {
    if text == [] then []
    else
      var n := FirstLineLength(text);
      var rest := ReadLines(text[n..]);
      assert text == text[..n] + text[n..];
      [text[..n]] + rest
  }

  /** The list comprehension `[url.strip() for url in urls]`. */
  function StripLines(lines: seq<string>): (urls: seq<string>)
    ensures |urls| == |lines|
    ensures forall i :: 0 <= i < |lines| ==> urls[i] == Strip(lines[i])
  {
    if lines == [] then [] else [Strip(lines[0])] + StripLines(lines[1..])
  }

  /** `fetch_urls_from_file`: one entry per line of the file, in file order, each
      with its surrounding whitespace and line feed removed. */
  function FetchUrls(text: string): (urls: seq<string>)
    ensures |urls| == |ReadLines(text)|
    ensures forall i :: 0 <= i < |urls| ==> IsStripOf(ReadLines(text)[i], urls[i])
  {
    StripLines(ReadLines(text))
  }

  /** Blank lines are kept, as empty entries, rather than dropped. */
  lemma BlankLinesKept(text: string, i: int)
    requires 0 <= i < |ReadLines(text)| && AllSpace(ReadLines(text)[i])
    ensures |FetchUrls(text)| == |ReadLines(text)| && FetchUrls(text)[i] == ""
  {
    StripBlank(ReadLines(text)[i]);
  }

  /** Stripping a line removes its line feed, the only one it can hold. */
  lemma StrippedLineHasNoNewline(line: string, url: string)
    requires IsLine(line) && IsStripOf(line, url)
    ensures forall k :: 0 <= k < |url| ==> url[k] != '\n'
  {
    var j :| SurroundedBySpace(line, j, url);
    forall k | 0 <= k < |url| ensures url[k] != '\n' {
      assert url[k] == line[j + k];
      assert j + k < |line| - 1 || k == |url| - 1;
    }
  }

  /** No entry holds a line feed or starts or ends with whitespace. */
  lemma UrlsAreSingleLines(text: string, i: int)
    requires 0 <= i < |FetchUrls(text)|
    ensures forall k :: 0 <= k < |FetchUrls(text)[i]| ==> FetchUrls(text)[i][k] != '\n'
    ensures FetchUrls(text)[i] != [] ==>
      !IsSpace(FetchUrls(text)[i][0]) && !IsSpace(FetchUrls(text)[i][|FetchUrls(text)[i]| - 1])
  {
    StrippedLineHasNoNewline(ReadLines(text)[i], FetchUrls(text)[i]);
  }

  /** The number of entries: one per line feed, plus one for a final line
      without a line feed. */
  function NewlineCount(text: string): nat {
    if text == [] then 0 else (if text[0] == '\n' then 1 else 0) + NewlineCount(text[1..])
  }

  lemma {:induction false} NewlineCountAppend(a: string, b: string)
    ensures NewlineCount(a + b) == NewlineCount(a) + NewlineCount(b)
  {
    if a != [] {
      assert (a + b)[0] == a[0];
      assert (a + b)[1..] == a[1..] + b;
      NewlineCountAppend(a[1..], b);
    } else {
      assert a + b == b;
    }
  }

  lemma {:induction false} LineNewlines(line: string)
    requires IsLine(line)
    ensures NewlineCount(line) == if line[|line| - 1] == '\n' then 1 else 0
  {
    var init := line[..|line| - 1];
    assert line == init + [line[|line| - 1]];
    NewlineCountAppend(init, [line[|line| - 1]]);
    NoNewlines(init);
  }

  lemma {:induction false} NoNewlines(s: string)
    requires forall k :: 0 <= k < |s| ==> s[k] != '\n'
    ensures NewlineCount(s) == 0
  {
    if s != [] {
      NoNewlines(s[1..]);
    }
  }

  lemma {:induction false} EntryCount(text: string)
    ensures |FetchUrls(text)| ==
      NewlineCount(text) + (if text != [] && text[|text| - 1] != '\n' then 1 else 0)
    decreases |text|
  {
    if text != [] {
      var n := FirstLineLength(text);
      var line, rest := text[..n], text[n..];
      assert text == line + rest;
      assert ReadLines(text) == [line] + ReadLines(rest);
      NewlineCountAppend(line, rest);
      LineNewlines(line);
      EntryCount(rest);
      if rest != [] {
        assert text[|text| - 1] == rest[|rest| - 1];
      }
    }
  }
}
