/** `extract_text_paper`: the text assembled from a document's pages, the
    path it is written to, and the two ways the call gives up. */
module Extractor {
  import opened Wrappers
  import opened Paths

  /** What the PDF reader made of the file: a read error (raised while
      opening it or while extracting any page), or one text per page in page
      order, `None` where a page yields none. */
  datatype Pdf = Unreadable | Pages(texts: seq<Option<string>>)

  /** A file written by the call. */
  datatype TextFile = TextFile(path: string, content: string)

  /** The value returned, and the file written if any. */
  datatype Extraction = Extraction(result: Option<string>, written: Option<TextFile>)

  /** Does the page contribute text? (`if page_text:` is false for `None`
      and for the empty string.) */
  predicate HasText(t: Option<string>) {
    t.Some? && t.value != ""
  }

  /** What one page adds: its text and a blank line, or nothing. */
  function Contribution(t: Option<string>): string {
    if HasText(t) then t.value + "\n\n" else ""
  }

  /** The accumulated text after the given pages, built page by page. */
  function PageText(pages: seq<Option<string>>): string {
    if |pages| == 0 then "" else PageText(pages[..|pages| - 1]) + Contribution(pages[|pages| - 1])
  }

  /** The texts of the pages that have some, in page order. */
  function NonEmptyTexts(pages: seq<Option<string>>): (ts: seq<string>)
    ensures forall i :: 0 <= i < |ts| ==> ts[i] != ""
  {
    if |pages| == 0 then []
    else if HasText(pages[0]) then [pages[0].value] + NonEmptyTexts(pages[1..])
    else NonEmptyTexts(pages[1..])
  }

  /** Each text followed by a blank line, all joined in order. */
  function Terminated(ts: seq<string>): string {
    if |ts| == 0 then "" else ts[0] + "\n\n" + Terminated(ts[1..])
  }

  /** The sum of `|t| + 2` over the texts. */
  function TerminatedLength(ts: seq<string>): nat {
    if |ts| == 0 then 0 else |ts[0]| + 2 + TerminatedLength(ts[1..])
  }

  /** The loop of `extract_text_paper` over the pages. */
  method ExtractText(pages: seq<Option<string>>) returns (total: string)
    ensures total == PageText(pages)
  {
    total := "";
    var n := 0;
    while n < |pages|
      invariant 0 <= n <= |pages|
      invariant total == PageText(pages[..n])
    {
      var t := pages[n];
      if t.Some? && t.value != "" {
        total := total + t.value + "\n\n";
      }
      assert pages[..n + 1][..n] == pages[..n];
      n := n + 1;
    }
    assert pages[..n] == pages;
  }

  /** The text of consecutive runs of pages is the concatenation of their
      texts. */
  lemma {:induction false} PageTextAppend(a: seq<Option<string>>, b: seq<Option<string>>)
    ensures PageText(a + b) == PageText(a) + PageText(b)
  {
    if |b| == 0 {
      assert a + b == a;
    } else {
      var b' := b[..|b| - 1];
      assert (a + b)[..|a + b| - 1] == a + b';
      assert (a + b)[|a + b| - 1] == b[|b| - 1];
      PageTextAppend(a, b');
    }
  }

  /** The text is, in page order, each non-empty page text followed by a
      blank line; pages without text leave no trace. */
  lemma {:induction false} PageTextIsTerminatedTexts(pages: seq<Option<string>>)
    ensures PageText(pages) == Terminated(NonEmptyTexts(pages))
  {
    if |pages| > 0 {
      var rest := pages[1..];
      assert pages == [pages[0]] + rest;
      PageTextAppend([pages[0]], rest);
      assert [pages[0]][..0] == [];
      assert PageText([pages[0]]) == Contribution(pages[0]);
      PageTextIsTerminatedTexts(rest);
      if HasText(pages[0]) {
        assert ([pages[0].value] + NonEmptyTexts(rest))[1..] == NonEmptyTexts(rest);
      }
    }
  }

  lemma {:induction false} TerminatedLengthIs(ts: seq<string>)
    ensures |Terminated(ts)| == TerminatedLength(ts)
  {
    if |ts| > 0 {
      TerminatedLengthIs(ts[1..]);
    }
  }

  /** The text is as long as the non-empty page texts plus two characters
      for each of them. */
  lemma PageTextLength(pages: seq<Option<string>>)
    ensures |PageText(pages)| == TerminatedLength(NonEmptyTexts(pages))
  {
    PageTextIsTerminatedTexts(pages);
    TerminatedLengthIs(NonEmptyTexts(pages));
  }

  /** A document whose pages all lack text gives the empty text. */
  lemma {:induction false} BlankPagesGiveEmptyText(pages: seq<Option<string>>)
    requires forall i :: 0 <= i < |pages| ==> !HasText(pages[i])
    ensures PageText(pages) == ""
  {
    if |pages| > 0 {
      BlankPagesGiveEmptyText(pages[..|pages| - 1]);
    }
  }

  /** Pages numbered "Page 1" to "Page 3" give those lines, each followed by
      a blank line, in page order. */
  lemma NumberedPages()
    ensures PageText([Some("Page 1"), Some("Page 2"), Some("Page 3")])
         == "Page 1\n\nPage 2\n\nPage 3\n\n"
  {
    var p1 := [Some("Page 1")];
    var p2 := p1 + [Some("Page 2")];
    var p3 := p2 + [Some("Page 3")];
    assert p1[..0] == [];
    assert PageText(p1) == "Page 1\n\n";
    assert p2[..1] == p1;
    assert PageText(p2) == "Page 1\n\nPage 2\n\n";
    assert p3[..2] == p2;
    assert PageText(p3) == "Page 1\n\nPage 2\n\nPage 3\n\n";
  }

  /** `extract_text_paper`: a path that is not a file, or a document the
      reader cannot read, returns None and writes nothing; otherwise the
      page text, empty or not, is written to the path with its extension
      replaced by `.txt`, and that path is returned. */
  function ExtractTextPaper(path: string, isFile: bool, pdf: Pdf): (r: Extraction)
    ensures r.result.None? <==> !isFile || pdf.Unreadable?
    ensures r.result.None? ==> r.written.None?
    ensures r.result.Some? ==>
      && r.written == Some(TextFile(r.result.value, PageText(pdf.texts)))
      && r.result.value == OutputPath(path)
  {
    if !isFile then Extraction(None, None)
    else
      match pdf
      case Unreadable => Extraction(None, None)
      case Pages(texts) =>
        var out := OutputPath(path);
        Extraction(Some(out), Some(TextFile(out, PageText(texts))))
  }

  /** A readable document without any page text is still a success: an
      empty text file is written and its path returned. */
  lemma BlankDocumentWritesEmptyFile(path: string, texts: seq<Option<string>>)
    requires forall i :: 0 <= i < |texts| ==> !HasText(texts[i])
    ensures ExtractTextPaper(path, true, Pages(texts))
         == Extraction(Some(OutputPath(path)), Some(TextFile(OutputPath(path), "")))
  {
    BlankPagesGiveEmptyText(texts);
  }
}
