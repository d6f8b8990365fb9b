/**
 Turning one uploaded file into text, as `upload_files` in app.py does
 before normalising it: the file name's suffix picks an extractor, and a
 file of any other kind gets a fixed placeholder text.

 The document libraries themselves (python-docx and pdfplumber) are not
 part of this model: what they report for a file, its paragraphs or its
 pages, is supplied by a `Parsers` value. What app.py does with their
 reports, joining paragraphs with newlines, appending a newline after
 every page that has text, and stripping the result, is modelled here.
 */
module Extract {
  import opened Chars
  import opened Words
  import opened Normalize

  datatype Option<T> = None | Some(value: T)

  /** Which extractor a file name selects. */
  datatype Kind = Docx | Pdf | Unsupported

  /** The bytes of an uploaded file under the name it is saved as. */
  datatype UploadedFile = UploadedFile(filename: string, content: seq<bv8>)

  /**
   What the document libraries report for a file's bytes: the text of each
   paragraph of a Word document, and for each page of a PDF its text or
   nothing.
   */
  datatype Parsers = Parsers(
    paragraphs: seq<bv8> -> seq<string>,
    pages: seq<bv8> -> seq<Option<string>>)

  /** The text stored for a file whose kind is not supported. */
  const UnsupportedText: string := "Unsupported file format"

  /** `s.endswith(suffix)`. */
  predicate EndsWith(s: string, suffix: string) {
    |suffix| <= |s| && s[|s| - |suffix|..] == suffix
  }

  /** No file name ends with both ".docx" and ".pdf". */
  lemma SuffixesExclusive(name: string)
    ensures !(EndsWith(name, ".docx") && EndsWith(name, ".pdf"))
  {
    LastOfSuffix(name, ".docx");
    LastOfSuffix(name, ".pdf");
  }

  /** A name that ends with a suffix ends with the suffix's last character. */
  lemma LastOfSuffix(name: string, suffix: string)
    requires suffix != []
    ensures EndsWith(name, suffix) ==> name[|name| - 1] == suffix[|suffix| - 1]
  {
    if EndsWith(name, suffix) {
      assert name[|name| - |suffix|..][|suffix| - 1] == name[|name| - 1];
    }
  }

  /**
   The suffix test of `upload_files`. Because no name ends with both
   suffixes, the order of the two tests does not matter: each kind is
   chosen exactly when its own suffix is present.
   */
  function Classify(filename: string): (k: Kind)
    ensures k == Docx <==> EndsWith(filename, ".docx")
    ensures k == Pdf <==> EndsWith(filename, ".pdf")
    ensures k == Unsupported <==> !EndsWith(filename, ".docx") && !EndsWith(filename, ".pdf")
  {
    SuffixesExclusive(filename);
    if EndsWith(filename, ".docx") then Docx
    else if EndsWith(filename, ".pdf") then Pdf
    else Unsupported
  }

  /** `extract_text_from_docx`: the paragraphs joined by newlines, stripped. */
  function DocxText(paragraphs: seq<string>): (text: string)
    ensures Trimmed(text)
  {
    Strip(Join(paragraphs, '\n'))
  }

  /** What one page adds to the PDF text: its text and a newline, if it has text. */
  function PageLine(page: Option<string>): string {
    match page
    case Some(t) => if t != [] then t + ['\n'] else []
    case None => []
  }

  /** Every page's line, in page order. */
  function PageLines(pages: seq<Option<string>>): string {
    if pages == [] then [] else PageLine(pages[0]) + PageLines(pages[1..])
  }

  /** `extract_text_from_pdf`: the page texts, each ended by a newline, stripped. */
  function PdfText(pages: seq<Option<string>>): (text: string)
    ensures Trimmed(text)
  {
    Strip(PageLines(pages))
  }

  /** The texts of the pages that have one. */
  function PageTexts(pages: seq<Option<string>>): seq<string> {
    if pages == [] then []
    else match pages[0]
      case Some(t) => [t] + PageTexts(pages[1..])
      case None => PageTexts(pages[1..])
  }

  /** The text `upload_files` extracts from one file, before normalisation. */
  function ExtractText(up: UploadedFile, parsers: Parsers): (text: string)
    ensures Classify(up.filename) == Unsupported ==> text == UnsupportedText
    ensures Classify(up.filename) != Unsupported ==> Trimmed(text)
  {
    match Classify(up.filename)
    case Docx => DocxText(parsers.paragraphs(up.content))
    case Pdf => PdfText(parsers.pages(up.content))
    case Unsupported => UnsupportedText
  }

  /** A Word document's text holds the words of its paragraphs, in order. */
  lemma {:induction false} DocxWords(paragraphs: seq<string>)
    ensures Split(DocxText(paragraphs)) == SplitAll(paragraphs)
  {
    StripSplit(Join(paragraphs, '\n'));
    SplitJoin(paragraphs, '\n');
  }

  /**
   A PDF's text holds the words of its pages, in order; pages without text
   contribute none.
   */
  lemma {:induction false} PdfWords(pages: seq<Option<string>>)
    ensures Split(PdfText(pages)) == SplitAll(PageTexts(pages))
  {
    StripSplit(PageLines(pages));
    PageLinesWords(pages);
  }

  lemma {:induction false} PageLinesWords(pages: seq<Option<string>>)
    ensures Split(PageLines(pages)) == SplitAll(PageTexts(pages))
  {
    if pages != [] {
      var rest := PageLines(pages[1..]);
      PageLinesWords(pages[1..]);
      PageLineWords(pages[0], rest);
      match pages[0]
      case None =>
      case Some(t) =>
        assert SplitAll([t] + PageTexts(pages[1..])) == Split(t) + SplitAll(PageTexts(pages[1..]));
    }
  }

  /** One page's line ends in whitespace, so its words stay apart from what follows. */
  lemma PageLineWords(page: Option<string>, rest: string)
    ensures Split(PageLine(page) + rest) == (if page.Some? then Split(page.value) else []) + Split(rest)
  {
    match page
    case None =>
      assert PageLine(page) + rest == rest;
    case Some(t) =>
      if t == [] {
        assert PageLine(page) + rest == rest;
      } else {
        var line := t + ['\n'];
        SplitConcat(line, rest);
        SplitIgnoresTrailingSpaces(t, ['\n']);
      }
  }
}
