/**
 The whole of `upload_files` in app.py once the request has been read:
 each uploaded file is turned into text by its suffix, the text is
 normalised and stored with the file name, and the stored texts are
 compared pairwise.
 */
module Upload {
  import opened Words
  import opened Normalize
  import opened Jaccard
  import opened Extract
  import opened Pairs

  /** The entry `stored_texts` gets for one upload. */
  function Store(up: UploadedFile, parsers: Parsers): (d: StoredText)
    ensures d.filename == up.filename
    ensures Normalized(d.text) && NoUpper(d.text)
    ensures Split(d.text) == LowerAll(Split(ExtractText(up, parsers)))
  {
    var text := ExtractText(up, parsers);
    PreprocessKeepsWords(text);
    StoredText(up.filename, Preprocess(text))
  }

  /** The first loop of `upload_files`: one stored text per upload, in upload order. */
  function Ingest(ups: seq<UploadedFile>, parsers: Parsers): (docs: seq<StoredText>)
    ensures |docs| == |ups|
    ensures forall k :: 0 <= k < |ups| ==>
      docs[k].filename == ups[k].filename && docs[k].text == Preprocess(ExtractText(ups[k], parsers))
  {
    seq(|ups|, k requires 0 <= k < |ups| => Store(ups[k], parsers))
  }

  /** `plagiarism_results` for a list of uploads. */
  function CheckUploads(ups: seq<UploadedFile>, parsers: Parsers, cosine: (string, string) -> real): seq<Comparison> {
    Results(Ingest(ups, parsers), cosine)
  }

  /**
   For m uploads there are m(m-1)/2 records; the one for the pair (i, j),
   i < j, names upload i and upload j and scores the Jaccard similarity of
   their normalised texts, a value between 0 and 1.
   */
  lemma CheckUploadsShape(ups: seq<UploadedFile>, parsers: Parsers, cosine: (string, string) -> real)
    ensures |CheckUploads(ups, parsers, cosine)| == |ups| * (|ups| - 1) / 2
    ensures forall k :: 0 <= k < |CheckUploads(ups, parsers, cosine)| ==>
      var (i, j) := Schedule(|ups|)[k];
      var c := CheckUploads(ups, parsers, cosine)[k];
      && i < j < |ups|
      && c.file1 == ups[i].filename && c.file2 == ups[j].filename
      && c.jaccard == Similarity(Preprocess(ExtractText(ups[i], parsers)), Preprocess(ExtractText(ups[j], parsers)))
      && 0.0 <= c.jaccard <= 1.0
  {
    var docs := Ingest(ups, parsers);
    var r := Results(docs, cosine);
    ScheduleLength(|docs|);
    forall k | 0 <= k < |r|
      ensures var (i, j) := Schedule(|ups|)[k];
        && i < j < |ups|
        && r[k].file1 == ups[i].filename && r[k].file2 == ups[j].filename
        && r[k].jaccard == Similarity(Preprocess(ExtractText(ups[i], parsers)), Preprocess(ExtractText(ups[j], parsers)))
        && 0.0 <= r[k].jaccard <= 1.0
    {
      var (i, j) := Schedule(|docs|)[k];
      assert r[k] == Compare(docs, (i, j), cosine);
    }
  }

  /**
   Comparing normalised texts ignores case and the layout of whitespace:
   the score is that of the lower-cased originals.
   */
  lemma NormalizedSimilarity(text1: string, text2: string)
    ensures Similarity(Preprocess(text1), Preprocess(text2)) == Similarity(Lower(text1), Lower(text2))
  {
    PreprocessKeepsWords(text1);
    PreprocessKeepsWords(text2);
    LowerSplit(text1);
    LowerSplit(text2);
  }

  /** A Word upload's stored text holds the lower-cased words of its paragraphs. */
  lemma DocxStored(up: UploadedFile, parsers: Parsers)
    requires EndsWith(up.filename, ".docx")
    ensures Split(Store(up, parsers).text) == LowerAll(SplitAll(parsers.paragraphs(up.content)))
  {
    DocxWords(parsers.paragraphs(up.content));
  }

  /** A PDF upload's stored text holds the lower-cased words of its pages. */
  lemma PdfStored(up: UploadedFile, parsers: Parsers)
    requires EndsWith(up.filename, ".pdf")
    ensures Split(Store(up, parsers).text) == LowerAll(SplitAll(PageTexts(parsers.pages(up.content))))
  {
    PdfWords(parsers.pages(up.content));
  }

  /** Any other upload is stored with the normalised placeholder text. */
  lemma UnsupportedStored(up: UploadedFile, parsers: Parsers)
    requires !EndsWith(up.filename, ".docx") && !EndsWith(up.filename, ".pdf")
    ensures Store(up, parsers).text == Preprocess(UnsupportedText)
  {
  }

  /**
   Two uploads of unsupported kinds always score a Jaccard similarity of 1:
   both are stored with the same placeholder text, which has words.
   */
  lemma UnsupportedPairScoresOne(a: UploadedFile, b: UploadedFile, parsers: Parsers)
    requires Classify(a.filename) == Unsupported && Classify(b.filename) == Unsupported
    ensures Similarity(Store(a, parsers).text, Store(b, parsers).text) == 1.0
  {
    var u := UnsupportedText;
    assert u[0] == 'U';
    HasWordAfterPreprocess(u);
    SimilarityReflexive(Preprocess(u));
  }
}
