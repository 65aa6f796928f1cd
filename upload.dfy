/**
 * The decision and assembly logic of `upload_multiple_pdfs` (main.py):
 * which uploaded files are indexed, the text handed to the chunker, the
 * metadata of every chunk, the chunk count and the final 400 error.
 *
 * The PDF reader, the chunker and the vector index are not modelled: a file
 * arrives with its page texts already extracted, the chunker is a function
 * parameter, and the calls to the index and to the `pdfs` table are returned,
 * in order, as a sequence of effects.
 */
module Upload {
  import opened Wrappers
  import opened PyStr
  import opened Seqs
  import opened Http

  const MAX_FILE_SIZE_MB: nat := 50
  const BYTES_PER_MB: nat := 1024 * 1024

  /** An uploaded file: its declared name, the size of what was written to
      disk, and the page texts the PDF reader returned (an empty list also
      stands for the reader's `None`). */
  datatype UploadFile = UploadFile(filename: string, sizeBytes: nat, pages: seq<string>)

  /** One entry of `chunks_with_meta`. */
  datatype ChunkRecord = ChunkRecord(text: string, source: string, userId: string, chunkId: nat)

  /** The calls the loop makes on the index and on the database, in order. */
  datatype UploadEffect =
    | AddToIndex(userId: string, records: seq<ChunkRecord>)   // create_or_update_faiss
    | InsertPdf(userId: string, filename: string)              // insert_pdf

  datatype UploadReply = UploadReply(message: string, totalChunks: nat)

  /** `file.filename.lower().endswith(".pdf")`. */
  predicate IsPdfName(name: string)
  {
    EndsWith(Lower(name), ".pdf")
  }

  /** `os.path.getsize(path) / (1024 * 1024) > MAX_FILE_SIZE_MB`. */
  predicate IsOversized(f: UploadFile)
  {
    f.sizeBytes > MAX_FILE_SIZE_MB * BYTES_PER_MB
  }

  /** The pages kept for indexing: those with text left after stripping, in order. */
  function NonBlankPages(pages: seq<string>): seq<string>
  {
    if pages == [] then []
    else NonBlankPages(pages[..|pages| - 1]) + (if Strip(pages[|pages| - 1]) == [] then [] else [pages[|pages| - 1]])
  }

  /** `"\n\n".join(p["text"] for p in pages if p["text"].strip())`. */
  function FullText(pages: seq<string>): string
  {
    Join(NonBlankPages(pages), "\n\n")
  }

  /** `chunks_with_meta`: each chunk tagged with the file name, the owner and its position. */
  function Tagged(chunks: seq<string>, source: string, userId: string): seq<ChunkRecord>
  {
    seq(|chunks|, i requires 0 <= i < |chunks| => ChunkRecord(chunks[i], source, userId, i))
  }

  /** The chunks of one file that reach the index; empty when the loop skips the file. */
  function FileChunks(f: UploadFile, splitter: string -> seq<string>): seq<string>
  {
    if !IsPdfName(f.filename) || IsOversized(f) || f.pages == [] then []
    else
      var fullText := FullText(f.pages);
      if Strip(fullText) == [] then [] else splitter(fullText)
  }

  /** The effects of one iteration of the loop. */
  function FileEffects(f: UploadFile, userId: string, splitter: string -> seq<string>): seq<UploadEffect>
  {
    var chunks := FileChunks(f, splitter);
    if chunks == [] then []
    else [AddToIndex(userId, Tagged(chunks, f.filename, userId)), InsertPdf(userId, f.filename)]
  }

  function EffectsFor(userId: string, splitter: string -> seq<string>): UploadFile -> seq<UploadEffect>
  {
    f => FileEffects(f, userId, splitter)
  }

  /** The effects of the whole loop, file after file. */
  function UploadEffects(files: seq<UploadFile>, userId: string, splitter: string -> seq<string>): seq<UploadEffect>
  {
    ConcatMap(files, EffectsFor(userId, splitter))
  }

  /** `total_chunks` after the loop. */
  function TotalChunks(files: seq<UploadFile>, splitter: string -> seq<string>): nat
  {
    if files == [] then 0
    else TotalChunks(files[..|files| - 1], splitter) + |FileChunks(files[|files| - 1], splitter)|
  }

  /** `uploaded_any_pdf` after the loop. */
  predicate AnyPdf(files: seq<UploadFile>)
  {
    exists i :: 0 <= i < |files| && IsPdfName(files[i].filename)
  }

  /** The response of `upload_multiple_pdfs`. */
  function UploadResponse(files: seq<UploadFile>, splitter: string -> seq<string>): Result<UploadReply, HttpError>
  {
    if !AnyPdf(files) || TotalChunks(files, splitter) == 0 then Failure(HttpError(400, "No valid PDFs uploaded"))
    else Success(UploadReply("PDFs uploaded and indexed", TotalChunks(files, splitter)))
  }

  /** One iteration of the loop of `upload_multiple_pdfs`: the checks that
      skip a file (`continue`), then the index call and the registration of the
      PDF. Returns whether the name was a PDF name, the number of chunks added
      and the calls made. */
  method UploadOne(file: UploadFile, userId: string, splitter: string -> seq<string>)
    returns (isPdf: bool, chunkCount: nat, fileEffects: seq<UploadEffect>)
    ensures isPdf == IsPdfName(file.filename)
    ensures chunkCount == |FileChunks(file, splitter)|
    ensures fileEffects == FileEffects(file, userId, splitter)
  {
    isPdf := IsPdfName(file.filename);
    chunkCount := 0;
    fileEffects := [];
    if !isPdf {
      return;
    }
    if IsOversized(file) {
      return;
    }
    var pages := file.pages;
    if pages == [] {
      return;
    }
    var fullText := FullText(pages);
    if Strip(fullText) == [] {
      return;
    }
    var chunks := splitter(fullText);
    if chunks == [] {
      return;
    }
    var chunksWithMeta := Tagged(chunks, file.filename, userId);
    fileEffects := [AddToIndex(userId, chunksWithMeta), InsertPdf(userId, file.filename)];
    chunkCount := |chunks|;
  }

  /** `upload_multiple_pdfs`: the loop over the uploaded files and the final verdict. */
  method UploadMultiplePdfs(files: seq<UploadFile>, userId: string, splitter: string -> seq<string>)
    returns (response: Result<UploadReply, HttpError>, effects: seq<UploadEffect>)
    ensures response == UploadResponse(files, splitter)
    ensures effects == UploadEffects(files, userId, splitter)
  {
    var totalChunks := 0;
    var uploadedAnyPdf := false;
    effects := [];
    for i := 0 to |files|
      invariant totalChunks == TotalChunks(files[..i], splitter)
      invariant uploadedAnyPdf == AnyPdf(files[..i])
      invariant effects == UploadEffects(files[..i], userId, splitter)
    {
      var isPdf, chunkCount, fileEffects := UploadOne(files[i], userId, splitter);
      PrefixSnoc(files, i);
      ConcatMapSnoc(files[..i], files[i], EffectsFor(userId, splitter));
      uploadedAnyPdf := uploadedAnyPdf || isPdf;
      totalChunks := totalChunks + chunkCount;
      effects := effects + fileEffects;
    }
    assert files[..|files|] == files;
    if !uploadedAnyPdf || totalChunks == 0 {
      return Failure(HttpError(400, "No valid PDFs uploaded")), effects;
    }
    response := Success(UploadReply("PDFs uploaded and indexed", totalChunks));
  }

  // ---------------------------------------------------------------------
  // Properties
  // ---------------------------------------------------------------------

  /** A file whose lower-cased name does not end in `.pdf` is skipped: it adds no chunks and no effects. */
  lemma NonPdfSkipped(f: UploadFile, userId: string, splitter: string -> seq<string>)
    requires !IsPdfName(f.filename)
    ensures FileChunks(f, splitter) == [] && FileEffects(f, userId, splitter) == []
  {
  }

  /** A file larger than 50 MB (52428800 bytes; exactly 50 MB is still accepted) is
      skipped: it adds no chunks and no effects. */
  lemma OversizedSkipped(f: UploadFile, userId: string, splitter: string -> seq<string>)
    ensures IsOversized(f) <==> f.sizeBytes > 52428800
    ensures IsOversized(f) ==> FileChunks(f, splitter) == [] && FileEffects(f, userId, splitter) == []
  {
  }

  /** Only the last four characters of a name decide, in any mix of cases. */
  lemma PdfNameIff(name: string)
    ensures IsPdfName(name) <==> |name| >= 4 && Lower(name[|name| - 4..]) == ".pdf"
  {
    if |name| >= 4 {
      assert Lower(name)[|name| - 4..] == Lower(name[|name| - 4..]);
    }
  }

  /** Names ending in `.PDF` or `.pdf` are accepted, one ending in `.pdfx` is not. */
  lemma UpperCaseExtensionAccepted(stem: string)
    ensures IsPdfName(stem + ".PDF") && IsPdfName(stem + ".pdf") && !IsPdfName(stem + ".pdfx")
  {
    var upper := Lower(stem + ".PDF");
    assert upper[|upper| - 4..] == ".pdf";
    var lower := Lower(stem + ".pdf");
    assert lower[|lower| - 4..] == ".pdf";
    var other := Lower(stem + ".pdfx");
    assert other[|other| - 1] == 'x';
  }

  /** Every page kept for indexing has text. */
  lemma {:induction false} NonBlankPagesHaveText(pages: seq<string>)
    ensures forall k :: 0 <= k < |NonBlankPages(pages)| ==> Strip(NonBlankPages(pages)[k]) != []
    decreases |pages|
  {
    if pages != [] {
      NonBlankPagesHaveText(pages[..|pages| - 1]);
    }
  }

  /** A page is kept for indexing if and only if it is one of the pages and has text. */
  lemma {:induction false} NonBlankPagesMembership(pages: seq<string>)
    ensures forall p :: p in NonBlankPages(pages) <==> p in pages && Strip(p) != []
    decreases |pages|
  {
    if pages != [] {
      var init := pages[..|pages| - 1];
      NonBlankPagesMembership(init);
      assert pages == init + [pages[|pages| - 1]];
    }
  }

  /** The kept pages stay in the order of the document: the pages kept from two
      consecutive runs of pages are the first run's followed by the second's. */
  lemma {:induction false} NonBlankPagesAppend(a: seq<string>, b: seq<string>)
    ensures NonBlankPages(a + b) == NonBlankPages(a) + NonBlankPages(b)
    decreases |b|
  {
    if b == [] {
      assert a + b == a;
    } else {
      var init := b[..|b| - 1];
      var last := b[|b| - 1];
      var kept := if Strip(last) == [] then [] else [last];
      assert (a + b)[..|a + b| - 1] == a + init;
      assert (a + b)[|a + b| - 1] == last;
      assert NonBlankPages(a + b) == NonBlankPages(a + init) + kept;
      assert NonBlankPages(b) == NonBlankPages(init) + kept;
      NonBlankPagesAppend(a, init);
      assert NonBlankPages(a) + NonBlankPages(init) + kept == NonBlankPages(a) + (NonBlankPages(init) + kept);
    }
  }

  /** A single page is kept once when it has text and dropped when it is blank; with
      `NonBlankPagesAppend` this fixes the kept pages of every document, repeats included. */
  lemma NonBlankPagesSingle(p: string)
    ensures NonBlankPages([p]) == if Strip(p) == [] then [] else [p]
  {
    assert [p][..0] == [];
  }

  /** No page is kept for indexing exactly when every page is blank. */
  lemma {:induction false} NonBlankPagesEmptyIff(pages: seq<string>)
    ensures NonBlankPages(pages) == [] <==> forall i :: 0 <= i < |pages| ==> Strip(pages[i]) == []
    decreases |pages|
  {
    if pages != [] {
      var init := pages[..|pages| - 1];
      NonBlankPagesEmptyIff(init);
      if Strip(pages[|pages| - 1]) == [] {
        assert forall i :: 0 <= i < |init| ==> init[i] == pages[i];
      }
    }
  }

  /** Joining strings that each have text, with any separator, gives a string with text. */
  lemma {:induction false} JoinNonBlank(parts: seq<string>, sep: string)
    requires parts != []
    requires forall k :: 0 <= k < |parts| ==> Strip(parts[k]) != []
    ensures Strip(Join(parts, sep)) != []
    decreases |parts|
  {
    StripEmptyIffBlank(parts[0]);
    var j := Join(parts, sep);
    assert !IsBlank(parts[0]);
    var i :| 0 <= i < |parts[0]| && !IsSpace(parts[0][i]);
    if |parts| > 1 {
      assert j == parts[0] + sep + Join(parts[1..], sep);
    }
    assert j[i] == parts[0][i];
    StripEmptyIffBlank(j);
  }

  /** The text handed to the chunker is blank exactly when every page is blank. */
  lemma FullTextBlankIff(pages: seq<string>)
    ensures Strip(FullText(pages)) == [] <==> forall i :: 0 <= i < |pages| ==> Strip(pages[i]) == []
  {
    NonBlankPagesHaveText(pages);
    NonBlankPagesEmptyIff(pages);
    if NonBlankPages(pages) != [] {
      JoinNonBlank(NonBlankPages(pages), "\n\n");
    }
  }

  /** A PDF whose pages are all blank is skipped. */
  lemma AllBlankPagesSkipped(f: UploadFile, splitter: string -> seq<string>)
    requires forall i :: 0 <= i < |f.pages| ==> Strip(f.pages[i]) == []
    ensures FileChunks(f, splitter) == []
  {
    FullTextBlankIff(f.pages);
  }

  /** The shape of the effects of one file: either nothing, or one index call
      whose records carry the file name, the owner and chunk ids 0, 1, 2, ...,
      followed by the registration of that same PDF name. */
  predicate WellTaggedStep(effects: seq<UploadEffect>, userId: string)
    requires |effects| == 2
  {
    && effects[0].AddToIndex? && effects[1].InsertPdf?
    && effects[0].userId == userId && effects[1].userId == userId
    && effects[0].records != []
    && IsPdfName(effects[1].filename)
    && forall k :: 0 <= k < |effects[0].records| ==>
         effects[0].records[k].chunkId == k
         && effects[0].records[k].source == effects[1].filename
         && effects[0].records[k].userId == userId
  }

  /** One file gives either no effects or one well-tagged step, in which the
      PDF registered is that file and the records hold its chunks, in order. */
  lemma FileEffectsWellTagged(f: UploadFile, userId: string, splitter: string -> seq<string>)
    ensures FileEffects(f, userId, splitter) == [] || |FileEffects(f, userId, splitter)| == 2
    ensures |FileEffects(f, userId, splitter)| == 2 ==> WellTaggedStep(FileEffects(f, userId, splitter), userId)
    ensures FileEffects(f, userId, splitter) == [] <==> FileChunks(f, splitter) == []
    ensures |FileEffects(f, userId, splitter)| == 2 ==>
              var records := FileEffects(f, userId, splitter)[0].records;
              && FileEffects(f, userId, splitter)[1].filename == f.filename
              && |records| == |FileChunks(f, splitter)|
              && forall k :: 0 <= k < |records| ==> records[k].text == FileChunks(f, splitter)[k]
  {
  }

  /** The effects of a whole upload are index calls, each followed by the
      registration of the PDF its chunks came from, with chunk ids numbered from
      0 within each file. */
  lemma {:induction false} UploadEffectsWellTagged(files: seq<UploadFile>, userId: string, splitter: string -> seq<string>)
    ensures |UploadEffects(files, userId, splitter)| % 2 == 0
    ensures forall j :: 0 <= j < |UploadEffects(files, userId, splitter)| / 2 ==>
              WellTaggedStep(UploadEffects(files, userId, splitter)[2 * j..2 * j + 2], userId)
    decreases |files|
  {
    if files != [] {
      var init := files[..|files| - 1];
      var f := files[|files| - 1];
      UploadEffectsWellTagged(init, userId, splitter);
      FileEffectsWellTagged(f, userId, splitter);
      var before := UploadEffects(init, userId, splitter);
      var step := FileEffects(f, userId, splitter);
      var all := UploadEffects(files, userId, splitter);
      assert all == before + step;
      forall j | 0 <= j < |all| / 2 ensures WellTaggedStep(all[2 * j..2 * j + 2], userId) {
        if 2 * j < |before| {
          AppendSliceLeft(before, step, 2 * j, 2 * j + 2);
        } else {
          assert 2 * j == |before| && 2 * j + 2 == |all|;
          AppendSliceRight(before, step);
        }
      }
    }
  }

  /** The names registered with `insert_pdf` by a sequence of effects, in order. */
  function Registered(effects: seq<UploadEffect>): seq<string>
  {
    if effects == [] then []
    else
      var last := effects[|effects| - 1];
      Registered(effects[..|effects| - 1]) + (if last.InsertPdf? then [last.filename] else [])
  }

  lemma {:induction false} RegisteredAppend(a: seq<UploadEffect>, b: seq<UploadEffect>)
    ensures Registered(a + b) == Registered(a) + Registered(b)
    decreases |b|
  {
    if b == [] {
      assert a + b == a;
    } else {
      RegisteredAppend(a, b[..|b| - 1]);
      assert (a + b)[..|a + b| - 1] == a + b[..|b| - 1];
    }
  }

  /** Reference definition: the names of the uploaded files that have chunks to
      index, in upload order. */
  function IndexedFiles(files: seq<UploadFile>, splitter: string -> seq<string>): seq<string>
  {
    if files == [] then []
    else
      var last := files[|files| - 1];
      IndexedFiles(files[..|files| - 1], splitter) + (if FileChunks(last, splitter) == [] then [] else [last.filename])
  }

  /** The PDFs registered are exactly the uploaded files that reached the index,
      by name and in upload order. */
  lemma {:induction false} RegisteredFiles(files: seq<UploadFile>, userId: string, splitter: string -> seq<string>)
    ensures Registered(UploadEffects(files, userId, splitter)) == IndexedFiles(files, splitter)
    decreases |files|
  {
    if files != [] {
      var init := files[..|files| - 1];
      var f := files[|files| - 1];
      var before := UploadEffects(init, userId, splitter);
      var step := FileEffects(f, userId, splitter);
      assert UploadEffects(files, userId, splitter) == before + step;
      RegisteredFiles(init, userId, splitter);
      RegisteredAppend(before, step);
      RegisteredFile(f, userId, splitter);
    }
  }

  /** One file registers its name once if it has chunks to index, and nothing otherwise. */
  lemma RegisteredFile(f: UploadFile, userId: string, splitter: string -> seq<string>)
    ensures Registered(FileEffects(f, userId, splitter)) == if FileChunks(f, splitter) == [] then [] else [f.filename]
  {
    var step := FileEffects(f, userId, splitter);
    if step != [] {
      assert step[..1] == [step[0]];
      assert [step[0]][..0] == [];
      assert Registered(step) == Registered(step[..1]) + [f.filename];
    }
  }

  /** Number of chunk records handed to the index by a sequence of effects. */
  function IndexedCount(effects: seq<UploadEffect>): nat
  {
    if effects == [] then 0
    else
      var last := effects[|effects| - 1];
      IndexedCount(effects[..|effects| - 1]) + (if last.AddToIndex? then |last.records| else 0)
  }

  lemma {:induction false} IndexedCountAppend(a: seq<UploadEffect>, b: seq<UploadEffect>)
    ensures IndexedCount(a + b) == IndexedCount(a) + IndexedCount(b)
    decreases |b|
  {
    if b == [] {
      assert a + b == a;
    } else {
      IndexedCountAppend(a, b[..|b| - 1]);
      assert (a + b)[..|a + b| - 1] == a + b[..|b| - 1];
    }
  }

  /** `total_chunks` is exactly the number of chunk records handed to the index. */
  lemma {:induction false} TotalChunksIsIndexed(files: seq<UploadFile>, userId: string, splitter: string -> seq<string>)
    ensures TotalChunks(files, splitter) == IndexedCount(UploadEffects(files, userId, splitter))
    decreases |files|
  {
    if files != [] {
      var init := files[..|files| - 1];
      var f := files[|files| - 1];
      TotalChunksIsIndexed(init, userId, splitter);
      IndexedCountAppend(UploadEffects(init, userId, splitter), FileEffects(f, userId, splitter));
      FileEffectsIndexed(f, userId, splitter);
    }
  }

  /** The effects of one file hand exactly its chunks to the index. */
  lemma FileEffectsIndexed(f: UploadFile, userId: string, splitter: string -> seq<string>)
    ensures IndexedCount(FileEffects(f, userId, splitter)) == |FileChunks(f, splitter)|
  {
    var step := FileEffects(f, userId, splitter);
    if step != [] {
      assert step[..1] == [step[0]];
      assert IndexedCount(step) == IndexedCount(step[..1]) + 0;
    }
  }

  /** Every file that reaches the index has a PDF name, so chunks imply a PDF was seen. */
  lemma {:induction false} ChunksImplyPdf(files: seq<UploadFile>, splitter: string -> seq<string>)
    ensures TotalChunks(files, splitter) > 0 ==> AnyPdf(files)
    decreases |files|
  {
    if files != [] {
      var init := files[..|files| - 1];
      ChunksImplyPdf(init, splitter);
      if TotalChunks(init, splitter) > 0 {
        var i :| 0 <= i < |init| && IsPdfName(init[i].filename);
        assert files[i] == init[i];
      }
    }
  }

  /** The request fails with 400 exactly when nothing was indexed: the
      `uploaded_any_pdf` flag never changes the outcome. */
  lemma UploadFailsIffNothingIndexed(files: seq<UploadFile>, userId: string, splitter: string -> seq<string>)
    ensures UploadResponse(files, splitter).Failure? <==> IndexedCount(UploadEffects(files, userId, splitter)) == 0
    ensures UploadResponse(files, splitter).Failure? ==> UploadResponse(files, splitter).error.status == 400
    ensures UploadResponse(files, splitter).Success? ==>
              UploadResponse(files, splitter).value.totalChunks == IndexedCount(UploadEffects(files, userId, splitter)) > 0
  {
    ChunksImplyPdf(files, splitter);
    TotalChunksIsIndexed(files, userId, splitter);
  }

  /** An upload with no PDF name among its files fails with 400. */
  lemma NoPdfFails(files: seq<UploadFile>, splitter: string -> seq<string>)
    requires forall i :: 0 <= i < |files| ==> !IsPdfName(files[i].filename)
    ensures UploadResponse(files, splitter) == Failure(HttpError(400, "No valid PDFs uploaded"))
  {
  }
}
