/**
 * The index lifecycle of `VectorStoreManager` (services/vectorstore.py).
 *
 * The FAISS index is modelled by the chunks it holds, in insertion order.
 * Loading, splitting, embedding and similarity ranking are foreign: the chunks
 * a file splits into and the positions the retriever ranks highest are
 * supplied by the caller.
 */
module VectorStore {
  import opened Wrappers
  import opened Text

  /** One split piece of a loaded document; `page_content` in the source. */
  datatype Chunk = Chunk(pageContent: string)

  /** The contents of a FAISS index: its chunks, oldest first. */
  type Index = seq<Chunk>

  /** The two loaders `load_and_split_document` can pick. */
  datatype FileFormat = Pdf | Html

  const UnsupportedFormatMessage := "Unsupported file format. Only PDF and HTML are supported."
  const ResetCompleteMessage := "Vectorstore reset complete."
  const NothingToResetMessage := "No vectorstore to reset."
  const NoDocumentsMessage := "No documents in vectorstore. Please add some documents first."
  const HitSeparator := "\n\n"

  /** The reply of `add_document_to_vectorstore` on success. */
  function AddedMessage(filePath: string): (r: string)
    ensures |r| == |"Added "| + |filePath| + |" to vectorstore."|
    ensures r[..6] == "Added " && r[6..6 + |filePath|] == filePath
    ensures r[6 + |filePath|..] == " to vectorstore."
  {
    "Added " + filePath + " to vectorstore."
  }

  /** Reference definition: the last `|suffix|` characters of `path`, lower-cased one by one, spell `suffix`. */
  ghost predicate HasSuffixIgnoringCase(path: string, suffix: string)
  {
    |suffix| <= |path| &&
    forall i :: 0 <= i < |suffix| ==> LowerChar(path[|path| - |suffix| + i]) == suffix[i]
  }

  /** `path.lower().endswith(suffix)` is the case-insensitive suffix test. */
  lemma SuffixOfLower(path: string, suffix: string)
    ensures EndsWith(Lower(path), suffix) <==> HasSuffixIgnoringCase(path, suffix)
  {
    var p := Lower(path);
    if |suffix| <= |path| {
      if HasSuffixIgnoringCase(path, suffix) {
        assert forall i :: 0 <= i < |suffix| ==> p[|p| - |suffix|..][i] == suffix[i];
      }
      if EndsWith(p, suffix) {
        forall i | 0 <= i < |suffix| ensures LowerChar(path[|path| - |suffix| + i]) == suffix[i] {
          assert p[|p| - |suffix|..][i] == suffix[i];
        }
      }
    }
  }

  /**
   * The loader choice of `load_and_split_document`: suffix of the lower-cased
   * path, `.pdf` first, stated against the case-insensitive suffix test.
   */
  function DocumentFormat(filePath: string): (r: Result<FileFormat>)
    ensures r == Ok(Pdf) <==> HasSuffixIgnoringCase(filePath, ".pdf")
    ensures r == Ok(Html) <==>
              !HasSuffixIgnoringCase(filePath, ".pdf") &&
              (HasSuffixIgnoringCase(filePath, ".html") || HasSuffixIgnoringCase(filePath, ".htm"))
    ensures r == Err(UnsupportedFormatMessage) <==>
              !HasSuffixIgnoringCase(filePath, ".pdf") &&
              !HasSuffixIgnoringCase(filePath, ".html") && !HasSuffixIgnoringCase(filePath, ".htm")
    ensures r.Err? ==> r.message == UnsupportedFormatMessage
  {
    SuffixOfLower(filePath, ".pdf");
    SuffixOfLower(filePath, ".html");
    SuffixOfLower(filePath, ".htm");
    var p := Lower(filePath);
    if EndsWith(p, ".pdf") then Ok(Pdf)
    else if EndsWith(p, ".html") || EndsWith(p, ".htm") then Ok(Html)
    else Err(UnsupportedFormatMessage)
  }

  /** Paths that differ only in the case of their letters get the same loader. */
  lemma DocumentFormatIgnoresCase(a: string, b: string)
    requires Lower(a) == Lower(b)
    ensures DocumentFormat(a) == DocumentFormat(b)
  {
  }

  /** Any casing of a supported extension after any stem is accepted; `.pdf` wins over an inner `.html`. */
  lemma DocumentFormatOfExtension(stem: string, ext: string)
    ensures Lower(ext) == ".pdf" ==> DocumentFormat(stem + ext) == Ok(Pdf)
    ensures Lower(ext) == ".html" || Lower(ext) == ".htm" ==> DocumentFormat(stem + ext) == Ok(Html)
  {
    LowerAppend(stem, ext);
    var p := Lower(stem + ext);
    assert p[|p| - |ext|..] == Lower(ext);
    if Lower(ext) == ".html" || Lower(ext) == ".htm" {
      assert p[|p| - 1] == Lower(ext)[|ext| - 1];
      assert !EndsWith(p, ".pdf");
    }
  }

  /** A path whose last character, lower-cased, ends none of the suffixes is refused. */
  lemma DocumentFormatRefusesLastChar(filePath: string)
    requires |filePath| > 0 && LowerChar(filePath[|filePath| - 1]) !in {'f', 'l', 'm'}
    ensures DocumentFormat(filePath) == Err(UnsupportedFormatMessage)
  {
  }

  /** A concrete accepted PDF path, as the upload form would pass it. */
  lemma DocumentFormatAcceptsPdfExample()
    ensures DocumentFormat("Report.PDF") == Ok(Pdf)
  {
    var p := "Report.PDF";
    assert LowerChar(p[6]) == '.' && LowerChar(p[7]) == 'p' && LowerChar(p[8]) == 'd' && LowerChar(p[9]) == 'f';
    assert HasSuffixIgnoringCase(p, ".pdf");
  }

  /** A concrete accepted HTML path in mixed case. */
  lemma DocumentFormatAcceptsHtmlExample()
    ensures DocumentFormat("page.HtM") == Ok(Html)
  {
    var p := "page.HtM";
    assert LowerChar(p[4]) == '.' && LowerChar(p[5]) == 'h' && LowerChar(p[6]) == 't' && LowerChar(p[7]) == 'm';
    assert HasSuffixIgnoringCase(p, ".htm");
    assert LowerChar(p[7]) != 'f';
  }

  /** Concrete refused paths: another extension, and `.pdf` that is not the last suffix. */
  lemma DocumentFormatRefusesExamples()
    ensures DocumentFormat("notes.txt") == Err(UnsupportedFormatMessage)
    ensures DocumentFormat("scan.pdf.zip") == Err(UnsupportedFormatMessage)
  {
    DocumentFormatRefusesLastChar("notes.txt");
    DocumentFormatRefusesLastChar("scan.pdf.zip");
  }

  /**
   * `load_and_split_document`: the format check, then the chunks the chosen
   * loader and the splitter produce (supplied as `split`).
   */
  function LoadAndSplitDocument(filePath: string, split: Index): (r: Result<Index>)
    ensures r.Err? <==> DocumentFormat(filePath).Err?
    ensures r.Err? ==> r.message == UnsupportedFormatMessage
    ensures r.Ok? ==> r.value == split
  {
    match DocumentFormat(filePath)
    case Ok(_) => Ok(split)
    case Err(msg) => Err(msg)
  }

  /** The index `add_document_to_vectorstore` ends with, given the one it found after the lazy load. */
  function AfterAdd(found: Option<Index>, chunks: Index): (r: Index)
    ensures forall c :: c in r <==> c in chunks || (found.Some? && c in found.value)
  {
    match found
    case Some(idx) => idx + chunks
    case None => chunks
  }

  /** Adding keeps everything already indexed, in order, and puts the new chunks behind it. */
  lemma AfterAddExtends(found: Option<Index>, chunks: Index)
    ensures found.None? ==> AfterAdd(found, chunks) == chunks
    ensures found.Some? ==> |AfterAdd(found, chunks)| == |found.value| + |chunks|
    ensures found.Some? ==> AfterAdd(found, chunks)[..|found.value|] == found.value
    ensures AfterAdd(found, chunks)[|AfterAdd(found, chunks)| - |chunks|..] == chunks
  {
  }

  /** Two adds in a row index the same as one add of both chunk sequences. */
  lemma AfterAddTwice(found: Option<Index>, first: Index, second: Index)
    ensures AfterAdd(Some(AfterAdd(found, first)), second) == AfterAdd(found, first + second)
  {
  }

  /** The chunks at the ranked positions that exist in the index, best first. */
  function Hits(idx: Index, ranked: seq<nat>): (r: seq<Chunk>)
    ensures |r| <= |ranked|
    ensures forall c :: c in r ==> c in idx
    ensures (forall k :: 0 <= k < |ranked| ==> ranked[k] < |idx|) ==> |r| == |ranked|
    ensures (forall k :: 0 <= k < |ranked| ==> ranked[k] < |idx|) ==> forall k :: 0 <= k < |r| ==> r[k] == idx[ranked[k]]
  {
    if ranked == [] then []
    else
      var rest := Hits(idx, ranked[1..]);
      if ranked[0] < |idx| then [idx[ranked[0]]] + rest else rest
  }

  /** The `page_content` of each chunk, in order. */
  function Texts(chunks: seq<Chunk>): (r: seq<string>)
    ensures |r| == |chunks|
    ensures forall k :: 0 <= k < |chunks| ==> r[k] == chunks[k].pageContent
  {
    seq(|chunks|, k requires 0 <= k < |chunks| => chunks[k].pageContent)
  }

  /** What `search_documents` returns once the lazy load is done. */
  function SearchReply(loaded: Option<Index>, ranked: seq<nat>): (r: string)
    ensures loaded.None? ==> r == NoDocumentsMessage
    ensures loaded.Some? && Hits(loaded.value, ranked) == [] ==> r == ""
    ensures loaded.Some? && |Hits(loaded.value, ranked)| == 1 ==> r == Hits(loaded.value, ranked)[0].pageContent
    ensures loaded.Some? && |Hits(loaded.value, ranked)| > 0 ==>
              var first := Hits(loaded.value, ranked)[0].pageContent;
              |first| <= |r| && r[..|first|] == first
  {
    match loaded
    case None => NoDocumentsMessage
    case Some(idx) => Join(HitSeparator, Texts(Hits(idx, ranked)))
  }

  /** Each hit's text stands in the reply at its place in the "\n\n"-joined list. */
  lemma SearchReplyHoldsHits(idx: Index, ranked: seq<nat>, k: nat)
    requires k < |Hits(idx, ranked)|
    ensures var texts := Texts(Hits(idx, ranked));
            var o := PartOffset(HitSeparator, texts, k);
            o + |texts[k]| <= |SearchReply(Some(idx), ranked)| &&
            SearchReply(Some(idx), ranked)[o..o + |texts[k]|] == Hits(idx, ranked)[k].pageContent
  {
    JoinHoldsPart(HitSeparator, Texts(Hits(idx, ranked)), k);
  }

  /** Between the texts of neighbouring hits the reply holds exactly "\n\n". */
  lemma SearchReplySeparatesHits(idx: Index, ranked: seq<nat>, k: nat)
    requires k + 1 < |Hits(idx, ranked)|
    ensures var texts := Texts(Hits(idx, ranked));
            var e := PartOffset(HitSeparator, texts, k) + |texts[k]|;
            e + 2 <= |SearchReply(Some(idx), ranked)| &&
            SearchReply(Some(idx), ranked)[e..e + 2] == "\n\n"
  {
    JoinSeparates(HitSeparator, Texts(Hits(idx, ranked)), k);
  }

  /** The reply ends with the text of the last hit; nothing follows it. */
  lemma SearchReplyEndsWithLastHit(idx: Index, ranked: seq<nat>)
    requires |Hits(idx, ranked)| > 0
    ensures var texts := Texts(Hits(idx, ranked));
            var n := |texts| - 1;
            |SearchReply(Some(idx), ranked)| == PartOffset(HitSeparator, texts, n) + |texts[n]| &&
            SearchReply(Some(idx), ranked)[PartOffset(HitSeparator, texts, n)..] == Hits(idx, ranked)[n].pageContent
  {
    var texts := Texts(Hits(idx, ranked));
    JoinLength(HitSeparator, texts);
    JoinHoldsPart(HitSeparator, texts, |texts| - 1);
  }

  /** The persisted copy at the configured vectorstore path: absent, or an index. */
  class Disk {
    var persisted: Option<Index>

    constructor (initial: Option<Index>)
      ensures persisted == initial
    {
      persisted := initial;
    }
  }

  /** `VectorStoreManager`: an in-memory index field over a persisted copy other managers may share. */
  class VectorStoreManager {
    const disk: Disk
    var vectorstore: Option<Index>

    constructor (disk: Disk)
      ensures this.disk == disk && vectorstore == None
    {
      this.disk := disk;
      vectorstore := None;
    }

    /** The in-memory index, when present, is what is persisted. */
    ghost predicate InSync()
      reads this, disk
    {
      vectorstore.Some? ==> disk.persisted == vectorstore
    }

    /** `create_or_load_vectorstore`. */
    method CreateOrLoadVectorstore() returns (r: Option<Index>)
      modifies this
      ensures vectorstore == disk.persisted && r == vectorstore
      ensures unchanged(disk)
      ensures InSync()
    {
      if disk.persisted.Some? {
        vectorstore := disk.persisted;
      } else {
        vectorstore := None;
      }
      r := vectorstore;
    }

    /** `save_vectorstore`. */
    method SaveVectorstore()
      modifies disk
      ensures disk.persisted == if vectorstore.Some? then vectorstore else old(disk.persisted)
      ensures InSync()
    {
      if vectorstore.Some? {
        disk.persisted := vectorstore;
      }
    }

    /** `reset_vectorstore`. */
    method ResetVectorstore() returns (msg: string)
      modifies this, disk
      ensures disk.persisted == None
      ensures old(disk.persisted).Some? ==> vectorstore == None && msg == ResetCompleteMessage
      ensures old(disk.persisted).None? ==> vectorstore == old(vectorstore) && msg == NothingToResetMessage
      ensures old(InSync()) ==> InSync() && vectorstore == None
    {
      if disk.persisted.Some? {
        disk.persisted := None;
        vectorstore := None;
        msg := ResetCompleteMessage;
      } else {
        msg := NothingToResetMessage;
      }
    }

    /**
     * `add_document_to_vectorstore`; `split` is what the loader and the
     * splitter produce for the file.
     */
    method AddDocumentToVectorstore(filePath: string, split: Index) returns (r: Result<string>)
      modifies this, disk
      ensures DocumentFormat(filePath).Err? ==>
                r == Err(UnsupportedFormatMessage) && unchanged(this) && unchanged(disk)
      ensures DocumentFormat(filePath).Ok? ==>
                r == Ok(AddedMessage(filePath)) &&
                vectorstore == Some(AfterAdd(if old(vectorstore).Some? then old(vectorstore) else old(disk.persisted), split)) &&
                disk.persisted == vectorstore
      ensures old(InSync()) ==> InSync()
    {
      var docs := LoadAndSplitDocument(filePath, split);
      if docs.Err? {
        return Err(docs.message);
      }
      if vectorstore.None? {
        var _ := CreateOrLoadVectorstore();
      }
      if vectorstore.Some? {
        vectorstore := Some(vectorstore.value + docs.value);
      } else {
        vectorstore := Some(docs.value);
      }
      SaveVectorstore();
      r := Ok(AddedMessage(filePath));
    }

    /**
     * `search_documents`; `rank` stands for the similarity retriever: the
     * positions in the index it returns for the query, best first.
     */
    method SearchDocuments(query: string, rank: (Index, string) -> seq<nat>) returns (r: string)
      modifies this
      ensures vectorstore == if old(vectorstore).Some? then old(vectorstore) else disk.persisted
      ensures unchanged(disk)
      ensures vectorstore.None? ==> r == NoDocumentsMessage
      ensures vectorstore.Some? ==> r == SearchReply(vectorstore, rank(vectorstore.value, query))
      ensures old(InSync()) ==> InSync()
    {
      if vectorstore.None? {
        var _ := CreateOrLoadVectorstore();
      }
      if vectorstore.None? {
        return NoDocumentsMessage;
      }
      var hits := Hits(vectorstore.value, rank(vectorstore.value, query));
      r := Join(HitSeparator, Texts(hits));
    }
  }

  /** Loading twice with nothing in between gives the same index both times: the persisted one. */
  method LoadTwice(stored: Option<Index>) returns (first: Option<Index>, second: Option<Index>)
    ensures first == stored && second == stored
  {
    var disk := new Disk(stored);
    var manager := new VectorStoreManager(disk);
    first := manager.CreateOrLoadVectorstore();
    second := manager.CreateOrLoadVectorstore();
  }

  /**
   * The application's wiring: the interface's manager and the tools' manager
   * are two instances over one disk. Once the tools' manager has searched, a
   * reset through the interface deletes the disk copy, yet the tools keep
   * answering from the index they loaded before.
   */
  method StaleSearchAfterReset(stored: Index, query: string, rank: (Index, string) -> seq<nat>)
    returns (before: string, resetReply: string, after: string, persistedAfter: Option<Index>)
    ensures resetReply == ResetCompleteMessage && persistedAfter == None
    ensures before == SearchReply(Some(stored), rank(stored, query))
    ensures after == before
  {
    var disk := new Disk(Some(stored));
    var ui := new VectorStoreManager(disk);
    var tools := new VectorStoreManager(disk);
    before := tools.SearchDocuments(query, rank);
    resetReply := ui.ResetVectorstore();
    after := tools.SearchDocuments(query, rank);
    persistedAfter := disk.persisted;
  }

  /**
   * A concrete instance of the stale search: with one chunk on disk and a
   * retriever that returns it, the tools still answer with that chunk after
   * the reset, not with the no-documents reply a fresh load would give.
   */
  method StaleSearchAfterResetWitness() returns (resetReply: string, after: string, persistedAfter: Option<Index>)
    ensures resetReply == ResetCompleteMessage && persistedAfter == None
    ensures after == "x"
    ensures after != NoDocumentsMessage
  {
    var stored := [Chunk("x")];
    var rank := (idx: Index, q: string) => [0];
    var before;
    before, resetReply, after, persistedAfter := StaleSearchAfterReset(stored, "q", rank);
    assert Hits(stored, [0]) == [Chunk("x")];
    assert Texts([Chunk("x")]) == ["x"];
  }

  /**
   * The same two instances after an upload: the interface's manager adds a
   * document and saves, and the tools' manager, having loaded earlier, does
   * not see the new chunks.
   */
  method StaleSearchAfterAdd(stored: Index, filePath: string, split: Index, query: string,
                             rank: (Index, string) -> seq<nat>)
    returns (added: Result<string>, after: string, persistedAfter: Option<Index>)
    requires DocumentFormat(filePath).Ok?
    ensures added == Ok(AddedMessage(filePath))
    ensures persistedAfter == Some(stored + split)
    ensures after == SearchReply(Some(stored), rank(stored, query))
  {
    var disk := new Disk(Some(stored));
    var ui := new VectorStoreManager(disk);
    var tools := new VectorStoreManager(disk);
    var _ := tools.SearchDocuments(query, rank);
    added := ui.AddDocumentToVectorstore(filePath, split);
    after := tools.SearchDocuments(query, rank);
    persistedAfter := disk.persisted;
  }

  /**
   * A concrete instance of the stale search after an upload: "a" on disk,
   * "b" uploaded, a retriever that picks the newest chunk. The tools' manager
   * answers "a", while a manager loading the new disk copy answers "b".
   */
  method StaleSearchAfterAddWitness() returns (staleReply: string, freshReply: string)
    ensures staleReply == "a" && freshReply == "b"
  {
    var rank := (idx: Index, q: string) => if |idx| == 0 then [] else [|idx| - 1];
    DocumentFormatAcceptsPdfExample();
    var disk := new Disk(Some([Chunk("a")]));
    var ui := new VectorStoreManager(disk);
    var tools := new VectorStoreManager(disk);
    var _ := tools.SearchDocuments("q", rank);
    var _ := ui.AddDocumentToVectorstore("Report.PDF", [Chunk("b")]);
    staleReply := tools.SearchDocuments("q", rank);
    var reloaded := new VectorStoreManager(disk);
    freshReply := reloaded.SearchDocuments("q", rank);
    NewestChunkReplies();
  }

  /** The replies of a retriever that picks the newest chunk, before and after "b" is added. */
  lemma NewestChunkReplies()
    ensures SearchReply(Some([Chunk("a")]), [0]) == "a"
    ensures SearchReply(Some([Chunk("a")] + [Chunk("b")]), [1]) == "b"
  {
    assert [Chunk("a")] + [Chunk("b")] == [Chunk("a"), Chunk("b")];
    assert Hits([Chunk("a")], [0]) == [Chunk("a")];
    assert Hits([Chunk("a"), Chunk("b")], [1]) == [Chunk("b")];
  }

  /** A tools' manager that has not searched yet does load the latest upload, on top of what was stored. */
  method FirstSearchSeesUpload(stored: Option<Index>, filePath: string, split: Index, query: string,
                               rank: (Index, string) -> seq<nat>)
    returns (added: Result<string>, after: string)
    requires DocumentFormat(filePath).Ok?
    ensures added == Ok(AddedMessage(filePath))
    ensures after == SearchReply(Some(AfterAdd(stored, split)), rank(AfterAdd(stored, split), query))
  {
    var disk := new Disk(stored);
    var ui := new VectorStoreManager(disk);
    var tools := new VectorStoreManager(disk);
    added := ui.AddDocumentToVectorstore(filePath, split);
    after := tools.SearchDocuments(query, rank);
  }

  /** With one shared manager, a search after a reset reports that there are no documents. */
  method SharedManagerSearchAfterReset(stored: Index, query: string, rank: (Index, string) -> seq<nat>)
    returns (resetReply: string, after: string)
    ensures resetReply == ResetCompleteMessage
    ensures after == NoDocumentsMessage
  {
    var disk := new Disk(Some(stored));
    var manager := new VectorStoreManager(disk);
    var _ := manager.SearchDocuments(query, rank);
    resetReply := manager.ResetVectorstore();
    after := manager.SearchDocuments(query, rank);
  }

  /** An unsupported upload leaves the manager and the disk as they were. */
  method UnsupportedUploadChangesNothing(stored: Option<Index>, filePath: string, split: Index)
    returns (added: Result<string>, memory: Option<Index>, persistedAfter: Option<Index>)
    requires DocumentFormat(filePath).Err?
    ensures added == Err(UnsupportedFormatMessage)
    ensures memory == None && persistedAfter == stored
  {
    var disk := new Disk(stored);
    var manager := new VectorStoreManager(disk);
    added := manager.AddDocumentToVectorstore(filePath, split);
    memory := manager.vectorstore;
    persistedAfter := disk.persisted;
  }
}
