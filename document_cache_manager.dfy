/**
 * `DocumentCacheManager`: saving the document list as a cache file in the
 * documents directory and restoring it. The file system is a snapshot
 * `map<Url, seq<byte>>` of existing files and their contents; the JSON
 * encoder and decoder are parameters (the decoder may fail), and so is the
 * documents directory.
 */
module DocumentCacheManager {
  import opened Wrappers
  import opened Paths
  import opened DocumentItem
  import opened DocumentItemCached
  import Streams

  type byte = Streams.byte
  type Files = map<Url, seq<byte>>

  /** `cacheFileName`. */
  const CacheFileName: string := ".documents_cache.json"

  /** `cacheFileURL()`: the cache file sits directly in the documents directory. */
  function CacheFileURL(documentsDirectory: Url): (u: Url)
    ensures forall name :: Appending(documentsDirectory, name) == u <==> name == CacheFileName
  {
    Appending(documentsDirectory, CacheFileName)
  }

  /** The file `restoreDocuments` looks for to keep a cached item: its name in the documents directory. */
  predicate FilePresent(files: Files, documentsDirectory: Url, item: CachedDocument)
  {
    Appending(documentsDirectory, item.fileName) in files
  }

  /** The cached items whose file exists, in their cached order. */
  function Surviving(items: seq<CachedDocument>, files: Files, documentsDirectory: Url): (r: seq<CachedDocument>)
    ensures |r| <= |items|
    ensures forall c :: c in r <==> c in items && FilePresent(files, documentsDirectory, c)
  {
    if items == [] then []
    else
      var rest := Surviving(items[1..], files, documentsDirectory);
      assert forall c :: c in items <==> c == items[0] || c in items[1..];
      if FilePresent(files, documentsDirectory, items[0]) then [items[0]] + rest else rest
  }

  /** The filter keeps order: it distributes over concatenation. */
  lemma {:induction false} SurvivingKeepsOrder(a: seq<CachedDocument>, b: seq<CachedDocument>, files: Files, documentsDirectory: Url)
    ensures Surviving(a + b, files, documentsDirectory)
      == Surviving(a, files, documentsDirectory) + Surviving(b, files, documentsDirectory)
    decreases |a|
  {
    if a == [] {
      assert a + b == b;
    } else {
      assert (a + b)[0] == a[0];
      assert (a + b)[1..] == a[1..] + b;
      SurvivingKeepsOrder(a[1..], b, files, documentsDirectory);
    }
  }

  /** A single item is kept exactly when its file exists. */
  lemma SurvivingSingle(c: CachedDocument, files: Files, documentsDirectory: Url)
    ensures Surviving([c], files, documentsDirectory) == if FilePresent(files, documentsDirectory, c) then [c] else []
  {
    assert [c][1..] == [];
  }

  /**
   * The cached items `restoreDocuments` turns into documents: none when the
   * cache file is missing or does not decode, otherwise those whose file
   * still exists.
   */
  function RestoredItems(files: Files, documentsDirectory: Url, decode: seq<byte> -> Option<seq<CachedDocument>>): (r: seq<CachedDocument>)
    ensures CacheFileURL(documentsDirectory) !in files ==> r == []
    ensures CacheFileURL(documentsDirectory) in files && decode(files[CacheFileURL(documentsDirectory)]).None? ==> r == []
    ensures CacheFileURL(documentsDirectory) in files && decode(files[CacheFileURL(documentsDirectory)]).Some? ==>
      var items := decode(files[CacheFileURL(documentsDirectory)]).value;
      && |r| <= |items|
      && forall c :: c in r <==> c in items && FilePresent(files, documentsDirectory, c)
  {
    var cacheURL := CacheFileURL(documentsDirectory);
    if cacheURL !in files then []
    else
      match decode(files[cacheURL])
      case None => []
      case Some(items) => Surviving(items, files, documentsDirectory)
  }

  /**
   * `restoreDocuments()`: the surviving cached items, in order, each turned
   * into a new document by `toDocumentItem`.
   */
  method RestoreDocuments(files: Files, documentsDirectory: Url, decode: seq<byte> -> Option<seq<CachedDocument>>)
    returns (documents: seq<Document>)
    ensures var items := RestoredItems(files, documentsDirectory, decode);
      && |documents| == |items|
      && forall i :: 0 <= i < |items| ==>
           && fresh(documents[i])
           && documents[i].id == items[i].id
           && documents[i].fileName == items[i].fileName
           && documents[i].fileURL == Appending(documentsDirectory, items[i].fileName)
           && documents[i].states == RestoredStates(items[i].conversionStates)
  {
    var items := RestoredItems(files, documentsDirectory, decode);
    documents := [];
    var i := 0;
    while i < |items|
      invariant 0 <= i <= |items| && |documents| == i
      invariant forall j :: 0 <= j < i ==>
           && fresh(documents[j])
           && documents[j].id == items[j].id
           && documents[j].fileName == items[j].fileName
           && documents[j].fileURL == Appending(documentsDirectory, items[j].fileName)
           && documents[j].states == RestoredStates(items[j].conversionStates)
    {
      var d := ToDocumentItem(items[i], documentsDirectory);
      documents := documents + [d];
      i := i + 1;
    }
  }

  /** `documents.map { $0.toCacheable() }`: one cached item per document, in order. */
  function Cacheable(documents: seq<Document>): (r: seq<CachedDocument>)
    reads set d | d in documents
    ensures |r| == |documents|
    ensures forall i :: 0 <= i < |documents| ==> r[i] == ToCacheable(documents[i])
  {
    if documents == [] then [] else [ToCacheable(documents[0])] + Cacheable(documents[1..])
  }

  /**
   * `saveDocuments(_:)`: the encoded list replaces the cache file; when
   * encoding or writing fails the error is swallowed and the files are as
   * before.
   */
  function SaveDocuments(files: Files, documentsDirectory: Url, documents: seq<Document>,
                         encode: seq<CachedDocument> -> Option<seq<byte>>, writable: bool): (r: Files)
    reads set d | d in documents
    ensures encode(Cacheable(documents)).None? || !writable ==> r == files
    ensures encode(Cacheable(documents)).Some? && writable ==>
      r == files[CacheFileURL(documentsDirectory) := encode(Cacheable(documents)).value]
  {
    match encode(Cacheable(documents))
    case None => files
    case Some(data) => if writable then files[CacheFileURL(documentsDirectory) := data] else files
  }

  /**
   * Save then restore: when the decoder inverts the encoder and the write
   * succeeds, the restored items are the saved documents whose file exists,
   * in order, and each one's states come back exactly.
   */
  lemma SaveRestoreRoundTrip(files: Files, documentsDirectory: Url, documents: seq<Document>,
                             encode: seq<CachedDocument> -> Option<seq<byte>>,
                             decode: seq<byte> -> Option<seq<CachedDocument>>)
    requires encode(Cacheable(documents)).Some?
    requires decode(encode(Cacheable(documents)).value) == Some(Cacheable(documents))
    ensures var saved := SaveDocuments(files, documentsDirectory, documents, encode, true);
      var items := RestoredItems(saved, documentsDirectory, decode);
      && items == Surviving(Cacheable(documents), saved, documentsDirectory)
      && forall c :: c in items ==>
           exists d :: d in documents && c == ToCacheable(d) && RestoredStates(c.conversionStates) == d.states
  {
    var saved := SaveDocuments(files, documentsDirectory, documents, encode, true);
    var cs := Cacheable(documents);
    forall c | c in RestoredItems(saved, documentsDirectory, decode)
      ensures exists d :: d in documents && c == ToCacheable(d) && RestoredStates(c.conversionStates) == d.states
    {
      var i :| 0 <= i < |cs| && cs[i] == c;
      CacheRoundTrip(documents[i].states);
      assert documents[i] in documents;
    }
  }
}
