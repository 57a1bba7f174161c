/**
 * The cache representation of a document: the tagged record that encodes a
 * `ConversionState`, its decoding (which can fail), the cached item with its
 * states keyed by raw format tag, and the two conversions between the cached
 * and the live document.
 */
module DocumentItemCached {
  import opened Wrappers
  import opened Paths
  import opened DocumentItem

  /**
   * `ConversionStateCodable`: the tag (`type` in the JSON) and one optional
   * field per payload.
   */
  datatype ConversionStateCodable = ConversionStateCodable(
    kind: string, progress: Option<real>, message: Option<string>, fileURL: Option<Url>)

  /** `init(from:)`: records the case as a tag and fills in that case's payload field only. */
  function Encode(state: ConversionState): (c: ConversionStateCodable)
    ensures state.Idle? <==> c.kind == "idle"
    ensures state.Converting? <==> c.kind == "converting"
    ensures state.Completed? <==> c.kind == "completed"
    ensures state.Failed? <==> c.kind == "failed"
    ensures c.progress.Some? <==> state.Converting?
    ensures c.fileURL.Some? <==> state.Completed?
    ensures c.message.Some? <==> state.Failed?
  {
    match state
    case Idle => ConversionStateCodable("idle", None, None, None)
    case Converting(p) => ConversionStateCodable("converting", Some(p), None, None)
    case Completed(u) => ConversionStateCodable("completed", None, None, Some(u))
    case Failed(m) => ConversionStateCodable("failed", None, Some(m), None)
  }

  /**
   * `toConversionState()`: the tag chooses the case, whose payload must be
   * present; an unknown tag gives `nil`.
   */
  function ToConversionState(c: ConversionStateCodable): Option<ConversionState>
  {
    if c.kind == "idle" then Some(Idle)
    else if c.kind == "converting" then
      if c.progress.Some? then Some(Converting(c.progress.value)) else None
    else if c.kind == "completed" then
      if c.fileURL.Some? then Some(Completed(c.fileURL.value)) else None
    else if c.kind == "failed" then
      if c.message.Some? then Some(Failed(c.message.value)) else None
    else None
  }

  /** Decoding an encoded state gives the state back, for all four cases. */
  lemma StateRoundTrip(state: ConversionState)
    ensures ToConversionState(Encode(state)) == Some(state)
  {
  }

  /**
   * A successful decode reads the tag and the tag's own payload only: the
   * decoded state encodes back to the same tag and payload.
   */
  lemma DecodeReadsOwnPayload(c: ConversionStateCodable)
    ensures var s := ToConversionState(c);
      s.Some? ==>
        var e := Encode(s.value);
        && e.kind == c.kind
        && (e.progress.Some? ==> e.progress == c.progress)
        && (e.fileURL.Some? ==> e.fileURL == c.fileURL)
        && (e.message.Some? ==> e.message == c.message)
  {
  }

  /**
   * Which records fail to decode: exactly those with an unknown tag and those
   * whose tag's payload is missing; `idle` decodes whatever the payload fields hold.
   */
  lemma DecodeFailures(c: ConversionStateCodable)
    ensures ToConversionState(c).None? <==>
      || (c.kind != "idle" && c.kind != "converting" && c.kind != "completed" && c.kind != "failed")
      || (c.kind == "converting" && c.progress.None?)
      || (c.kind == "completed" && c.fileURL.None?)
      || (c.kind == "failed" && c.message.None?)
    ensures c.kind == "idle" ==> ToConversionState(c) == Some(Idle)
  {
  }

  /** `DocumentItemCached`: the declared fields only. */
  datatype CachedDocument = CachedDocument(id: Uuid, fileName: string, conversionStates: map<string, ConversionStateCodable>)

  /** No two keys of `keys` that `transform` keeps are sent to the same new key. */
  ghost predicate InjectiveOn<K, T>(keys: set<K>, transform: K -> Option<T>)
  {
    forall k1, k2 :: k1 in keys && k2 in keys && transform(k1).Some? && transform(k1) == transform(k2) ==> k1 == k2
  }

  /** The entries of `m` whose key `transform` keeps, under their new keys. */
  ghost function Rekeyed<K, T, V>(m: map<K, V>, transform: K -> Option<T>): map<T, V>
    requires InjectiveOn(m.Keys, transform)
  {
    map k | k in m && transform(k).Some? :: transform(k).value := m[k]
  }

  /**
   * `Dictionary.compactMapKeys`: a `for` loop over the entries, whose order
   * is unspecified, storing every entry whose key maps to a new key. The
   * result has exactly the new keys, each holding the value of an entry
   * that maps to it; when no two kept keys collide, it is exactly those
   * entries with their values unchanged.
   */
  method CompactMapKeys<K(==), T(==), V>(m: map<K, V>, transform: K -> Option<T>) returns (result: map<T, V>)
    ensures forall t :: t in result <==> exists k :: k in m && transform(k) == Some(t)
    ensures forall t :: t in result ==> exists k :: k in m && transform(k) == Some(t) && result[t] == m[k]
    ensures InjectiveOn(m.Keys, transform) ==> result == Rekeyed(m, transform)
  {
    result := map[];
    var pending := m.Keys;
    ghost var done: set<K> := {};
    while pending != {}
      invariant pending + done == m.Keys && pending !! done
      invariant forall t :: t in result <==> exists k :: k in done && transform(k) == Some(t)
      invariant forall t :: t in result ==> exists k :: k in done && transform(k) == Some(t) && result[t] == m[k]
      invariant InjectiveOn(m.Keys, transform) ==>
        forall k :: k in done && transform(k).Some? ==> transform(k).value in result && result[transform(k).value] == m[k]
      decreases pending
    {
      var key :| key in pending;
      var newKey := transform(key);
      if newKey.Some? {
        result := result[newKey.value := m[key]];
      }
      pending := pending - {key};
      done := done + {key};
    }
    if InjectiveOn(m.Keys, transform) {
      RekeyedByEntries(m, transform, result);
    }
  }

  /** A map with the kept new keys and, under each, the value of the entry it came from, is `Rekeyed`. */
  lemma RekeyedByEntries<K, T, V>(m: map<K, V>, transform: K -> Option<T>, result: map<T, V>)
    requires InjectiveOn(m.Keys, transform)
    requires forall t :: t in result <==> exists k :: k in m && transform(k) == Some(t)
    requires forall k :: k in m && transform(k).Some? ==> transform(k).value in result && result[transform(k).value] == m[k]
    ensures result == Rekeyed(m, transform)
  {
    var r := Rekeyed(m, transform);
    forall t | t in result
      ensures t in r && r[t] == result[t]
    {
      var k :| k in m && transform(k) == Some(t);
      assert transform(k).value == t;
    }
    forall t | t in r
      ensures t in result
    {
      var k :| k in m && transform(k).Some? && transform(k).value == t;
    }
  }

  /** `ConversionFormat(rawValue:)` never sends two tags to the same format. */
  lemma FormatFromRawValueInjective(keys: set<string>)
    ensures InjectiveOn(keys, FormatFromRawValue)
  {
    forall k1, k2 | k1 in keys && k2 in keys && FormatFromRawValue(k1).Some? && FormatFromRawValue(k1) == FormatFromRawValue(k2)
      ensures k1 == k2
    {
      RawValueRoundTrip(FormatFromRawValue(k1).value, k1);
      RawValueRoundTrip(FormatFromRawValue(k1).value, k2);
    }
  }

  /** `Dictionary.compactMapValues`: the entries whose value `transform` keeps, with the new values. */
  function CompactMapValues<K(!new), V, W>(m: map<K, V>, transform: V -> Option<W>): (r: map<K, W>)
    ensures forall k :: k in r <==> k in m && transform(m[k]).Some?
    ensures forall k :: k in r ==> transform(m[k]) == Some(r[k])
  {
    map k | k in m && transform(m[k]).Some? :: transform(m[k]).value
  }

  /**
   * The states `toDocumentItem` installs: exactly the cached entries with a
   * known format tag and a decodable state, decoded; formats without such an
   * entry are left out rather than set to `idle`.
   */
  function RestoredStates(cached: map<string, ConversionStateCodable>): (m: map<ConversionFormat, ConversionState>)
    ensures forall f :: f in m <==> f.RawValue() in cached && ToConversionState(cached[f.RawValue()]).Some?
    ensures forall f :: f in m ==> ToConversionState(cached[f.RawValue()]) == Some(m[f])
  {
    var m := map f | f in AllCases && f.RawValue() in cached && ToConversionState(cached[f.RawValue()]).Some?
      :: ToConversionState(cached[f.RawValue()]).value;
    assert forall f :: f in m <==> f.RawValue() in cached && ToConversionState(cached[f.RawValue()]).Some? by {
      forall f ensures f in m <==> f.RawValue() in cached && ToConversionState(cached[f.RawValue()]).Some? {
        AllCasesComplete(f);
      }
    }
    m
  }

  /**
   * Re-keying the cached entries by `ConversionFormat(rawValue:)` and then
   * dropping the undecodable ones gives exactly `RestoredStates`.
   */
  lemma RestoredByCompactMaps(cached: map<string, ConversionStateCodable>)
    ensures InjectiveOn(cached.Keys, FormatFromRawValue)
    ensures CompactMapValues(Rekeyed(cached, FormatFromRawValue), ToConversionState) == RestoredStates(cached)
  {
    FormatFromRawValueInjective(cached.Keys);
    var keyed := Rekeyed(cached, FormatFromRawValue);
    forall f
      ensures f in keyed <==> f.RawValue() in cached
      ensures f in keyed ==> keyed[f] == cached[f.RawValue()]
    {
      RawValueRoundTrip(f, f.RawValue());
      if f in keyed {
        var k :| k in cached && FormatFromRawValue(k).Some? && FormatFromRawValue(k).value == f;
        RawValueRoundTrip(f, k);
      }
    }
    var left := CompactMapValues(keyed, ToConversionState);
    var right := RestoredStates(cached);
    assert left.Keys == right.Keys;
  }

  /**
   * `toDocumentItem()`: keeps id and name, places the file in the documents
   * directory, and passes the restored states explicitly. It never gives `nil`.
   */
  method ToDocumentItem(c: CachedDocument, documentsDirectory: Url) returns (d: Document)
    ensures fresh(d)
    ensures d.id == c.id && d.fileName == c.fileName
    ensures d.fileURL == Appending(documentsDirectory, c.fileName)
    ensures d.states == RestoredStates(c.conversionStates)
  {
    var fileURL := Appending(documentsDirectory, c.fileName);
    var keyed := CompactMapKeys(c.conversionStates, FormatFromRawValue);
    FormatFromRawValueInjective(c.conversionStates.Keys);
    RestoredByCompactMaps(c.conversionStates);
    var states := CompactMapValues(keyed, ToConversionState);
    d := new Document(c.id, fileURL, c.fileName, Some(states));
  }

  /** The entries `toCacheable` builds: one per present format, under its raw value, holding the encoded state. */
  function CacheableStates(states: map<ConversionFormat, ConversionState>): (r: map<string, ConversionStateCodable>)
    ensures forall f: ConversionFormat :: f.RawValue() in r <==> f in states
    ensures forall f :: f in states ==> r[f.RawValue()] == Encode(states[f])
    ensures forall k :: k in r ==> FormatFromRawValue(k).Some?
  {
    assert forall f: ConversionFormat, g: ConversionFormat :: f.RawValue() == g.RawValue() ==> f == g by {
      forall f: ConversionFormat, g: ConversionFormat ensures f.RawValue() == g.RawValue() ==> f == g {
        RawValueInjective(f, g);
      }
    }
    var r := map f | f in states :: f.RawValue() := Encode(states[f]);
    assert forall k :: k in r ==> FormatFromRawValue(k).Some? by {
      forall k | k in r ensures FormatFromRawValue(k).Some? {
        var g :| g in states && g.RawValue() == k;
        RawValueRoundTrip(g, k);
      }
    }
    r
  }

  /** `DocumentItem.toCacheable()`: keeps id and name and encodes the states under their raw values. */
  function ToCacheable(d: Document): (c: CachedDocument)
    reads d
    ensures c.id == d.id && c.fileName == d.fileName
    ensures c.conversionStates == CacheableStates(d.states)
  {
    CachedDocument(d.id, d.fileName, CacheableStates(d.states))
  }

  /**
   * Caching a document's states and restoring them gives the state map back
   * exactly, including any formats it lacks.
   */
  lemma CacheRoundTrip(states: map<ConversionFormat, ConversionState>)
    ensures RestoredStates(CacheableStates(states)) == states
  {
    var cached := CacheableStates(states);
    var restored := RestoredStates(cached);
    forall f | f in states
      ensures f in restored && restored[f] == states[f]
    {
      assert cached[f.RawValue()] == Encode(states[f]);
      StateRoundTrip(states[f]);
    }
    forall f | f in restored
      ensures f in states
    {
      assert f.RawValue() in cached;
    }
    assert restored.Keys == states.Keys;
  }
}
