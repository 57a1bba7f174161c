/**
 * The document entity: the three target formats, the per-format conversion
 * state, and `DocumentItem`, a reference object whose `conversionStates`
 * map the conversion managers assign in place.
 */
module DocumentItem {
  import opened Wrappers
  import opened Paths

  /** `ConversionFormat`, a `String` enum; the raw value is the extension with its dot. */
  datatype ConversionFormat = Step | Stl | Obj
  {
    function RawValue(): string
    {
      match this
      case Step => ".step"
      case Stl => ".stl"
      case Obj => ".obj"
    }
  }

  /** `ConversionFormat.allCases`, in declaration order. */
  const AllCases: seq<ConversionFormat> := [Step, Stl, Obj]

  /** `ConversionFormat(rawValue:)`. */
  function FormatFromRawValue(raw: string): Option<ConversionFormat>
  {
    if raw == ".step" then Some(Step)
    else if raw == ".stl" then Some(Stl)
    else if raw == ".obj" then Some(Obj)
    else None
  }

  /** `allCases` lists every format exactly once, and the raw values are pairwise distinct. */
  lemma AllCasesComplete(f: ConversionFormat)
    ensures f in AllCases
    ensures |AllCases| == 3
    ensures forall i, j :: 0 <= i < j < |AllCases| ==> AllCases[i].RawValue() != AllCases[j].RawValue()
  {
  }

  /** Distinct formats have distinct raw values. */
  lemma RawValueInjective(f: ConversionFormat, g: ConversionFormat)
    ensures f.RawValue() == g.RawValue() ==> f == g
  {
    if f != g {
      assert f.RawValue() != g.RawValue() by {
        RawValueRoundTrip(f, g.RawValue());
      }
    }
  }

  /** `ConversionFormat(rawValue:)` inverts `rawValue` and recognises nothing else. */
  lemma RawValueRoundTrip(f: ConversionFormat, raw: string)
    ensures FormatFromRawValue(f.RawValue()) == Some(f)
    ensures FormatFromRawValue(raw) == Some(f) <==> raw == f.RawValue()
  {
  }

  /** `ConversionState`; `progress` is the `Double` the engine reported. */
  datatype ConversionState = Idle | Converting(progress: real) | Completed(url: Url) | Failed(message: string)

  type Uuid = nat

  /** The map `init` installs when no states are passed: every format `idle`. */
  function AllIdle(): (m: map<ConversionFormat, ConversionState>)
    ensures forall f: ConversionFormat :: f in m && m[f] == Idle
  {
    var m := map[Step := Idle, Stl := Idle, Obj := Idle];
    assert forall f: ConversionFormat :: f in m by {
      forall f: ConversionFormat ensures f in m {
        if f.Step? { assert f == Step; } else if f.Stl? { assert f == Stl; } else { assert f == Obj; }
      }
    }
    m
  }

  /**
   * `DocumentItem`: identity, source file and display name never change;
   * `states` is the published `conversionStates` dictionary.
   */
  class Document {
    const id: Uuid
    const fileURL: Url
    const fileName: string
    var states: map<ConversionFormat, ConversionState>

    /**
     * `init(id:fileURL:fileName:conversionStates:)`: an explicit state map is
     * stored as given, even when it lacks some formats; without one every
     * format starts `idle`.
     */
    constructor (id: Uuid, fileURL: Url, fileName: string, conversionStates: Option<map<ConversionFormat, ConversionState>>)
      ensures this.id == id && this.fileURL == fileURL && this.fileName == fileName
      ensures conversionStates.Some? ==> states == conversionStates.value
      ensures conversionStates.None? ==> states == AllIdle()
    {
      this.id := id;
      this.fileURL := fileURL;
      this.fileName := fileName;
      states := if conversionStates.Some? then conversionStates.value else AllIdle();
    }
  }

  /** `static func ==`: two items are the same document exactly when their ids agree. */
  predicate SameDocument(a: Document, b: Document)
  {
    a.id == b.id
  }

  /** `hash(into:)` feeds only the id to the hasher. */
  function HashInput(d: Document): Uuid
  {
    d.id
  }

  /**
   * Equality is an equivalence that ignores URL, name and states, and the
   * hash agrees with it.
   */
  lemma EqualityByIdentity(a: Document, b: Document, c: Document)
    ensures SameDocument(a, a)
    ensures SameDocument(a, b) ==> SameDocument(b, a)
    ensures SameDocument(a, b) && SameDocument(b, c) ==> SameDocument(a, c)
    ensures SameDocument(a, b) ==> HashInput(a) == HashInput(b)
    ensures a.id == b.id && (a.fileURL != b.fileURL || a.fileName != b.fileName) ==> SameDocument(a, b)
  {
  }
}
