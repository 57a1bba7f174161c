/**
 * `DocumentConversionManager` (the current copy, under `Conversion/`): a
 * registry from `(documentID, format)` to the subscription of the running
 * conversion, and the handlers that copy the engine's events into the
 * document's `conversionStates`.
 *
 * The Combine pipeline becomes explicit event methods taking the `Job` that
 * sent the event. Cancelling a subscription stops its delivery, and a
 * completed publisher sends nothing more, so an event reaches its handlers
 * exactly when its job is still the one registered under its key; an event
 * from any other job changes nothing.
 */
module ConversionManager {
  import opened Paths
  import opened Streams
  import opened DocumentItem
  import opened DocumentConversionEngine
  import opened ConversionRegistry

  class DocumentConversionManager {
    /** `conversionSubscriptions`. */
    var subscriptions: map<Key, Job>
    /** The identity the next subscription gets. */
    var nextJob: nat
    /** The subscriptions `cancel()` was called on. */
    ghost var cancelled: set<nat>

    /** The registry invariant holds of the fields. */
    ghost predicate Valid()
      reads this
    {
      WellFormed(subscriptions, nextJob, cancelled, OutputURL)
    }

    /** The job's events are still delivered. */
    predicate Live(job: Job)
      reads this
    {
      job.KeyOf() in subscriptions && subscriptions[job.KeyOf()] == job
    }

    /** `init(fileConverter:)`: no conversion registered. */
    constructor ()
      ensures Valid() && subscriptions == map[] && cancelled == {}
    {
      subscriptions := map[];
      nextJob := 0;
      cancelled := {};
    }

    /**
     * `startConversion(for:format:)`: cancels the job registered under the
     * key, if any, sets the format `converting(0)`, and registers a new job
     * writing to `outputURL(document.fileURL, format)`.
     */
    method StartConversion(document: Document, format: ConversionFormat)
      requires Valid()
      modifies this, document
      ensures Valid()
      ensures document.states == old(document.states)[format := Converting(0.0)]
      ensures var key := Key(document.id, format);
        var job := Job(old(nextJob), document, format, OutputURL(document.fileURL, format));
        && subscriptions == old(subscriptions)[key := job]
        && Live(job)
        && cancelled == old(cancelled) + (if key in old(subscriptions) then {old(subscriptions)[key].id} else {})
        && (key in old(subscriptions) ==> !Live(old(subscriptions)[key]))
      ensures nextJob == old(nextJob) + 1
    {
      var key := Key(document.id, format);
      var targetURL := OutputURL(document.fileURL, format);
      var job := Job(nextJob, document, format, targetURL);
      RegisterKeepsWellFormed(subscriptions, nextJob, cancelled, OutputURL, job);
      ghost var superseded := if key in subscriptions then {subscriptions[key].id} else {};
      cancelled := cancelled + superseded;
      document.states := document.states[format := Converting(0.0)];
      nextJob := nextJob + 1;
      subscriptions := subscriptions[key := job];
    }

    /** `receiveValue`: a delivered progress value becomes `converting(progress)`. */
    method OnValue(job: Job, progress: real)
      requires Valid()
      modifies job.document
      ensures Live(job) ==> job.document.states == old(job.document.states)[job.format := Converting(progress)]
      ensures !Live(job) ==> job.document.states == old(job.document.states)
    {
      if Live(job) {
        job.document.states := job.document.states[job.format := Converting(progress)];
      }
    }

    /**
     * `receiveCompletion`: a delivered completion stores the state
     * `CompletedState` gives (after `.finished`, the URL the job wrote to)
     * and unregisters the key; `description` is the error's
     * `localizedDescription`.
     */
    method OnCompletion(job: Job, completion: Completion, description: string)
      requires Valid()
      modifies this, job.document
      ensures Valid()
      ensures nextJob == old(nextJob) && cancelled == old(cancelled)
      ensures old(Live(job)) ==>
        && job.document.states == old(job.document.states)[job.format := CompletedState(completion, job.target, description)]
        && subscriptions == old(subscriptions) - {job.KeyOf()}
      ensures !old(Live(job)) ==> job.document.states == old(job.document.states) && subscriptions == old(subscriptions)
      ensures completion.Finished? && old(Live(job)) ==>
        job.document.states[job.format] == Completed(OutputURL(job.document.fileURL, job.format))
    {
      if Live(job) {
        UnregisterKeepsWellFormed(subscriptions, nextJob, cancelled, OutputURL, job.KeyOf());
        var outputURL := OutputURL(job.document.fileURL, job.format);
        job.document.states := job.document.states[job.format := CompletedState(completion, outputURL, description)];
        subscriptions := subscriptions - {job.KeyOf()};
      }
    }

    /**
     * `cancelConversion(for:format:)`: cancels and unregisters the key's job,
     * if any, and sets the format `idle` whether or not one was running;
     * repeating it changes nothing.
     */
    method CancelConversion(document: Document, format: ConversionFormat)
      requires Valid()
      modifies this, document
      ensures Valid()
      ensures var key := Key(document.id, format);
        && subscriptions == old(subscriptions) - {key}
        && cancelled == old(cancelled) + (if key in old(subscriptions) then {old(subscriptions)[key].id} else {})
        && (key in old(subscriptions) ==> !Live(old(subscriptions)[key]))
      ensures document.states == old(document.states)[format := Idle]
      ensures nextJob == old(nextJob)
      ensures old(Key(document.id, format) !in subscriptions && format in document.states && document.states[format] == Idle) ==>
        subscriptions == old(subscriptions) && document.states == old(document.states)
    {
      var key := Key(document.id, format);
      UnregisterKeepsWellFormed(subscriptions, nextJob, cancelled, OutputURL, key);
      if key !in subscriptions && format in document.states && document.states[format] == Idle {
        CancelIdempotent(subscriptions, key, document.states, format);
      }
      ghost var superseded := if key in subscriptions then {subscriptions[key].id} else {};
      cancelled := cancelled + superseded;
      subscriptions := subscriptions - {key};
      document.states := document.states[format := Idle];
    }

    /**
     * `cancelAllConversions(for:)`: cancels every format of the document in
     * `allCases` order. Afterwards every format is `idle` and no key of the
     * document is registered; other documents' keys are untouched.
     */
    method CancelAllConversions(document: Document)
      requires Valid()
      modifies this, document
      ensures Valid()
      ensures subscriptions == OtherDocuments(old(subscriptions), document.id)
      ensures document.states == old(document.states)[Step := Idle][Stl := Idle][Obj := Idle]
      ensures forall f :: f in document.states && document.states[f] == Idle
      ensures nextJob == old(nextJob)
    {
      for i := 0 to |AllCases|
        invariant Valid() && nextJob == old(nextJob)
        invariant subscriptions == Unregistered(old(subscriptions), document.id, AllCases[..i])
        invariant document.states == IdleThrough(old(document.states), i)
      {
        UnregisterNext(old(subscriptions), document.id, i);
        CancelConversion(document, AllCases[i]);
      }
      UnregisteredAll(old(subscriptions), document.id);
      IdleThroughAll(old(document.states));
    }
  }

  /** The registry without the keys of document `id` for the given formats. */
  function Unregistered(subscriptions: map<Key, Job>, id: Uuid, formats: seq<ConversionFormat>): (r: map<Key, Job>)
    ensures forall k :: k in r <==> k in subscriptions && !(k.documentID == id && k.format in formats)
    ensures forall k :: k in r ==> r[k] == subscriptions[k]
  {
    map k | k in subscriptions && !(k.documentID == id && k.format in formats) :: subscriptions[k]
  }

  /** The registry without any key of document `id`. */
  function OtherDocuments(subscriptions: map<Key, Job>, id: Uuid): (r: map<Key, Job>)
    ensures forall k :: k in r <==> k in subscriptions && k.documentID != id
    ensures forall k :: k in r ==> r[k] == subscriptions[k]
  {
    map k | k in subscriptions && k.documentID != id :: subscriptions[k]
  }

  /** Unregistering the next format of `allCases`. */
  lemma UnregisterNext(subscriptions: map<Key, Job>, id: Uuid, i: nat)
    requires i < |AllCases|
    ensures Unregistered(subscriptions, id, AllCases[..i]) - {Key(id, AllCases[i])}
      == Unregistered(subscriptions, id, AllCases[..i + 1])
  {
    assert AllCases[..i + 1] == AllCases[..i] + [AllCases[i]];
    UnregisterOneMore(subscriptions, id, AllCases[..i], AllCases[i]);
  }

  /** Unregistering one more format of the document. */
  lemma UnregisterOneMore(subscriptions: map<Key, Job>, id: Uuid, formats: seq<ConversionFormat>, format: ConversionFormat)
    ensures Unregistered(subscriptions, id, formats) - {Key(id, format)} == Unregistered(subscriptions, id, formats + [format])
  {
    var left := Unregistered(subscriptions, id, formats) - {Key(id, format)};
    var right := Unregistered(subscriptions, id, formats + [format]);
    forall k ensures k in left <==> k in right {
      assert k.format in formats + [format] <==> k.format in formats || k.format == format;
    }
    assert left.Keys == right.Keys;
  }

  /** Unregistering every format of `allCases` removes every key of the document. */
  lemma UnregisteredAll(subscriptions: map<Key, Job>, id: Uuid)
    ensures Unregistered(subscriptions, id, AllCases) == OtherDocuments(subscriptions, id)
    ensures Unregistered(subscriptions, id, AllCases[..|AllCases|]) == OtherDocuments(subscriptions, id)
  {
    assert AllCases[..|AllCases|] == AllCases;
    var left := Unregistered(subscriptions, id, AllCases);
    var right := OtherDocuments(subscriptions, id);
    forall k ensures k in left <==> k in right {
      AllCasesComplete(k.format);
    }
    assert left.Keys == right.Keys;
  }

  /** `states` after the first `n` formats of `allCases` were set `idle`. */
  function IdleThrough(states: map<ConversionFormat, ConversionState>, n: nat): (r: map<ConversionFormat, ConversionState>)
    requires n <= |AllCases|
    ensures forall i :: 0 <= i < n ==> AllCases[i] in r && r[AllCases[i]] == Idle
  {
    if n == 0 then states else IdleThrough(states, n - 1)[AllCases[n - 1] := Idle]
  }

  /** Going through all of `allCases` sets the three formats `idle` in order. */
  lemma IdleThroughAll(states: map<ConversionFormat, ConversionState>)
    ensures IdleThrough(states, |AllCases|) == states[Step := Idle][Stl := Idle][Obj := Idle]
    ensures forall f :: f in IdleThrough(states, |AllCases|) && IdleThrough(states, |AllCases|)[f] == Idle
  {
    assert IdleThrough(states, 1) == states[Step := Idle];
    assert IdleThrough(states, 2) == states[Step := Idle][Stl := Idle];
    forall f ensures f in IdleThrough(states, |AllCases|) && IdleThrough(states, |AllCases|)[f] == Idle {
      AllCasesComplete(f);
    }
  }
}
