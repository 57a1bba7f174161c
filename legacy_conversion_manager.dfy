/**
 * The older copy of `DocumentConversionManager`, directly under
 * `DocumentService/`: the same registry and handlers, except that the engine
 * writes to `converted_<name>` next to the source, whatever the format,
 * while `.finished` still reports `outputURL(fileURL, format)`. It has no
 * `cancelAllConversions`.
 *
 * The Combine pipeline becomes explicit event methods taking the `Job` that
 * sent the event. Cancelling a subscription stops its delivery, and a
 * completed publisher sends nothing more, so an event reaches its handlers
 * exactly when its job is still the one registered under its key; an event
 * from any other job changes nothing.
 */
module LegacyConversionManager {
  import opened Paths
  import opened Streams
  import opened DocumentItem
  import opened DocumentConversionEngine
  import opened ConversionRegistry

  class DocumentConversionManager {
    /** `conversionSubscriptions`. */
    var subscriptions: map<Key, Job>
    /** The identity the next subscription gets. */
    var nextJob: nat
    /** The subscriptions `cancel()` was called on. */
    ghost var cancelled: set<nat>

    /** The registry invariant holds of the fields. */
    ghost predicate Valid()
      reads this
    {
      WellFormed(subscriptions, nextJob, cancelled, ConvertedTarget)
    }

    /** The job's events are still delivered. */
    predicate Live(job: Job)
      reads this
    {
      job.KeyOf() in subscriptions && subscriptions[job.KeyOf()] == job
    }

    /** `init(fileConverter:)`: no conversion registered. */
    constructor ()
      ensures Valid() && subscriptions == map[] && cancelled == {}
    {
      subscriptions := map[];
      nextJob := 0;
      cancelled := {};
    }

    /**
     * `startConversion(for:format:)`: cancels the job registered under the
     * key, if any, sets the format `converting(0)`, and registers a new job
     * writing to `converted_<name>` beside the document's file.
     */
    method StartConversion(document: Document, format: ConversionFormat)
      requires Valid()
      modifies this, document
      ensures Valid()
      ensures document.states == old(document.states)[format := Converting(0.0)]
      ensures var key := Key(document.id, format);
        var job := Job(old(nextJob), document, format, ConvertedTarget(document.fileURL, format));
        && subscriptions == old(subscriptions)[key := job]
        && Live(job)
        && cancelled == old(cancelled) + (if key in old(subscriptions) then {old(subscriptions)[key].id} else {})
        && (key in old(subscriptions) ==> !Live(old(subscriptions)[key]))
      ensures nextJob == old(nextJob) + 1
    {
      var key := Key(document.id, format);
      var targetURL := ConvertedTarget(document.fileURL, format);
      var job := Job(nextJob, document, format, targetURL);
      RegisterKeepsWellFormed(subscriptions, nextJob, cancelled, ConvertedTarget, job);
      ghost var superseded := if key in subscriptions then {subscriptions[key].id} else {};
      cancelled := cancelled + superseded;
      document.states := document.states[format := Converting(0.0)];
      nextJob := nextJob + 1;
      subscriptions := subscriptions[key := job];
    }

    /** `receiveValue`: a delivered progress value becomes `converting(progress)`. */
    method OnValue(job: Job, progress: real)
      requires Valid()
      modifies job.document
      ensures Live(job) ==> job.document.states == old(job.document.states)[job.format := Converting(progress)]
      ensures !Live(job) ==> job.document.states == old(job.document.states)
    {
      if Live(job) {
        job.document.states := job.document.states[job.format := Converting(progress)];
      }
    }

    /**
     * `receiveCompletion`: a delivered completion stores the state
     * `CompletedState` gives (after `.finished`, `outputURL`, which is not
     * the file the job wrote) and unregisters the key; `description` is the
     * error's `localizedDescription`.
     */
    method OnCompletion(job: Job, completion: Completion, description: string)
      requires Valid()
      modifies this, job.document
      ensures Valid()
      ensures nextJob == old(nextJob) && cancelled == old(cancelled)
      ensures old(Live(job)) ==>
        && job.document.states == old(job.document.states)[job.format :=
             CompletedState(completion, OutputURL(job.document.fileURL, job.format), description)]
        && subscriptions == old(subscriptions) - {job.KeyOf()}
      ensures !old(Live(job)) ==> job.document.states == old(job.document.states) && subscriptions == old(subscriptions)
      ensures completion.Finished? && old(Live(job)) ==>
        job.document.states[job.format].Completed? && job.document.states[job.format].url != job.target
    {
      if Live(job) {
        ReportsOtherPath(job.document.fileURL, job.format);
        UnregisterKeepsWellFormed(subscriptions, nextJob, cancelled, ConvertedTarget, job.KeyOf());
        var outputURL := OutputURL(job.document.fileURL, job.format);
        job.document.states := job.document.states[job.format := CompletedState(completion, outputURL, description)];
        subscriptions := subscriptions - {job.KeyOf()};
      }
    }

    /**
     * `cancelConversion(for:format:)`: cancels and unregisters the key's job,
     * if any, and sets the format `idle` whether or not one was running;
     * repeating it changes nothing.
     */
    method CancelConversion(document: Document, format: ConversionFormat)
      requires Valid()
      modifies this, document
      ensures Valid()
      ensures var key := Key(document.id, format);
        && subscriptions == old(subscriptions) - {key}
        && cancelled == old(cancelled) + (if key in old(subscriptions) then {old(subscriptions)[key].id} else {})
        && (key in old(subscriptions) ==> !Live(old(subscriptions)[key]))
      ensures document.states == old(document.states)[format := Idle]
      ensures nextJob == old(nextJob)
      ensures old(Key(document.id, format) !in subscriptions && format in document.states && document.states[format] == Idle) ==>
        subscriptions == old(subscriptions) && document.states == old(document.states)
    {
      var key := Key(document.id, format);
      UnregisterKeepsWellFormed(subscriptions, nextJob, cancelled, ConvertedTarget, key);
      if key !in subscriptions && format in document.states && document.states[format] == Idle {
        CancelIdempotent(subscriptions, key, document.states, format);
      }
      ghost var superseded := if key in subscriptions then {subscriptions[key].id} else {};
      cancelled := cancelled + superseded;
      subscriptions := subscriptions - {key};
      document.states := document.states[format := Idle];
    }
  }

  /** The older target rule: `converted_` prefixed to the source's name, in the source's directory. */
  function ConvertedTarget(fileURL: Url, format: ConversionFormat): (u: Url)
    ensures u.parent == fileURL.parent && u.last == "converted_" + fileURL.last
  {
    Sibling(fileURL, "converted_" + fileURL.last)
  }

  /** The target does not depend on the format: every format of one document writes the same file. */
  lemma TargetIgnoresFormat(fileURL: Url, first: ConversionFormat, second: ConversionFormat)
    ensures ConvertedTarget(fileURL, first) == ConvertedTarget(fileURL, second)
  {
  }

  /**
   * The URL `.finished` reports is never the file that was written: its name
   * is at most the source's name plus a five-character extension, which is
   * shorter than the `converted_` name.
   */
  lemma ReportsOtherPath(fileURL: Url, format: ConversionFormat)
    ensures OutputURL(fileURL, format) != ConvertedTarget(fileURL, format)
  {
    OutputURLShape(fileURL, format);
    FormatExtension(format);
    assert |Stem(fileURL.last)| <= |fileURL.last|;
    assert |TrimDots(format.RawValue())| <= 4;
  }
}
