/**
 * What both conversion managers share: the registry key, a subscription to
 * one run of the engine, and the state a document's format takes when that
 * run completes.
 */
module ConversionRegistry {
  import opened Paths
  import opened Streams
  import opened DocumentItem
  import opened DocumentConversionEngine

  /** `ConversionKey`. */
  datatype Key = Key(documentID: Uuid, format: ConversionFormat)

  /**
   * A live `AnyCancellable`: its identity, the document and format its sink
   * closures captured, and the target the engine was started on.
   */
  datatype Job = Job(id: nat, document: Document, format: ConversionFormat, target: Url)
  {
    /** The key the job is registered under. */
    function KeyOf(): Key
    {
      Key.Key(document.id, format)
    }
  }

  /**
   * The state the completion handler stores: the reported URL after
   * `.finished`, `idle` after `CancellationError`, and otherwise `failed`
   * with the error's `localizedDescription`.
   */
  function CompletedState(completion: Completion, finishedURL: Url, description: string): (s: ConversionState)
    ensures completion.Finished? <==> s.Completed?
    ensures completion.Finished? ==> s == Completed(finishedURL)
    ensures completion == Failure(Cancellation) <==> s == Idle
    ensures completion.Failure? && completion.error != Cancellation <==> s.Failed?
    ensures s.Failed? ==> s.message == description
  {
    match completion
    case Finished => Completed(finishedURL)
    case Failure(error) => if error == Cancellation then Idle else Failed(description)
  }

  /**
   * The registry invariant: every registered job sits under its own key,
   * was started by this manager, has not been cancelled, writes to the
   * path `targets` gives for its document's file and format, and no two keys share a job.
   */
  ghost predicate WellFormed(subscriptions: map<Key, Job>, nextJob: nat, cancelled: set<nat>,
                            targets: (Url, ConversionFormat) -> Url)
  {
    && (forall k :: k in subscriptions ==> subscriptions[k].KeyOf() == k)
    && (forall k :: k in subscriptions ==> subscriptions[k].id < nextJob && subscriptions[k].id !in cancelled)
    && (forall k :: k in subscriptions ==>
          subscriptions[k].target == targets(subscriptions[k].document.fileURL, k.format))
    && (forall k1, k2 :: k1 in subscriptions && k2 in subscriptions && subscriptions[k1].id == subscriptions[k2].id ==> k1 == k2)
    && (forall id :: id in cancelled ==> id < nextJob)
  }

  /**
   * Registering a new job under its key, after cancelling the job it
   * supersedes, keeps the invariant, and the superseded job is no longer
   * registered anywhere.
   */
  lemma RegisterKeepsWellFormed(subscriptions: map<Key, Job>, nextJob: nat, cancelled: set<nat>,
                                targets: (Url, ConversionFormat) -> Url, job: Job)
    requires WellFormed(subscriptions, nextJob, cancelled, targets)
    requires job.id == nextJob && job.target == targets(job.document.fileURL, job.format)
    ensures var key := job.KeyOf();
      var cancelled' := cancelled + (if key in subscriptions then {subscriptions[key].id} else {});
      var subscriptions' := subscriptions[key := job];
      && WellFormed(subscriptions', nextJob + 1, cancelled', targets)
      && (key in subscriptions ==> forall k :: k in subscriptions' ==> subscriptions'[k] != subscriptions[key])
  {
  }

  /** Unregistering a key, after cancelling its job, keeps the invariant. */
  lemma UnregisterKeepsWellFormed(subscriptions: map<Key, Job>, nextJob: nat, cancelled: set<nat>,
                                  targets: (Url, ConversionFormat) -> Url, key: Key)
    requires WellFormed(subscriptions, nextJob, cancelled, targets)
    ensures WellFormed(subscriptions - {key}, nextJob, cancelled, targets)
    ensures WellFormed(subscriptions - {key}, nextJob,
                       cancelled + (if key in subscriptions then {subscriptions[key].id} else {}), targets)
  {
  }

  /**
   * Cancelling a key that is not registered, for a format already `idle`,
   * leaves the registry and the states as they are.
   */
  lemma CancelIdempotent(subscriptions: map<Key, Job>, key: Key,
                         states: map<ConversionFormat, ConversionState>, format: ConversionFormat)
    requires key !in subscriptions && format in states && states[format] == Idle
    ensures subscriptions - {key} == subscriptions
    ensures states[format := Idle] == states
  {
  }
}
