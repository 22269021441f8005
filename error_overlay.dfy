/**
 * The runtime error overlay (packages/utils/error-overlay/src/index.js): the
 * module-level state of that file as the fields of one object, its exported
 * functions as methods. Rendering is reduced to whether the overlay is shown.
 */
module ErrorOverlay {
  import opened Wrappers

  /**
   * A thrown value as `===` sees it: records are told apart by comparing
   * their errors with `===`, modelled here as equality of identities.
   */
  datatype ErrorObject = ErrorObject(identity: nat)

  /** An editor-opening callback, known only by its identity. */
  datatype EditorHandler = EditorHandler(identity: nat)

  /** A runtime error record: its error and the rest, which this file never looks into. */
  datatype ErrorRecord = ErrorRecord(error: ErrorObject, details: string)

  /** What `options.onError` does when called: it is absent (not a function), returns, or throws. */
  datatype OnError = NoCallback | Returns | Throws

  datatype ReportingOptions = ReportingOptions(onError: OnError, filename: Option<string>)

  datatype Exception =
    | AlreadyListening       // 'Already listening'
    | NotCurrentlyListening  // 'Not currently listening'
    | OnErrorThrew           // the exception of `options.onError`, passed on
    | UnsubscribeThrew       // the exception of the unsubscribe callback, passed on

  datatype Completion = Normal | Thrown(exception: Exception)

  predicate HasError(records: seq<ErrorRecord>, e: ErrorObject) {
    exists i :: 0 <= i < |records| && records[i].error == e
  }

  /** No two records share an error. */
  predicate DistinctErrors(records: seq<ErrorRecord>) {
    forall i, j :: 0 <= i < j < |records| ==> records[i].error != records[j].error
  }

  /**
   * The record list after a record is handled: the record is added at the end
   * unless one with the identical error is already there.
   */
  function WithRecord(records: seq<ErrorRecord>, rec: ErrorRecord): (r: seq<ErrorRecord>)
    ensures records <= r && |r| <= |records| + 1
    ensures r == records <==> HasError(records, rec.error)
    ensures r != records ==> r[|records|] == rec
    ensures forall e :: HasError(r, e) <==> HasError(records, e) || e == rec.error
    ensures DistinctErrors(records) ==> DistinctErrors(r)
  {
    if HasError(records, rec.error) then records else records + [rec]
  }

  /** The record list after a sequence of records is handled one by one. */
  function HandleAll(records: seq<ErrorRecord>, incoming: seq<ErrorRecord>): seq<ErrorRecord>
    decreases |incoming|
  {
    if incoming == [] then records else HandleAll(WithRecord(records, incoming[0]), incoming[1..])
  }

  /**
   * Handling any sequence of records keeps the existing ones in place and in
   * order, never lets two records share an error, and ends with exactly the
   * errors seen so far.
   */
  lemma {:induction false} HandleAllKeepsDistinct(records: seq<ErrorRecord>, incoming: seq<ErrorRecord>)
    requires DistinctErrors(records)
    ensures records <= HandleAll(records, incoming)
    ensures DistinctErrors(HandleAll(records, incoming))
    ensures forall e :: HasError(HandleAll(records, incoming), e) <==> HasError(records, e) || HasError(incoming, e)
    decreases |incoming|
  {
    if incoming != [] {
      var next := WithRecord(records, incoming[0]);
      HandleAllKeepsDistinct(next, incoming[1..]);
      forall e ensures HasError(incoming, e) <==> e == incoming[0].error || HasError(incoming[1..], e) {
        if HasError(incoming, e) && e != incoming[0].error {
          var i :| 0 <= i < |incoming| && incoming[i].error == e;
          assert incoming[1..][i - 1] == incoming[i];
        }
        if HasError(incoming[1..], e) {
          var i :| 0 <= i < |incoming[1..]| && incoming[1..][i].error == e;
          assert incoming[i + 1] == incoming[1..][i];
        }
      }
    }
  }

  /** Records whose errors are all already present change nothing. */
  lemma {:induction false} HandleAllKnownErrors(records: seq<ErrorRecord>, incoming: seq<ErrorRecord>)
    requires forall i :: 0 <= i < |incoming| ==> HasError(records, incoming[i].error)
    ensures HandleAll(records, incoming) == records
    decreases |incoming|
  {
    if incoming != [] {
      assert HasError(records, incoming[0].error);
      forall i | 0 <= i < |incoming[1..]| ensures HasError(records, incoming[1..][i].error) {
        assert incoming[1..][i] == incoming[i + 1];
      }
      HandleAllKnownErrors(records, incoming[1..]);
    }
  }

  /** Delivering the same records a second time changes nothing. */
  lemma HandleAllIdempotent(records: seq<ErrorRecord>, incoming: seq<ErrorRecord>)
    requires DistinctErrors(records)
    ensures HandleAll(HandleAll(records, incoming), incoming) == HandleAll(records, incoming)
  {
    HandleAllKeepsDistinct(records, incoming);
    forall i | 0 <= i < |incoming| ensures HasError(HandleAll(records, incoming), incoming[i].error) {
      assert HasError(incoming, incoming[i].error);
    }
    HandleAllKnownErrors(HandleAll(records, incoming), incoming);
  }

  /**
   * The module-level state of index.js: the editor handler, the record list,
   * the unsubscribe handle (here: the options of the active subscription),
   * the never-assigned `iframe`, and whether `update()` left the overlay
   * rendered (`root` set).
   */
  class Reporter {
    var editorHandler: Option<EditorHandler>
    var records: seq<ErrorRecord>
    var subscription: Option<ReportingOptions>
    var iframe: bool
    var overlayShown: bool

    /** No duplicate errors, and the overlay is rendered exactly when there are records. */
    ghost predicate Valid()
      reads this
    {
      DistinctErrors(records) && (overlayShown <==> records != [])
    }

    constructor ()
      ensures Valid()
      ensures editorHandler == None && records == [] && subscription == None && !iframe && !overlayShown
    {
      editorHandler := None;
      records := [];
      subscription := None;
      iframe := false;
      overlayShown := false;
    }

    /** `update()`: render the overlay when there are records, remove it otherwise. */
    method Update()
      modifies this`overlayShown
      ensures overlayShown <==> records != []
    {
      overlayShown := records != [];
    }

    /** `setEditorHandler`: replaces the handler; the records and the overlay stay as they are. */
    method SetEditorHandler(handler: Option<EditorHandler>)
      requires Valid()
      modifies this`editorHandler, this`overlayShown
      ensures Valid()
      ensures editorHandler == handler && overlayShown == old(overlayShown)
    {
      editorHandler := handler;
      if iframe {
        Update();
      }
    }

    /** `startReportingRuntimeErrors`: subscribes, unless a subscription is already active. */
    method StartReportingRuntimeErrors(options: ReportingOptions) returns (c: Completion)
      requires Valid()
      modifies this`subscription
      ensures Valid()
      ensures old(subscription).Some? ==> c == Thrown(AlreadyListening) && subscription == old(subscription)
      ensures old(subscription).None? ==> c == Normal && subscription == Some(options)
    {
      if subscription.Some? {
        return Thrown(AlreadyListening);
      }
      subscription := Some(options);
      c := Normal;
    }

    /**
     * `stopReportingRuntimeErrors`: fails when nothing is subscribed;
     * otherwise calls the unsubscribe callback and, whether or not that
     * throws, forgets the subscription.
     */
    method StopReportingRuntimeErrors(unsubscribeThrows: bool) returns (c: Completion)
      requires Valid()
      modifies this`subscription
      ensures Valid()
      ensures old(subscription).None? ==> c == Thrown(NotCurrentlyListening) && subscription == None
      ensures old(subscription).Some? ==>
        (subscription == None && c == (if unsubscribeThrows then Thrown(UnsubscribeThrew) else Normal))
    {
      if subscription.None? {
        return Thrown(NotCurrentlyListening);
      }
      var threw := unsubscribeThrows;  // try { stopListeningToRuntimeErrors() }
      subscription := None;            // finally
      c := if threw then Thrown(UnsubscribeThrew) else Normal;
    }

    /**
     * `handleRuntimeError(options)(record)`: calls `onError`, then, in the
     * `finally` block, adds the record unless its error is already there and
     * updates the overlay. The `return` in that block discards an exception
     * of `onError` when the record is a duplicate; otherwise it propagates.
     */
    method HandleRuntimeError(options: ReportingOptions, record: ErrorRecord) returns (c: Completion)
      requires Valid()
      modifies this`records, this`overlayShown
      ensures Valid()
      ensures records == WithRecord(old(records), record)
      ensures overlayShown
      ensures c == (if options.onError == Throws && !HasError(old(records), record.error) then Thrown(OnErrorThrew) else Normal)
    {
      var threw := options.onError == Throws;  // try { options.onError() }
      if HasError(records, record.error) {     // finally
        return Normal;
      }
      records := records + [record];
      Update();
      c := if threw then Thrown(OnErrorThrew) else Normal;
    }

    /** `dismissRuntimeErrors`: forgets every record and removes the overlay. */
    method DismissRuntimeErrors()
      requires Valid()
      modifies this`records, this`overlayShown
      ensures Valid()
      ensures records == [] && !overlayShown
    {
      records := [];
      Update();
    }
  }
}
