/** The multipart upload lifecycle of `S3MultipartUploader.uploadFile`:
    initiate the upload, upload every part, sort the collected entries by part
    number, and complete the upload with them. Each service call goes through
    the retry policy; a failure at any stage is rethrown as it is, and no later
    stage runs. No abort is ever issued.

    The service is abstract: every call is a function from invocation number to
    outcome, and may depend on the command built for it (the upload id, the part
    range, the manifest). The command, and the read stream inside an upload-part
    command, is built once and reused by every retry; what a retry of an
    already-consumed stream yields is whatever the outcome function says for
    that invocation number. The order in which the concurrent part uploads settle is an
    input, `arrival`: any order of the part numbers 1, ..., n. */
module Uploader {
  import opened Outcomes
  import opened PartPlanner
  import opened RetryPolicy
  import opened Manifest

  /** Opaque token issued by the service for the upload session. */
  type UploadId = string
  /** What the completion call resolves to; `uploadFile` returns it whole. */
  type CompleteResult = string
  /** Whatever a service call threw; passed on unchanged. */
  type Error = string

  /** What the completion call is sent. */
  datatype CompleteRequest = CompleteRequest(uploadId: UploadId, parts: seq<CompletedPart>)

  /** What one upload did: its outcome, the session it opened (if any), the
      parts it issued uploads for, and the completion request (if one was made). */
  datatype UploadRun = UploadRun(
    result: Outcome<CompleteResult, Error>,
    session: Option<UploadId>,
    launched: seq<PartRange>,
    completion: Option<CompleteRequest>)

  /** `arrival` lists the part numbers 1, ..., n, each once, in the order their
      uploads settle. */
  ghost predicate IsArrivalOrder(arrival: seq<nat>, n: nat) {
    multiset(arrival) == multiset(Consecutive(n))
  }

  /** Outcome of each planned part's upload after retries, in plan order. */
  function PartResults(plan: seq<PartRange>, uploadPart: (UploadId, PartRange) -> nat -> Outcome<ETag, Error>,
                       id: UploadId): seq<Outcome<ETag, Error>>
  {
    seq(|plan|, i requires 0 <= i < |plan| => Retry(uploadPart(id, plan[i])).result)
  }

  /** The parts' settlements in arrival order, as `Promise.all` sees them:
      each success pushes its entry; the first failure rejects with its error. */
  function Collect(arrival: seq<nat>, results: seq<Outcome<ETag, Error>>): (c: Outcome<seq<CompletedPart>, Error>)
    requires forall k :: 0 <= k < |arrival| ==> 1 <= arrival[k] <= |results|
    ensures c.Success? <==> forall k :: 0 <= k < |arrival| ==> results[arrival[k] - 1].Success?
    ensures c.Success? ==>
              && |c.value| == |arrival|
              && forall k :: 0 <= k < |arrival| ==>
                   c.value[k] == CompletedPart(results[arrival[k] - 1].value, arrival[k])
    ensures c.Failure? ==>
              exists k :: 0 <= k < |arrival| && results[arrival[k] - 1] == Failure(c.error) &&
                (forall j :: 0 <= j < k ==> results[arrival[j] - 1].Success?)
  {
    if |arrival| == 0 then
      Success([])
    else
      match results[arrival[0] - 1]
      case Failure(e) => Failure(e)
      case Success(etag) =>
        match Collect(arrival[1..], results)
        case Failure(e) =>
          assert forall k :: 1 <= k < |arrival| ==> arrival[k] == arrival[1..][k - 1];
          Failure(e)
        case Success(rest) => Success([CompletedPart(etag, arrival[0])] + rest)
  }

  /** The manifest lists every part, in part-number order, each with the
      entity tag its own upload returned. */
  ghost predicate IsManifestOf(parts: seq<CompletedPart>, results: seq<Outcome<ETag, Error>>) {
    && |parts| == |results|
    && forall i :: 0 <= i < |parts| ==>
         results[i].Success? && parts[i] == CompletedPart(results[i].value, i + 1)
  }

  /** Every part's upload succeeded. */
  ghost predicate AllSucceeded(results: seq<Outcome<ETag, Error>>) {
    forall i :: 0 <= i < |results| ==> results[i].Success?
  }

  /** Every entry of `arrival` names a part of `results`. */
  ghost predicate NamesParts(arrival: seq<nat>, results: seq<Outcome<ETag, Error>>) {
    forall k :: 0 <= k < |arrival| ==> 1 <= arrival[k] <= |results|
  }

  /** The first part, in arrival order, whose upload failed, failed with `e`. */
  ghost predicate FirstFailureIs(arrival: seq<nat>, results: seq<Outcome<ETag, Error>>, e: Error) {
    && NamesParts(arrival, results)
    && exists k :: 0 <= k < |arrival| && results[arrival[k] - 1] == Failure(e) &&
         (forall j :: 0 <= j < k ==> results[arrival[j] - 1].Success?)
  }

  lemma ArrivalInRange(arrival: seq<nat>, n: nat)
    requires IsArrivalOrder(arrival, n)
    ensures |arrival| == n
    ensures forall k :: 0 <= k < |arrival| ==> 1 <= arrival[k] <= n
    ensures forall p :: 1 <= p <= n ==> p in arrival
  {
    assert |arrival| == |multiset(arrival)| == |multiset(Consecutive(n))| == n;
    forall k | 0 <= k < |arrival|
      ensures 1 <= arrival[k] <= n
    {
      assert arrival[k] in multiset(Consecutive(n));
    }
    forall p | 1 <= p <= n
      ensures p in arrival
    {
      assert Consecutive(n)[p - 1] == p;
      assert p in multiset(arrival);
    }
  }

  /** Sorting the collected entries yields the manifest of the parts' results,
      whatever order they arrived in. */
  lemma SortedCollectionIsManifest(arrival: seq<nat>, results: seq<Outcome<ETag, Error>>, m: seq<CompletedPart>)
    requires IsArrivalOrder(arrival, |results|)
    requires NamesParts(arrival, results)
    requires Collect(arrival, results) == Success(m)
    ensures IsManifestOf(SortByPartNumber(m), results)
  {
    var n := |results|;
    ArrivalInRange(arrival, n);
    assert PartNumbers(m) == arrival;
    SortedManifestIsConsecutive(m, n);
    var r := SortByPartNumber(m);
    forall i | 0 <= i < n
      ensures results[i].Success? && r[i] == CompletedPart(results[i].value, i + 1)
    {
      assert PartNumbers(r)[i] == i + 1;
      SortedEntryIsCollected(arrival, results, m, r, i);
    }
  }

  /** Entry `i` of a rearrangement of the collected entries, if it names part
      `i + 1`, carries that part's own entity tag. */
  lemma SortedEntryIsCollected(arrival: seq<nat>, results: seq<Outcome<ETag, Error>>,
                               m: seq<CompletedPart>, r: seq<CompletedPart>, i: nat)
    requires NamesParts(arrival, results)
    requires |m| == |arrival|
    requires forall k :: 0 <= k < |arrival| ==> results[arrival[k] - 1].Success?
    requires forall k :: 0 <= k < |arrival| ==>
               m[k] == CompletedPart(results[arrival[k] - 1].value, arrival[k])
    requires multiset(r) == multiset(m)
    requires i < |r| && i < |results| && r[i].partNumber == i + 1
    ensures results[i].Success? && r[i] == CompletedPart(results[i].value, i + 1)
  {
    assert r[i] in multiset(m);
    var k :| 0 <= k < |m| && m[k] == r[i];
    assert arrival[k] == i + 1;
  }

  /** `uploadFile`, from initiation to completion. */
  function UploadFile(fileSize: nat,
                      initiate: nat -> Outcome<UploadId, Error>,
                      uploadPart: (UploadId, PartRange) -> nat -> Outcome<ETag, Error>,
                      arrival: seq<nat>,
                      complete: (UploadId, seq<CompletedPart>) -> nat -> Outcome<CompleteResult, Error>): (u: UploadRun)
    requires IsArrivalOrder(arrival, NumberOfParts(fileSize))
    // the session open is the one initiation returned, if it succeeded;
    // otherwise its error is rethrown and nothing else happens
    ensures u.session == if Retry(initiate).result.Success? then Some(Retry(initiate).result.value) else None
    ensures u.session.None? ==>
              u.result == Failure(Retry(initiate).result.error) && u.launched == [] && u.completion.None?
    // once the session is open, every part of the plan is uploaded
    ensures u.session.Some? ==> u.launched == Plan(fileSize)
    // completion is requested exactly when initiation and every part succeeded ...
    ensures u.completion.Some? <==>
              u.session.Some? && AllSucceeded(PartResults(Plan(fileSize), uploadPart, u.session.value))
    // ... and is sent the session's id and the sorted manifest of the parts
    ensures u.completion.Some? ==>
              && u.completion.value.uploadId == u.session.value
              && IsManifestOf(u.completion.value.parts, PartResults(Plan(fileSize), uploadPart, u.session.value))
              && u.result == Retry(complete(u.session.value, u.completion.value.parts)).result
    // a part failure is rethrown: the first one to settle
    ensures u.session.Some? && u.completion.None? ==>
              u.result.Failure? &&
              FirstFailureIs(arrival, PartResults(Plan(fileSize), uploadPart, u.session.value), u.result.error)
  {
    match Retry(initiate).result
    case Failure(e) => UploadRun(Failure(e), None, [], None)
    case Success(id) => UploadParts(Plan(fileSize), id, uploadPart, arrival, complete)
  }

  /** The stages once session `id` is open: upload every part, wait for all of
      them, sort the collected entries and complete. */
  function UploadParts(plan: seq<PartRange>,
                       id: UploadId,
                       uploadPart: (UploadId, PartRange) -> nat -> Outcome<ETag, Error>,
                       arrival: seq<nat>,
                       complete: (UploadId, seq<CompletedPart>) -> nat -> Outcome<CompleteResult, Error>): (u: UploadRun)
    requires IsArrivalOrder(arrival, |plan|)
    ensures u.session == Some(id) && u.launched == plan
    ensures u.completion.Some? <==> AllSucceeded(PartResults(plan, uploadPart, id))
    ensures u.completion.Some? ==>
              && u.completion.value.uploadId == id
              && IsManifestOf(u.completion.value.parts, PartResults(plan, uploadPart, id))
              && u.result == Retry(complete(id, u.completion.value.parts)).result
    ensures u.completion.None? ==>
              u.result.Failure? && FirstFailureIs(arrival, PartResults(plan, uploadPart, id), u.result.error)
  {
    var results := PartResults(plan, uploadPart, id);
    ArrivalInRange(arrival, |results|);
    assert NamesParts(arrival, results);
    AllArrivedIsAll(arrival, results);
    match Collect(arrival, results)
    case Failure(e) =>
      UploadRun(Failure(e), Some(id), plan, None)
    case Success(m) =>
      var manifest := SortByPartNumber(m);
      SortedCollectionIsManifest(arrival, results, m);
      UploadRun(Retry(complete(id, manifest)).result, Some(id), plan,
                Some(CompleteRequest(id, manifest)))
  }

  /** Every part arrives, so all arrivals succeeding means all parts did. */
  lemma AllArrivedIsAll(arrival: seq<nat>, results: seq<Outcome<ETag, Error>>)
    requires IsArrivalOrder(arrival, |results|)
    requires NamesParts(arrival, results)
    ensures AllSucceeded(results) <==> forall k :: 0 <= k < |arrival| ==> results[arrival[k] - 1].Success?
  {
    ArrivalInRange(arrival, |results|);
    if forall k :: 0 <= k < |arrival| ==> results[arrival[k] - 1].Success? {
      forall i | 0 <= i < |results|
        ensures results[i].Success?
      {
        assert i + 1 in arrival;
        var k :| 0 <= k < |arrival| && arrival[k] == i + 1;
      }
    }
  }

  /** A zero-byte file uploads no parts, and completion is asked for with an
      empty manifest once initiation succeeds. */
  lemma ZeroByteUpload(fileSize: nat,
                       initiate: nat -> Outcome<UploadId, Error>,
                       uploadPart: (UploadId, PartRange) -> nat -> Outcome<ETag, Error>,
                       complete: (UploadId, seq<CompletedPart>) -> nat -> Outcome<CompleteResult, Error>,
                       id: UploadId)
    requires fileSize == 0
    requires Retry(initiate).result == Success(id)
    ensures IsArrivalOrder([], NumberOfParts(fileSize))
    ensures UploadFile(fileSize, initiate, uploadPart, [], complete)
         == UploadRun(Retry(complete(id, [])).result, Some(id), [], Some(CompleteRequest(id, [])))
  {
    assert Consecutive(0) == [];
    assert Plan(fileSize) == [];
    NoPartsUpload(id, uploadPart, complete);
  }

  lemma NoPartsUpload(id: UploadId,
                      uploadPart: (UploadId, PartRange) -> nat -> Outcome<ETag, Error>,
                      complete: (UploadId, seq<CompletedPart>) -> nat -> Outcome<CompleteResult, Error>)
    ensures IsArrivalOrder([], 0)
    ensures UploadParts([], id, uploadPart, [], complete)
         == UploadRun(Retry(complete(id, [])).result, Some(id), [], Some(CompleteRequest(id, [])))
  {
    assert Consecutive(0) == [];
    assert AllSucceeded(PartResults([], uploadPart, id));
    var u := UploadParts([], id, uploadPart, [], complete);
    assert |u.completion.value.parts| == 0;
  }

  /** A result can only succeed once initiation, every part and completion did. */
  lemma SuccessNeedsEveryStage(fileSize: nat,
                               initiate: nat -> Outcome<UploadId, Error>,
                               uploadPart: (UploadId, PartRange) -> nat -> Outcome<ETag, Error>,
                               arrival: seq<nat>,
                               complete: (UploadId, seq<CompletedPart>) -> nat -> Outcome<CompleteResult, Error>)
    requires IsArrivalOrder(arrival, NumberOfParts(fileSize))
    ensures UploadFile(fileSize, initiate, uploadPart, arrival, complete).result.Success? ==>
              && Retry(initiate).result.Success?
              && AllSucceeded(PartResults(Plan(fileSize), uploadPart, Retry(initiate).result.value))
              && UploadFile(fileSize, initiate, uploadPart, arrival, complete).completion.Some?
  {
  }

  /** A manifest of given part results is unique. */
  lemma {:induction false} ManifestUnique(parts: seq<CompletedPart>, parts': seq<CompletedPart>,
                                          results: seq<Outcome<ETag, Error>>)
    requires IsManifestOf(parts, results) && IsManifestOf(parts', results)
    ensures parts == parts'
  {
    forall i | 0 <= i < |parts|
      ensures parts[i] == parts'[i]
    {
    }
  }

  /** When every part succeeds, the order the uploads settled in makes no
      difference to the upload. */
  lemma ArrivalOrderIrrelevant(fileSize: nat,
                               initiate: nat -> Outcome<UploadId, Error>,
                               uploadPart: (UploadId, PartRange) -> nat -> Outcome<ETag, Error>,
                               arrival: seq<nat>, arrival': seq<nat>,
                               complete: (UploadId, seq<CompletedPart>) -> nat -> Outcome<CompleteResult, Error>)
    requires IsArrivalOrder(arrival, NumberOfParts(fileSize))
    requires IsArrivalOrder(arrival', NumberOfParts(fileSize))
    requires Retry(initiate).result.Success?
    requires AllSucceeded(PartResults(Plan(fileSize), uploadPart, Retry(initiate).result.value))
    ensures UploadFile(fileSize, initiate, uploadPart, arrival, complete)
         == UploadFile(fileSize, initiate, uploadPart, arrival', complete)
  {
    var id := Retry(initiate).result.value;
    var u := UploadFile(fileSize, initiate, uploadPart, arrival, complete);
    var u' := UploadFile(fileSize, initiate, uploadPart, arrival', complete);
    ManifestUnique(u.completion.value.parts, u'.completion.value.parts, PartResults(Plan(fileSize), uploadPart, id));
  }
}
