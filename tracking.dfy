/**
 * The shipment-tracking rules of js/script.js: the status badge class, the progress
 * percentage, which timeline event is "current", and how the tracking form cleans the
 * id it is given before it asks the server.
 */
module Tracking {
  import opened JsText

  /** The five statuses a shipment moves through, in order. */
  const Statuses: seq<string> := ["Booked", "In Transit", "At Warehouse", "Out for Delivery", "Delivered"]

  /** Their badge classes and progress percentages, position by position. */
  const StatusClasses: seq<string> :=
    ["status-booked", "status-transit", "status-warehouse", "status-delivery", "status-delivered"]
  const Percentages: seq<nat> := [20, 50, 70, 90, 100]

  const DefaultClass := "status-default"

  function IndexOfStatus(status: string): (k: nat)
    ensures k <= |Statuses|
    ensures k < |Statuses| ==> Statuses[k] == status
    ensures k == |Statuses| <==> status !in Statuses
  {
    if status == "Booked" then 0
    else if status == "In Transit" then 1
    else if status == "At Warehouse" then 2
    else if status == "Out for Delivery" then 3
    else if status == "Delivered" then 4
    else 5
  }

  /** `getStatusClass`: the table's class for a known status, `status-default` for any other string. */
  function StatusClass(status: string): (c: string)
    ensures forall k :: 0 <= k < |Statuses| && status == Statuses[k] ==> c == StatusClasses[k]
    ensures status !in Statuses <==> c == DefaultClass
  {
    var k := IndexOfStatus(status);
    if k < |Statuses| then StatusClasses[k] else DefaultClass
  }

  /** The `progressMap[status] || 0` lookup of `displayTrackingResult`. */
  function Progress(status: string): (p: nat)
    ensures forall k :: 0 <= k < |Statuses| && status == Statuses[k] ==> p == Percentages[k]
    ensures status !in Statuses <==> p == 0
  {
    var k := IndexOfStatus(status);
    if k < |Statuses| then Percentages[k] else 0
  }

  /** Progress is a percentage, and it never falls as the shipment moves along the status order. */
  lemma ProgressBounded(status: string)
    ensures 0 <= Progress(status) <= 100
    ensures Progress(status) == 100 <==> status == "Delivered"
  {
  }

  lemma ProgressMonotone(i: nat, j: nat)
    requires i <= j < |Statuses|
    ensures Progress(Statuses[i]) <= Progress(Statuses[j])
    ensures i < j ==> Progress(Statuses[i]) < Progress(Statuses[j])
  {
  }

  // ---------------------------------------------------------------- timeline

  /** `timeline.findIndex(e => !e.completed)`: the first incomplete event, -1 when every one is complete. */
  function FirstIncomplete(completed: seq<bool>): (f: int)
    ensures -1 <= f < |completed|
    ensures f == -1 <==> forall j :: 0 <= j < |completed| ==> completed[j]
    ensures f >= 0 ==> !completed[f] && forall j :: 0 <= j < f ==> completed[j]
  {
    if completed == [] then -1
    else if !completed[0] then 0
    else
      var f := FirstIncomplete(completed[1..]);
      assert forall j :: 1 <= j < |completed| ==> completed[j] == completed[1..][j - 1];
      if f == -1 then -1 else f + 1
  }

  /** The `current` mark: the event is completed and sits just before the first incomplete one. */
  predicate IsCurrent(completed: seq<bool>, i: nat)
    requires i < |completed|
  {
    completed[i] && i == FirstIncomplete(completed) - 1
  }

  /**
   * Event `i` is current exactly when it and every event before it are complete and
   * the next one is not: the last step reached so far.
   */
  lemma CurrentIff(completed: seq<bool>, i: nat)
    requires i < |completed|
    ensures IsCurrent(completed, i) <==>
      (forall j :: 0 <= j <= i ==> completed[j]) && i + 1 < |completed| && !completed[i + 1]
  {
  }

  /** At most one event is current; none when all are complete or the first is not. */
  lemma CurrentIsUnique(completed: seq<bool>, i: nat, j: nat)
    requires i < |completed| && j < |completed|
    requires IsCurrent(completed, i) && IsCurrent(completed, j)
    ensures i == j
  {
  }

  lemma NoCurrentAtEnds(completed: seq<bool>)
    requires (forall j :: 0 <= j < |completed| ==> completed[j]) || (completed != [] && !completed[0])
    ensures forall i :: 0 <= i < |completed| ==> !IsCurrent(completed, i)
  {
  }

  // ---------------------------------------------------------------- tracking form

  /** `trackingInput.value.trim().toUpperCase()` (upper-casing ASCII letters only). */
  function NormalizeTrackingId(input: string): (id: string)
    ensures |id| <= |input|
    ensures forall i :: 0 <= i < |id| ==> !('a' <= id[i] <= 'z')
  {
    ToUpperAscii(Trim(input))
  }

  datatype Submission = MissingId(message: string) | Request(trackingId: string)

  /** The submit handler: an empty id shows an error and sends nothing; otherwise the cleaned id is requested. */
  function SubmitTracking(input: string): (s: Submission)
    ensures s.Request? ==> s.trackingId == NormalizeTrackingId(input) && s.trackingId != []
    ensures s.MissingId? ==> s.message == "Please enter a tracking ID"
  {
    var id := NormalizeTrackingId(input);
    if id == [] then MissingId("Please enter a tracking ID") else Request(id)
  }

  /** A request goes out exactly when the input holds a character other than white space. */
  lemma SubmitIffNonBlank(input: string)
    ensures SubmitTracking(input).Request? <==> exists i :: 0 <= i < |input| && !IsJsSpace(input[i])
  {
    TrimEmptyIff(input);
  }

  /** The requested id has no white space at either end, and cleaning it again changes nothing. */
  lemma NormalizeIdempotent(input: string)
    ensures var id := NormalizeTrackingId(input);
      (id == [] || (!IsJsSpace(id[0]) && !IsJsSpace(id[|id| - 1])))
      && NormalizeTrackingId(id) == id
  {
    var t := Trim(input);
    var id := ToUpperAscii(t);
    UpperKeepsSpaces(t);
    if id != [] {
      assert IsJsSpace(id[0]) == IsJsSpace(t[0]);
      assert IsJsSpace(id[|id| - 1]) == IsJsSpace(t[|t| - 1]);
    }
    TrimOfTrimmed(id);
    UpperIdempotent(t);
  }
}
