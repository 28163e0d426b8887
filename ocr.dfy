/**
 * The approval-gated OCR path of main.py: the check of the OCR service's
 * reply, and the state machine of the pending-image slot and its `approved`
 * flag, followed over any sequence of script passes.
 */
module Ocr {
  import opened Wrappers
  import opened Storage

  /** An uploaded image: its file name and bytes. */
  datatype Image = Image(name: string, data: Blob)

  /**
   * What the OCR endpoint gives back: no usable reply (transport error or a
   * body that is not JSON), or a JSON object with its `IsErroredOnProcessing`
   * field and the `ParsedResults[0].ParsedText` field, each possibly absent.
   */
  datatype OcrReply = Unreachable | Reply(erroredOnProcessing: Option<bool>, parsedText: Option<Blob>)

  /**
   * `extract_text_from_image` minus the HTTP call: the parsed text, or None
   * where the function raises (no reply, a reply flagged as errored, or one
   * without a parsed text).
   */
  function ExtractText(reply: OcrReply): (text: Option<Blob>)
    ensures reply.Reply? && reply.erroredOnProcessing == Some(true) ==> text == None
    ensures text.Some? <==> reply.Reply? && reply.erroredOnProcessing != Some(true) && reply.parsedText.Some?
    ensures text.Some? ==> text == reply.parsedText
  {
    match reply
    case Unreachable => None
    case Reply(errored, parsed) => if errored == Some(true) then None else parsed
  }

  /** The session's `uploaded_image` key (absent or an image) and its `approved` flag. */
  datatype Slot = Slot(pending: Option<Image>, approved: bool)

  /** Lines 150-152: an offered image is taken only into an empty slot, and clears the approval. */
  function Admit(s: Slot, offered: Option<Image>): (r: Slot)
    ensures s.pending.Some? ==> r == s
    ensures s.pending.None? && offered.Some? ==> r == Slot(offered, false)
    ensures offered.None? ==> r == s
  {
    if offered.Some? && s.pending.None? then Slot(offered, false) else s
  }

  /** Lines 85-103: a pass reaches the OCR request with an image pending, a key, and an approval. */
  predicate Requests(s: Slot, keyPresent: bool, pressed: bool)
    ensures s.pending.None? || !keyPresent ==> !Requests(s, keyPresent, pressed)
    ensures !s.approved && !pressed ==> !Requests(s, keyPresent, pressed)
    ensures s.pending.Some? && keyPresent && pressed ==> Requests(s, keyPresent, pressed)
  {
    s.pending.Some? && keyPresent && (s.approved || pressed)
  }

  /**
   * The slot after `process_uploaded_image`. `completed` says whether the
   * request and the upload of the transcript went through; only then is the
   * image deleted (line 121). An approval given in this pass stays set.
   */
  function Process(s: Slot, keyPresent: bool, pressed: bool, completed: bool): (r: Slot)
    ensures !Requests(s, keyPresent, pressed) ==> r == s
    ensures Requests(s, keyPresent, pressed) ==> r.approved
    ensures Requests(s, keyPresent, pressed) && completed ==> r.pending == None
    ensures Requests(s, keyPresent, pressed) && !completed ==> r.pending == s.pending
  {
    if !Requests(s, keyPresent, pressed) then s
    else if completed then Slot(None, true)
    else Slot(s.pending, true)
  }

  /**
   * What one pass of the script brings to the slot: the image in the
   * uploader, whether the OCR key is set, whether "Approved" was pressed, and
   * whether a request made in this pass would complete.
   */
  datatype PassInput = PassInput(offered: Option<Image>, keyPresent: bool, pressed: bool, succeeds: bool)

  /**
   * One pass: admission, then processing; the flag says whether the OCR
   * service was called. A call needs the key, an image, and a press in this
   * pass or an approval carried by the image already pending; a pending image
   * is never swapped for another, and leaves only through a completed call.
   */
  function Step(s: Slot, p: PassInput): (r: (Slot, bool))
    ensures r.1 ==> p.keyPresent && (s.pending.Some? || p.offered.Some?)
    ensures r.1 ==> p.pressed || (s.approved && s.pending.Some?)
    ensures r.1 ==> r.0.approved
    ensures s.pending.Some? ==> r.0.pending == s.pending || r.0.pending == None
    ensures s.pending.Some? && r.0.pending.None? ==> r.1 && p.succeeds
  {
    var a := Admit(s, p.offered);
    var asked := Requests(a, p.keyPresent, p.pressed);
    (Process(a, p.keyPresent, p.pressed, asked && p.succeeds), asked)
  }

  /** A sequence of passes: the final slot and the number of OCR requests made. */
  function Run(s: Slot, ps: seq<PassInput>): (r: (Slot, nat))
    ensures r.1 <= |ps|
    decreases |ps|
  {
    if ps == [] then (s, 0)
    else
      var (s1, asked) := Step(s, ps[0]);
      var (sn, n) := Run(s1, ps[1..]);
      (sn, n + if asked then 1 else 0)
  }

  /** Nothing is approved, or nothing is pending: no pending image carries an approval. */
  predicate Unapproved(s: Slot) {
    !s.approved || s.pending.None?
  }

  /** Without a press of "Approved", no pass calls the OCR service and nothing is approved. */
  lemma {:induction false} NoRequestWithoutApproval(s: Slot, ps: seq<PassInput>)
    requires Unapproved(s)
    requires forall i :: 0 <= i < |ps| ==> !ps[i].pressed
    ensures Run(s, ps).1 == 0 && Unapproved(Run(s, ps).0)
    decreases |ps|
  {
    if ps != [] {
      var (s1, asked) := Step(s, ps[0]);
      assert !asked && Unapproved(s1);
      NoRequestWithoutApproval(s1, ps[1..]);
    }
  }

  /** With no image pending and none offered, presses do nothing: a completed image is never re-submitted. */
  lemma {:induction false} NothingPendingNoRequest(s: Slot, ps: seq<PassInput>)
    requires s.pending.None?
    requires forall i :: 0 <= i < |ps| ==> ps[i].offered.None?
    ensures Run(s, ps) == (s, 0)
    decreases |ps|
  {
    if ps != [] {
      assert Step(s, ps[0]) == (s, false);
      NothingPendingNoRequest(s, ps[1..]);
    }
  }

  /** Running two sequences of passes one after the other is running their concatenation. */
  lemma {:induction false} RunAppend(s: Slot, ps: seq<PassInput>, qs: seq<PassInput>)
    ensures Run(s, ps + qs) == (Run(Run(s, ps).0, qs).0, Run(s, ps).1 + Run(Run(s, ps).0, qs).1)
    decreases |ps|
  {
    if ps == [] {
      assert ps + qs == qs;
    } else {
      assert (ps + qs)[0] == ps[0];
      assert (ps + qs)[1..] == ps[1..] + qs;
      RunAppend(Step(s, ps[0]).0, ps[1..], qs);
    }
  }

  /** A pending image that is not approved waits, untouched and unsent, for as long as nobody presses "Approved". */
  lemma {:induction false} PendingStays(s: Slot, ps: seq<PassInput>)
    requires s.pending.Some? && !s.approved
    requires forall i :: 0 <= i < |ps| ==> !ps[i].pressed
    ensures Run(s, ps) == (s, 0)
    decreases |ps|
  {
    if ps != [] {
      assert Step(s, ps[0]) == (s, false);
      PendingStays(s, ps[1..]);
    }
  }

  /**
   * The usual life of an image: offered to the empty slot in one pass, left
   * waiting through any passes without a press, then approved with the key
   * set and processed successfully. It is sent to the OCR service exactly
   * once, whatever is pressed afterwards while no new image is offered.
   */
  lemma ExactlyOnceOnSuccess(s: Slot, admit: PassInput, waits: seq<PassInput>, approve: PassInput, later: seq<PassInput>)
    requires s.pending.None?
    requires admit.offered.Some? && !admit.pressed
    requires forall i :: 0 <= i < |waits| ==> !waits[i].pressed
    requires approve.keyPresent && approve.pressed && approve.succeeds
    requires forall i :: 0 <= i < |later| ==> later[i].offered.None?
    ensures Run(s, [admit] + waits + [approve] + later) == (Slot(None, true), 1)
  {
    var s1 := Slot(admit.offered, false);
    AdmittedAndWaiting(s, admit, waits);
    ApprovedAndDone(s1, approve, later);
    RunAppend(s, [admit] + waits, [approve] + later);
    assert [admit] + waits + [approve] + later == ([admit] + waits) + ([approve] + later);
  }

  /** The first half of the usual life: admitted, then waiting unsent. */
  lemma AdmittedAndWaiting(s: Slot, admit: PassInput, waits: seq<PassInput>)
    requires s.pending.None?
    requires admit.offered.Some? && !admit.pressed
    requires forall i :: 0 <= i < |waits| ==> !waits[i].pressed
    ensures Run(s, [admit] + waits) == (Slot(admit.offered, false), 0)
  {
    var s1 := Slot(admit.offered, false);
    assert ([admit] + waits)[0] == admit;
    assert ([admit] + waits)[1..] == waits;
    assert Step(s, admit) == (s1, false);
    PendingStays(s1, waits);
  }

  /** The second half: approved and sent once, then nothing more. */
  lemma ApprovedAndDone(s: Slot, approve: PassInput, later: seq<PassInput>)
    requires s.pending.Some? && !s.approved
    requires approve.keyPresent && approve.pressed && approve.succeeds
    requires forall i :: 0 <= i < |later| ==> later[i].offered.None?
    ensures Run(s, [approve] + later) == (Slot(None, true), 1)
  {
    var done := Slot(None, true);
    assert ([approve] + later)[0] == approve;
    assert ([approve] + later)[1..] == later;
    assert Step(s, approve) == (done, true);
    NothingPendingNoRequest(done, later);
  }

  /**
   * The case where the image is admitted and approved in the same pass: it
   * too is sent exactly once.
   */
  lemma ExactlyOnceApprovedOnArrival(s: Slot, first: PassInput, later: seq<PassInput>)
    requires s.pending.None?
    requires first.offered.Some? && first.keyPresent && first.pressed && first.succeeds
    requires forall i :: 0 <= i < |later| ==> later[i].offered.None?
    ensures Run(s, [first] + later) == (Slot(None, true), 1)
  {
    var ps := [first] + later;
    assert ps[1..] == later;
    var (s1, asked) := Step(s, first);
    assert asked && s1 == Slot(None, true);
    NothingPendingNoRequest(s1, later);
  }

  /**
   * As written, a request that fails leaves the image pending and approved,
   * so every later pass with the key set calls the service again without a
   * new press, until a request completes.
   */
  lemma {:induction false} FailedRequestIsRetried(s: Slot, ps: seq<PassInput>)
    requires s.pending.Some? && s.approved
    requires forall i :: 0 <= i < |ps| ==> ps[i].keyPresent && !ps[i].succeeds
    ensures Run(s, ps) == (s, |ps|)
    decreases |ps|
  {
    if ps != [] {
      assert Step(s, ps[0]) == (s, true);
      FailedRequestIsRetried(s, ps[1..]);
    }
  }
}
