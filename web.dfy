/** The parts of `net/http` and the session library the handlers touch: form
    values, the response a handler writes, and the session attributes. */
module Web {
  import opened Records

  /** The submitted form: `r.FormValue(key)` is the value or `""`. */
  type Form = map<string, string>

  function FormValue(form: Form, key: string): string
  {
    if key in form then form[key] else ""
  }

  /** What a handler has written to its response: nothing yet, a redirect, a
      rendered template (with the message it shows), or an error status. */
  datatype Reply =
    | Unwritten
    | Redirect(location: string)
    | Page(template: string, message: string)
    | Failure(status: int)

  /** Writing a response: the first response written is the one the client
      receives; a later redirect or error does not replace it. */
  function Write(w: Reply, next: Reply): (r: Reply)
    ensures !w.Unwritten? ==> r == w
    ensures w.Unwritten? ==> r == next
  {
    if w.Unwritten? then next else w
  }

  /** `checkInternalServerError`: on an error it writes status 500 and returns
      to its caller, which carries on. */
  function CheckInternalServerError(failed: bool, w: Reply): (r: Reply)
    ensures !failed ==> r == w
    ensures failed && w.Unwritten? ==> r == Failure(500)
  {
    if failed then Write(w, Failure(500)) else w
  }

  /** The response after a handler's writes, in order, on top of `w`. */
  function WriteAll(w: Reply, writes: seq<Reply>): Reply
    decreases |writes|
  {
    if writes == [] then w else WriteAll(Write(w, writes[0]), writes[1..])
  }

  /** A response once written is final: no later write replaces it. */
  lemma {:induction false} WrittenReplyIsFinal(w: Reply, writes: seq<Reply>)
    requires !w.Unwritten?
    ensures WriteAll(w, writes) == w
    decreases |writes|
  {
    if writes != [] {
      WrittenReplyIsFinal(Write(w, writes[0]), writes[1..]);
    }
  }

  /** On a fresh response the client gets the first reply actually written,
      and nothing when no write happened. */
  lemma {:induction false} FirstWriteWins(writes: seq<Reply>)
    ensures forall k :: 0 <= k < |writes| && !writes[k].Unwritten? && (forall j :: 0 <= j < k ==> writes[j].Unwritten?) ==>
      WriteAll(Unwritten, writes) == writes[k]
    ensures (forall j :: 0 <= j < |writes| ==> writes[j].Unwritten?) ==> WriteAll(Unwritten, writes) == Unwritten
  {
    if writes != [] {
      if writes[0].Unwritten? {
        FirstWriteWins(writes[1..]);
        assert forall j :: 1 <= j < |writes| ==> writes[j] == writes[1..][j - 1];
      } else {
        WrittenReplyIsFinal(writes[0], writes[1..]);
      }
    }
  }

  /** An error reported before anything was written decides the response:
      whatever the handler writes afterwards, the client gets status 500. */
  lemma ServerErrorIsFinal(w: Reply, writes: seq<Reply>)
    requires w.Unwritten?
    ensures WriteAll(CheckInternalServerError(true, w), writes) == Failure(500)
    ensures WriteAll(CheckInternalServerError(false, w), writes) == WriteAll(Unwritten, writes)
  {
    WrittenReplyIsFinal(Failure(500), writes);
  }

  /** A session: the `username` and `userid` cookie attributes and the `count`
      attribute set at login. */
  datatype Session = Session(username: string, userId: Int32, count: int)
}
