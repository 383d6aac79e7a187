/** The request bookkeeping of the asynchronous WinInet HTTP client: the list
    of in-flight requests, and the per-request handler that reacts to WinInet
    status notifications, sizes the response buffer from Content-Length,
    resumes partial reads, and reports the outcome exactly once.

    WinInet itself is not modelled: what its calls return during one
    notification is the `WinInetAnswers` parameter, and pointers into the
    response buffer are offsets from its start. */
module Http {
  import opened NativeInt
  import opened Wrappers

  /** `HINTERNET`; 0 is the null handle. */
  type Handle = nat

  const Null: Handle := 0

  /** `ERROR_IO_PENDING`: the asynchronous read has been queued. */
  const ErrorIoPending: U32 := 997

  /** `INTERNET_BUFFERS` without its size and header fields: `lpvBuffer` is
      the offset of the read window from the start of the response buffer. */
  datatype InternetBuffers = InternetBuffers(lpvBuffer: nat, dwBufferLength: U32, dwBufferTotal: U32)

  /** The mutable part of an `HttpRequest`: `hRequest`, `buffers`, whether
      `pBuffer` is non-null, and `sizeLength`. */
  datatype RequestState = RequestState(hRequest: Handle, buffers: InternetBuffers, hasBuffer: bool, sizeLength: nat)

  /** A new record: null handle, zeroed buffers, null buffer, length 0. */
  function InitialRequest(): (st: RequestState)
    ensures st.hRequest == Null && !st.hasBuffer && st.sizeLength == 0
    ensures st.buffers.dwBufferTotal == 0 && st.buffers.dwBufferLength == 0
  {
    RequestState(Null, InternetBuffers(0, 0, 0), false, 0)
  }

  /** `INTERNET_ASYNC_RESULT`. */
  datatype AsyncResult = AsyncResult(dwResult: nat, dwError: U32)

  /** The notifications the handler distinguishes; every other status is
      ignored. */
  datatype StatusEvent =
    | HandleCreated(result: AsyncResult)
    | RequestComplete(result: AsyncResult)
    | HandleClosing
    | OtherStatus

  /** What WinInet reports during one REQUEST_COMPLETE notification:
      `bytesRead` is what it wrote into `dwBufferLength` when a queued read
      finished; the two `HttpQueryInfo` results (None when the query fails);
      whether `InternetReadFileEx` returned TRUE, and `GetLastError` if not. */
  datatype WinInetAnswers = WinInetAnswers(
    bytesRead: U32,
    statusCode: Option<U32>,
    contentLength: Option<U32>,
    readCompleted: bool,
    lastError: U32)

  /** The arguments of one `fnOnFinish(nStatus, pBuffer, szLength)` call;
      `buffer` is whether `pBuffer` is non-null. */
  datatype Finish = Finish(status: I32, buffer: bool, length: nat)

  /** What a notification leaves: the record's new state, the `fnOnFinish`
      call made (if any, always followed by `Terminate`), and the
      `bKeepBuffer` argument of that `Terminate`. */
  datatype Outcome = Outcome(next: RequestState, finish: Option<Finish>, keepBuffer: bool)

  /** Every record in the list satisfies this between notifications: before
      the first completion nothing is allocated; afterwards the buffer holds
      `sizeLength` = `dwBufferTotal` bytes and the pending read window ends
      exactly at the end of the buffer. */
  predicate RequestValid(st: RequestState) {
    if st.buffers.dwBufferTotal == 0 then
      !st.hasBuffer && st.buffers == InternetBuffers(0, 0, 0) && st.sizeLength == 0
    else
      st.hasBuffer && st.sizeLength == st.buffers.dwBufferTotal
      && st.buffers.lpvBuffer + st.buffers.dwBufferLength == st.sizeLength
  }

  /** WinInet never reports more bytes than the queued read asked for. */
  predicate Plausible(st: RequestState, w: WinInetAnswers) {
    st.buffers.dwBufferTotal != 0 ==> w.bytesRead <= st.buffers.dwBufferLength
  }

  /** A queued read has finished: WinInet has stored the number of bytes it
      read in `dwBufferLength`. */
  function Arrived(st: RequestState, w: WinInetAnswers): (st': RequestState)
    ensures st'.buffers.dwBufferTotal == st.buffers.dwBufferTotal
    ensures st'.hRequest == st.hRequest && st'.hasBuffer == st.hasBuffer && st'.sizeLength == st.sizeLength
    ensures st'.buffers.lpvBuffer == st.buffers.lpvBuffer
    ensures st.buffers.dwBufferTotal != 0 ==> st'.buffers.dwBufferLength == w.bytesRead
    ensures st.buffers.dwBufferTotal == 0 ==> st' == st
  {
    if st.buffers.dwBufferTotal != 0 then st.(buffers := st.buffers.(dwBufferLength := w.bytesRead)) else st
  }

  /** The `dw` after the status query: the status code, or 0 when the query
      fails. */
  function StatusOf(w: WinInetAnswers): (code: U32)
    ensures w.statusCode.Some? ==> code == w.statusCode.value
    ensures w.statusCode.None? ==> code == 0
  {
    if w.statusCode.Some? then w.statusCode.value else 0
  }

  /** The `dw` that sizes the buffer: the Content-Length, or, when that query
      fails, the status code still held in the reused variable. */
  function BufferSize(code: U32, w: WinInetAnswers): (n: U32)
    ensures w.contentLength.Some? ==> n == w.contentLength.value
    ensures w.contentLength.None? ==> n == code
  {
    if w.contentLength.Some? then w.contentLength.value else code
  }

  /** Allocating the response buffer for n bytes and reading into all of it. */
  function Allocated(st: RequestState, n: U32): (st': RequestState)
    ensures st'.hasBuffer && st'.sizeLength == n && st'.hRequest == st.hRequest
    ensures st'.buffers == InternetBuffers(0, n, n)
  {
    st.(hasBuffer := true, buffers := InternetBuffers(0, n, n), sizeLength := n)
  }

  /** After an incomplete read: move the window past the bytes just read and
      shrink it to what is left of the buffer (`size_t` difference cast to
      `DWORD`). */
  function Advanced(st: RequestState): (st': RequestState)
    ensures st'.hRequest == st.hRequest && st'.hasBuffer == st.hasBuffer && st'.sizeLength == st.sizeLength
    ensures st'.buffers.lpvBuffer == st.buffers.lpvBuffer + st.buffers.dwBufferLength
    ensures st'.buffers.dwBufferTotal == st.buffers.dwBufferTotal
    ensures st'.buffers.lpvBuffer <= st.sizeLength < TwoTo32 ==>
      st'.buffers.lpvBuffer + st'.buffers.dwBufferLength == st.sizeLength
  {
    var lpv := st.buffers.lpvBuffer + st.buffers.dwBufferLength;
    var downloaded := lpv;
    st.(buffers := st.buffers.(lpvBuffer := lpv, dwBufferLength := TruncU32(st.sizeLength - downloaded)))
  }

  /** `-(int)error` for the error code of a failed read: the status the
      header promises for a request that could not be made. */
  function ReadErrorStatus(lastError: U32): (s: I32)
    ensures 0 < lastError < TwoTo31 ==> s == -(lastError as int) && s < 0
  {
    NegI32(Int32Of(lastError))
  }

  /** The status a failed read reports as the code is written: the negated
      `dwError` of the successful notification that started the read, not
      the error the read itself returned. */
  function ReadErrorStatusAsWritten(result: AsyncResult, lastError: U32): (s: I32)
    ensures 0 < result.dwError < TwoTo31 ==> s == -(result.dwError as int)
    ensures result.dwError == 0 ==> s == 0
  {
    NegI32(Int32Of(result.dwError))
  }

  /** The read step, once the buffer exists: read more while the last count
      was positive, otherwise report the whole buffer. `readError` is the
      status a failed read reports. It waits only for a queued read; it
      keeps the buffer exactly when it hands the whole buffer over with
      status 0; every other report is `readError` with no buffer. */
  function ReadNext(st: RequestState, w: WinInetAnswers, readError: I32): (o: Outcome)
    ensures o.next.hRequest == st.hRequest && o.next.hasBuffer == st.hasBuffer && o.next.sizeLength == st.sizeLength
    ensures o.finish.None? <==> st.buffers.dwBufferLength > 0 && !w.readCompleted && w.lastError == ErrorIoPending
    ensures o.finish.Some? ==> (o.keepBuffer <==> st.buffers.dwBufferLength == 0 || w.readCompleted)
    ensures o.keepBuffer ==> o.finish == Some(Finish(0, st.hasBuffer, st.sizeLength))
    ensures o.finish.Some? && !o.keepBuffer ==> o.finish == Some(Finish(readError, false, 0))
  {
    if st.buffers.dwBufferLength > 0 then
      var st' := if st.buffers.dwBufferLength < st.buffers.dwBufferTotal then Advanced(st) else st;
      if w.readCompleted then
        Outcome(st', Some(Finish(0, st'.hasBuffer, st'.sizeLength)), true)
      else if w.lastError != ErrorIoPending then
        Outcome(st', Some(Finish(readError, false, 0)), false)
      else
        Outcome(st', None, false)
    else
      Outcome(st, Some(Finish(0, st.hasBuffer, st.sizeLength)), true)
  }

  /** A successful notification, once the byte count of a queued read is
      stored: the first one checks the status and allocates the buffer, then
      the read step runs. */
  function Answered(st1: RequestState, w: WinInetAnswers, readError: I32): (o: Outcome)
    ensures o.next.hRequest == st1.hRequest
    ensures o.finish.None? ==> !w.readCompleted && w.lastError == ErrorIoPending
    ensures o.keepBuffer ==> o.finish == Some(Finish(0, o.next.hasBuffer, o.next.sizeLength))
    ensures st1.buffers.dwBufferTotal == 0 && (StatusOf(w) < 200 || 299 < StatusOf(w)) ==>
      o == Outcome(st1, Some(Finish(Int32Of(StatusOf(w)), false, 0)), false)
    ensures st1.buffers.dwBufferTotal == 0 && 200 <= StatusOf(w) <= 299 ==>
      o.next.hasBuffer && o.next.sizeLength == BufferSize(StatusOf(w), w)
    ensures o.finish.Some? && !o.keepBuffer && (st1.buffers.dwBufferTotal != 0 || 200 <= StatusOf(w) <= 299) ==>
      o.finish == Some(Finish(readError, false, 0))
  {
    if st1.buffers.dwBufferTotal == 0 then
      var code := StatusOf(w);
      if code < 200 || code > 299 then
        Outcome(st1, Some(Finish(Int32Of(code), false, 0)), false)
      else
        ReadNext(Allocated(st1, BufferSize(code, w)), w, readError)
    else
      ReadNext(st1, w, readError)
  }

  /** The REQUEST_COMPLETE branch of the handler, with the status a failed
      read reports as a parameter. It keeps the handle; it waits only for a
      queued read after a successful notification; a kept buffer is handed
      over whole with status 0; every other report passes no buffer. */
  function Completion(st: RequestState, result: AsyncResult, w: WinInetAnswers, readError: I32): (o: Outcome)
    ensures o.next.hRequest == st.hRequest
    ensures o.finish.None? ==> result.dwResult != 0 && !w.readCompleted && w.lastError == ErrorIoPending
    ensures o.keepBuffer ==> o.finish == Some(Finish(0, o.next.hasBuffer, o.next.sizeLength))
    ensures o.finish.Some? && !o.keepBuffer ==> !o.finish.value.buffer && o.finish.value.length == 0
  {
    if result.dwResult != 0 then
      Answered(Arrived(st, w), w, readError)
    else
      Outcome(st, Some(Finish(NegI32(Int32Of(result.dwError)), false, 0)), false)
  }

  /** REQUEST_COMPLETE with the corrected status of a failed read: when a
      queued read fails, the report carries the negated error of that read. */
  function OnRequestComplete(st: RequestState, result: AsyncResult, w: WinInetAnswers): (o: Outcome)
    ensures result.dwResult != 0 && st.buffers.dwBufferTotal != 0 && o.finish.Some? && !o.keepBuffer ==>
      o.finish == Some(Finish(ReadErrorStatus(w.lastError), false, 0))
    ensures result.dwResult != 0 && st.buffers.dwBufferTotal != 0 && o.finish.Some? && !o.keepBuffer && 0 < w.lastError < TwoTo31 ==>
      o.finish.value.status == -(w.lastError as int)
  {
    Completion(st, result, w, ReadErrorStatus(w.lastError))
  }

  /** REQUEST_COMPLETE as written: when a queued read fails, the report
      carries the negated `dwError` of the notification, whatever error the
      read returned, so a successful notification yields status 0. */
  function OnRequestCompleteAsWritten(st: RequestState, result: AsyncResult, w: WinInetAnswers): (o: Outcome)
    ensures result.dwResult != 0 && st.buffers.dwBufferTotal != 0 && o.finish.Some? && !o.keepBuffer ==>
      o.finish == Some(Finish(ReadErrorStatusAsWritten(result, w.lastError), false, 0))
    ensures result.dwResult != 0 && st.buffers.dwBufferTotal != 0 && o.finish.Some? && !o.keepBuffer && result.dwError == 0 ==>
      o.finish.value.status == 0
  {
    Completion(st, result, w, ReadErrorStatusAsWritten(result, w.lastError))
  }

  /** The whole handler, as a function of the record's state: only
      REQUEST_COMPLETE reports or touches the buffer, and only
      HANDLE_CREATED changes the handle. */
  function OnStatus(st: RequestState, ev: StatusEvent, w: WinInetAnswers): (o: Outcome)
    ensures !ev.RequestComplete? ==>
      && o.finish.None? && !o.keepBuffer
      && o.next.buffers == st.buffers && o.next.hasBuffer == st.hasBuffer && o.next.sizeLength == st.sizeLength
    ensures ev.HandleCreated? ==> o.next.hRequest == ev.result.dwResult
    ensures !ev.HandleCreated? ==> o.next.hRequest == st.hRequest
  {
    match ev
    case HandleCreated(result) => Outcome(st.(hRequest := result.dwResult), None, false)
    case RequestComplete(result) => OnRequestComplete(st, result, w)
    case HandleClosing => Outcome(st, None, false)
    case OtherStatus => Outcome(st, None, false)
  }

  /** A notification that does not finish the request leaves a valid record
      whose queued read writes into the buffer and to its very end. */
  lemma {:induction false} CompleteKeepsValid(st: RequestState, result: AsyncResult, w: WinInetAnswers)
    requires RequestValid(st) && Plausible(st, w)
    ensures var o := OnRequestComplete(st, result, w);
      o.finish.None? ==>
        && RequestValid(o.next)
        && o.next.hRequest == st.hRequest
        && 0 < o.next.buffers.dwBufferTotal
        && o.next.buffers.lpvBuffer + o.next.buffers.dwBufferLength == o.next.sizeLength
  {
    var st1 := Arrived(st, w);
    if result.dwResult != 0 && st1.buffers.dwBufferTotal != 0 {
      assert st1.buffers.lpvBuffer + st1.buffers.dwBufferLength <= st1.sizeLength;
      assert st1.sizeLength < TwoTo32;
    }
  }

  /** What a queued read that did not fill the whole buffer advances the
      download by: exactly the bytes it read. A first read that filled it
      leaves the window where it was. */
  lemma DownloadProgress(st: RequestState, result: AsyncResult, w: WinInetAnswers)
    requires RequestValid(st) && Plausible(st, w)
    requires result.dwResult != 0 && st.buffers.dwBufferTotal != 0 && w.bytesRead > 0
    ensures var o := OnRequestComplete(st, result, w);
      && (w.bytesRead < st.sizeLength ==> o.next.buffers.lpvBuffer == st.buffers.lpvBuffer + w.bytesRead)
      && (w.bytesRead == st.sizeLength ==> o.next.buffers.lpvBuffer == 0 && o.next.buffers.dwBufferLength == st.sizeLength)
  {
  }

  /** The first completion of a response outside 200..299 reports the code
      with no buffer; nothing is allocated and no read is made. */
  lemma RejectsNon2xx(st: RequestState, result: AsyncResult, w: WinInetAnswers)
    requires RequestValid(st) && st.buffers.dwBufferTotal == 0
    requires result.dwResult != 0 && w.statusCode.Some?
    requires w.statusCode.value < 200 || 299 < w.statusCode.value
    ensures OnRequestComplete(st, result, w) ==
      Outcome(st, Some(Finish(Int32Of(w.statusCode.value), false, 0)), false)
  {
  }

  /** The first completion of a 2xx response sizes the buffer, its length and
      the read window to Content-Length. */
  lemma SizesBufferFromContentLength(st: RequestState, result: AsyncResult, w: WinInetAnswers)
    requires RequestValid(st) && st.buffers.dwBufferTotal == 0
    requires result.dwResult != 0 && w.statusCode.Some? && 200 <= w.statusCode.value <= 299
    requires w.contentLength.Some? && w.contentLength.value > 0
    ensures var o := OnRequestComplete(st, result, w);
      && o.next.hasBuffer
      && o.next.sizeLength == w.contentLength.value
      && o.next.buffers == InternetBuffers(0, w.contentLength.value, w.contentLength.value)
  {
  }

  /** The `OnFinishCallback` status encoding, for WinInet answers in range
      (a status code and error codes that are positive as an `int`): status 0
      exactly when the buffer is handed over, and then with `sizeLength`
      bytes and kept by `Terminate`; a positive status is the server's non-2xx
      code; a negative one is the negated error code; every failure passes a
      null buffer and length 0 and has `Terminate` free the buffer. */
  lemma StatusEncoding(st: RequestState, result: AsyncResult, w: WinInetAnswers)
    requires RequestValid(st) && Plausible(st, w)
    requires w.statusCode.Some? && 0 < w.statusCode.value < TwoTo31
    requires result.dwResult == 0 ==> 0 < result.dwError < TwoTo31
    requires 0 < w.lastError < TwoTo31
    ensures var o := OnRequestComplete(st, result, w);
      o.finish.Some? ==>
        var f := o.finish.value;
        && (f.status == 0 <==> f.buffer)
        && (f.buffer <==> o.keepBuffer)
        && (f.buffer ==> f.length == o.next.sizeLength && o.next.hasBuffer)
        && (!f.buffer ==> f.length == 0)
        && (f.status > 0 ==> f.status == w.statusCode.value && (f.status < 200 || 299 < f.status))
        && (f.status < 0 && result.dwResult == 0 ==> f.status == -(result.dwError as int))
        && (f.status < 0 && result.dwResult != 0 ==> f.status == -(w.lastError as int))
  {
    var st1 := Arrived(st, w);
    if result.dwResult != 0 && st1.buffers.dwBufferTotal != 0 {
      assert st1.hasBuffer;
    }
  }

  /** As written, a read that fails right after a successful notification
      (whose `dwError` is ERROR_SUCCESS) reports status 0 with a null buffer,
      which the encoding reserves for a delivered response; the corrected
      handler reports the negated error of the read. */
  lemma ReadErrorReportsSuccess()
    ensures var st := RequestState(7, InternetBuffers(0, 100, 100), true, 100);
      var result := AsyncResult(1, 0);
      var w := WinInetAnswers(40, None, None, false, 12002);
      && RequestValid(st) && Plausible(st, w)
      && OnRequestCompleteAsWritten(st, result, w).finish == Some(Finish(0, false, 0))
      && !OnRequestCompleteAsWritten(st, result, w).keepBuffer
      && OnRequestComplete(st, result, w).finish == Some(Finish(-12002, false, 0))
  {
  }

  /** When REQUEST_COMPLETE reports, for a valid record. A failed
      notification reports its negated error. After a queued read, an empty
      read or one that completed at once hands the whole buffer over and
      keeps it; otherwise the request waits exactly when the read is pending,
      and a report frees the buffer. */
  lemma ReportsWhen(st: RequestState, result: AsyncResult, w: WinInetAnswers)
    requires RequestValid(st) && Plausible(st, w)
    ensures var o := OnRequestComplete(st, result, w);
      && (result.dwResult == 0 ==>
            o == Outcome(st, Some(Finish(NegI32(Int32Of(result.dwError)), false, 0)), false))
      && (result.dwResult != 0 && st.buffers.dwBufferTotal != 0 ==>
            && (w.bytesRead == 0 || w.readCompleted ==>
                  o.finish == Some(Finish(0, true, st.sizeLength)) && o.keepBuffer)
            && (w.bytesRead > 0 && !w.readCompleted ==>
                  (o.finish.None? <==> w.lastError == ErrorIoPending) && !o.keepBuffer))
  {
  }

  /** A successful first completion whose status query fails reports status
      0, the success code, with no buffer, and frees nothing it could keep:
      `dw` keeps its initial 0, which lies outside 200..299. */
  lemma FailedStatusQueryReportsZero(st: RequestState, result: AsyncResult, w: WinInetAnswers)
    requires RequestValid(st) && st.buffers.dwBufferTotal == 0
    requires result.dwResult != 0 && w.statusCode.None?
    ensures OnRequestComplete(st, result, w) == Outcome(st, Some(Finish(0, false, 0)), false)
  {
  }

  /** A 2xx first completion whose Content-Length query fails sizes the
      buffer to the status code, which the reused variable still holds. */
  lemma ContentLengthFallback(st: RequestState, result: AsyncResult, w: WinInetAnswers)
    requires RequestValid(st) && st.buffers.dwBufferTotal == 0
    requires result.dwResult != 0 && w.statusCode.Some? && 200 <= w.statusCode.value <= 299
    requires w.contentLength.None?
    ensures var o := OnRequestComplete(st, result, w);
      && o.next.hasBuffer
      && o.next.sizeLength == w.statusCode.value
      && o.next.buffers == InternetBuffers(0, w.statusCode.value, w.statusCode.value)
  {
  }

  /** `HttpRequest`: one in-flight request, identified by its address. */
  class HttpRequest {
    const url: string
    var hRequest: Handle
    var buffers: InternetBuffers
    var hasBuffer: bool
    var sizeLength: nat

    function State(): (st: RequestState)
      reads this
    {
      RequestState(hRequest, buffers, hasBuffer, sizeLength)
    }

    constructor (url: string)
      ensures this.url == url && State() == InitialRequest()
    {
      this.url := url;
      hRequest := Null;
      buffers := InternetBuffers(0, 0, 0);
      hasBuffer := false;
      sizeLength := 0;
    }
  }

  /** The handles of a list of requests, in order. */
  function HandlesOf(rs: seq<HttpRequest>): (hs: seq<Handle>)
    reads rs
    ensures |hs| == |rs|
    ensures forall i :: 0 <= i < |rs| ==> hs[i] == rs[i].hRequest
  {
    if rs == [] then [] else HandlesOf(rs[..|rs| - 1]) + [rs[|rs| - 1].hRequest]
  }

  /** The position `std::find_if` stops at: the first handle equal to h. */
  function FirstWithHandle(hs: seq<Handle>, h: Handle): (k: Option<nat>)
    ensures k.Some? ==> k.value < |hs| && hs[k.value] == h && forall j :: 0 <= j < k.value ==> hs[j] != h
    ensures k.None? <==> h !in hs
  {
    if hs == [] then None
    else if hs[0] == h then Some(0)
    else match FirstWithHandle(hs[1..], h)
      case None => None
      case Some(k) => Some(k + 1)
  }

  /** The position of a request in the list. */
  function IndexOf(rs: seq<HttpRequest>, r: HttpRequest): (i: nat)
    requires r in rs
    ensures i < |rs| && rs[i] == r
  {
    if rs[0] == r then 0 else 1 + IndexOf(rs[1..], r)
  }

  /** The list holds each record once and no two records share a non-null
      handle. */
  ghost predicate ListValid(rs: seq<HttpRequest>)
    reads rs
  {
    && (forall i, j :: 0 <= i < j < |rs| ==> rs[i] != rs[j])
    && (forall i, j :: 0 <= i < |rs| && 0 <= j < |rs| && i != j && rs[i].hRequest != Null ==>
          rs[i].hRequest != rs[j].hRequest)
  }

  /** ... and every record, except possibly the one being handled, is valid. */
  ghost predicate ValidExcept(rs: seq<HttpRequest>, r: HttpRequest)
    reads rs
  {
    ListValid(rs) && forall i :: 0 <= i < |rs| && rs[i] != r ==> RequestValid(rs[i].State())
  }

  ghost predicate RequestsValid(rs: seq<HttpRequest>)
    reads rs
  {
    ListValid(rs) && forall i :: 0 <= i < |rs| ==> RequestValid(rs[i].State())
  }

  /** Removing one record keeps the list valid. */
  lemma RemoveKeepsValid(rs: seq<HttpRequest>, k: nat)
    requires ListValid(rs) && k < |rs|
    requires forall i :: 0 <= i < |rs| && i != k ==> RequestValid(rs[i].State())
    ensures RequestsValid(rs[..k] + rs[k + 1..])
  {
    var rs' := rs[..k] + rs[k + 1..];
    assert forall i :: 0 <= i < |rs'| ==> rs'[i] == if i < k then rs[i] else rs[i + 1];
  }

  /** With distinct non-null handles, the search for a record's own handle
      stops at that record. */
  lemma FindsOwnHandle(rs: seq<HttpRequest>, r: HttpRequest)
    requires ListValid(rs) && r in rs && r.hRequest != Null
    ensures FirstWithHandle(HandlesOf(rs), r.hRequest) == Some(IndexOf(rs, r))
  {
    var hs := HandlesOf(rs);
    assert r.hRequest in hs by {
      assert hs[IndexOf(rs, r)] == r.hRequest;
    }
  }

  /** `HttpClient`: the vector of in-flight requests. */
  class HttpClient {
    var requests: seq<HttpRequest>

    ghost predicate Valid()
      reads this, requests
    {
      RequestsValid(requests)
    }

    constructor ()
      ensures Valid() && requests == []
    {
      requests := [];
    }

    /** `Get`: appends a new record for the URL. `syncHandle` is what
        `InternetOpenUrl` returned: a handle stored at once, or null when the
        handle comes later with HANDLE_CREATED. */
    method Get(url: string, syncHandle: Handle) returns (r: HttpRequest)
      requires Valid()
      requires syncHandle != Null ==> syncHandle !in HandlesOf(requests)
      modifies this
      ensures Valid() && fresh(r)
      ensures requests == old(requests) + [r]
      ensures r.url == url && r.State() == InitialRequest().(hRequest := syncHandle)
    {
      r := new HttpRequest(url);
      requests := requests + [r];
      if syncHandle != Null {
        r.hRequest := syncHandle;
      }
    }

    /** The `std::find_if` of `Terminate`: the position of the first record
        with handle h, or the length of the list when there is none. */
    method Find(h: Handle) returns (k: nat)
      ensures k <= |requests|
      ensures k < |requests| <==> FirstWithHandle(HandlesOf(requests), h).Some?
      ensures k < |requests| ==> FirstWithHandle(HandlesOf(requests), h) == Some(k)
    {
      ghost var hs := HandlesOf(requests);
      k := 0;
      while k < |requests| && requests[k].hRequest != h
        invariant k <= |requests|
        invariant forall j :: 0 <= j < k ==> hs[j] != h
      {
        k := k + 1;
      }
      assert FirstWithHandle(hs, h) == if k < |requests| then Some(k) else None;
    }

    /** `Terminate`: removes the first record with handle h, if any; returns
        whether its buffer was deleted (when it has one and `keepBuffer` is
        false). The record removed may be in any state. */
    method Terminate(h: Handle, keepBuffer: bool) returns (freed: bool)
      requires ListValid(requests)
      requires forall i :: 0 <= i < |requests| && FirstWithHandle(HandlesOf(requests), h) != Some(i) ==>
        RequestValid(requests[i].State())
      modifies this
      ensures Valid()
      ensures match FirstWithHandle(old(HandlesOf(requests)), h)
        case None => requests == old(requests) && !freed
        case Some(k) =>
          && requests == old(requests)[..k] + old(requests)[k + 1..]
          && freed == (!keepBuffer && old(requests)[k].hasBuffer)
    {
      var k := Find(h);
      freed := false;
      if k < |requests| {
        freed := Remove(k, keepBuffer);
      }
    }

    /** The removal step of `Terminate`: closes the record at position k,
        deletes its buffer unless it is kept, and erases it from the list. */
    method Remove(k: nat, keepBuffer: bool) returns (freed: bool)
      requires ListValid(requests) && k < |requests|
      requires forall i :: 0 <= i < |requests| && i != k ==> RequestValid(requests[i].State())
      modifies this
      ensures Valid()
      ensures requests == old(requests)[..k] + old(requests)[k + 1..]
      ensures freed == (!keepBuffer && old(requests)[k].hasBuffer)
    {
      var request := requests[k];
      freed := false;
      if !keepBuffer && request.hasBuffer {
        freed := true;
      }
      RemoveKeepsValid(requests, k);
      requests := requests[..k] + requests[k + 1..];
    }

    /** `fnOnFinish` followed by `Terminate(request.hRequest, keepBuffer)`:
        the record leaves the list. */
    method FinishRequest(request: HttpRequest, keepBuffer: bool) returns (freed: bool)
      requires ValidExcept(requests, request) && request in requests && request.hRequest != Null
      modifies this
      ensures Valid()
      ensures var i := IndexOf(old(requests), request);
        requests == old(requests)[..i] + old(requests)[i + 1..]
      ensures freed == (!keepBuffer && request.hasBuffer)
    {
      FindsOwnHandle(requests, request);
      freed := Terminate(request.hRequest, keepBuffer);
    }

    /** The read part of REQUEST_COMPLETE, once the buffer exists. */
    method ReadStep(request: HttpRequest, w: WinInetAnswers) returns (finish: Option<Finish>, freed: bool)
      requires ValidExcept(requests, request) && request in requests && request.hRequest != Null
      requires var o := ReadNext(request.State(), w, ReadErrorStatus(w.lastError)); o.finish.None? ==> RequestValid(o.next)
      modifies this, request
      ensures Valid()
      ensures var o := ReadNext(old(request.State()), w, ReadErrorStatus(w.lastError));
        && request.State() == o.next
        && finish == o.finish
        && (finish.None? ==> requests == old(requests) && !freed)
        && (finish.Some? ==>
              var i := IndexOf(old(requests), request);
              && requests == old(requests)[..i] + old(requests)[i + 1..]
              && freed == (!o.keepBuffer && o.next.hasBuffer))
    {
      finish, freed := None, false;
      var keep := false;
      ghost var o := ReadNext(request.State(), w, ReadErrorStatus(w.lastError));
      if request.buffers.dwBufferLength > 0 {
        if request.buffers.dwBufferLength < request.buffers.dwBufferTotal {
          var lpv := request.buffers.lpvBuffer + request.buffers.dwBufferLength;
          var downloadedBytes := lpv;
          request.buffers := request.buffers.(lpvBuffer := lpv,
            dwBufferLength := TruncU32(request.sizeLength - downloadedBytes));
        }
        assert request.State() == o.next;
        if w.readCompleted {
          finish, keep := Some(Finish(0, request.hasBuffer, request.sizeLength)), true;
        } else if w.lastError != ErrorIoPending {
          finish := Some(Finish(ReadErrorStatus(w.lastError), false, 0));
        }
      } else {
        finish, keep := Some(Finish(0, request.hasBuffer, request.sizeLength)), true;
      }
      // every report is followed by `Terminate`, which keeps a delivered buffer
      if finish.Some? {
        freed := FinishRequest(request, keep);
      }
    }

    /** The first successful completion: a status outside 200..299 ends the
        request; a 2xx status allocates the buffer. */
    method FirstResponse(request: HttpRequest, w: WinInetAnswers) returns (finish: Option<Finish>, freed: bool)
      requires ValidExcept(requests, request) && request in requests && request.hRequest != Null
      modifies this, request
      ensures var code := StatusOf(w);
        if code < 200 || code > 299 then
          && Valid()
          && finish == Some(Finish(Int32Of(code), false, 0))
          && request.State() == old(request.State())
          && (var i := IndexOf(old(requests), request);
              requests == old(requests)[..i] + old(requests)[i + 1..])
          && freed == request.hasBuffer
        else
          && ValidExcept(requests, request) && request in requests
          && finish.None? && !freed
          && request.State() == Allocated(old(request.State()), BufferSize(code, w))
          && requests == old(requests)
    {
      finish, freed := None, false;
      var dw: U32 := 0;
      if w.statusCode.Some? {
        dw := w.statusCode.value;
      }
      if dw < 200 || dw > 299 {
        finish := Some(Finish(Int32Of(dw), false, 0));
        freed := FinishRequest(request, false);
        return;
      }
      if w.contentLength.Some? {
        dw := w.contentLength.value;
      }
      request.hasBuffer := true;
      request.buffers := InternetBuffers(0, dw, dw);
      request.sizeLength := dw;
    }

    /** A successful REQUEST_COMPLETE after the byte count is stored: the
        first response check, then the read step. */
    method Answer(request: HttpRequest, w: WinInetAnswers) returns (finish: Option<Finish>, freed: bool)
      requires ValidExcept(requests, request) && request in requests && request.hRequest != Null
      requires var o := Answered(request.State(), w, ReadErrorStatus(w.lastError)); o.finish.None? ==> RequestValid(o.next)
      modifies this, request
      ensures Valid()
      ensures var o := Answered(old(request.State()), w, ReadErrorStatus(w.lastError));
        && request.State() == o.next
        && finish == o.finish
        && (finish.None? ==> requests == old(requests) && !freed)
        && (finish.Some? ==>
              var i := IndexOf(old(requests), request);
              && requests == old(requests)[..i] + old(requests)[i + 1..]
              && freed == (!o.keepBuffer && o.next.hasBuffer))
    {
      ghost var st1 := request.State();
      if request.buffers.dwBufferTotal == 0 {
        finish, freed := FirstResponse(request, w);
        if finish.Some? {
          return;
        }
        assert request.State() == Allocated(st1, BufferSize(StatusOf(w), w));
      }
      finish, freed := ReadStep(request, w);
    }

    /** The REQUEST_COMPLETE branch of `InternetStatusCallback`. */
    method RequestComplete(request: HttpRequest, result: AsyncResult, w: WinInetAnswers)
      returns (finish: Option<Finish>, freed: bool)
      requires Valid() && request in requests
      requires request.hRequest != Null && Plausible(request.State(), w)
      modifies this, request
      ensures Valid()
      ensures var o := OnRequestComplete(old(request.State()), result, w);
        && request.State() == o.next
        && finish == o.finish
        && (finish.None? ==> requests == old(requests) && !freed)
        && (finish.Some? ==>
              var i := IndexOf(old(requests), request);
              && requests == old(requests)[..i] + old(requests)[i + 1..]
              && freed == (!o.keepBuffer && o.next.hasBuffer))
    {
      ghost var st := request.State();
      CompleteKeepsValid(st, result, w);
      assert OnRequestComplete(st, result, w) == Completion(st, result, w, ReadErrorStatus(w.lastError));
      if result.dwResult != 0 {
        if request.buffers.dwBufferTotal != 0 {
          // the queued read has finished and WinInet stored its byte count
          request.buffers := request.buffers.(dwBufferLength := w.bytesRead);
        }
        assert request.State() == Arrived(st, w);
        assert ValidExcept(requests, request);
        finish, freed := Answer(request, w);
      } else {
        finish := Some(Finish(NegI32(Int32Of(result.dwError)), false, 0));
        freed := FinishRequest(request, false);
      }
    }

    /** `InternetStatusCallback` for one record. A HANDLE_CREATED handle is
        fresh or the record's own, and REQUEST_COMPLETE comes only after the
        handle is known. */
    method InternetStatusCallback(request: HttpRequest, ev: StatusEvent, w: WinInetAnswers)
      returns (finish: Option<Finish>, freed: bool)
      requires Valid() && request in requests
      requires ev.HandleCreated? ==>
        ev.result.dwResult != Null && (ev.result.dwResult !in HandlesOf(requests) || ev.result.dwResult == request.hRequest)
      requires ev.RequestComplete? ==> request.hRequest != Null && Plausible(request.State(), w)
      modifies this, request
      ensures Valid()
      ensures var o := OnStatus(old(request.State()), ev, w);
        && request.State() == o.next
        && finish == o.finish
        && (finish.None? ==> requests == old(requests) && !freed)
        && (finish.Some? ==>
              var i := IndexOf(old(requests), request);
              && requests == old(requests)[..i] + old(requests)[i + 1..]
              && freed == (!o.keepBuffer && o.next.hasBuffer))
    {
      finish, freed := None, false;
      match ev
      case HandleCreated(result) =>
        request.hRequest := result.dwResult;
      case RequestComplete(result) =>
        finish, freed := RequestComplete(request, result, w);
      case HandleClosing =>
      case OtherStatus =>
    }
  }
}
