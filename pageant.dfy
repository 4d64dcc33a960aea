/**
 The query pipeline of the Pageant client (pageant_windows.go).

 One query sends a request frame to the Pageant window through a named shared
 memory region and reads the reply frame back from the same region. The Win32
 calls are not modelled; what they return is an input (`Os`), and the memory
 that MapViewOfFile exposes is an array the caller supplies.
 */
module Pageant {
  import opened Bytes

  /** Largest request payload accepted: the 8192-byte region less the 4-byte length prefix. */
  const MaxMessageLen: nat := 8192 - 4
  /** Size asked of CreateFileMapping. */
  const MappingSize: nat := MaxMessageLen + 4
  /** Length of the slice the source lays over the mapped view (`[MaxMessageLen]byte`). */
  const ViewLen: nat := MaxMessageLen
  /** dwData of the WM_COPYDATA payload: marks the message as an agent query. */
  const AgentCopydataId: uintptr := 0x804e50ba
  /** The WM_COPYDATA window message. */
  const WmCopydata: nat := 74
  const MapNamePrefix: string := "PageantRequest"

  datatype Error =
    | MessageTooLong          // ErrMessageTooLong
    | PageantNotFound         // ErrPageantNotFound
    | SendMessage             // ErrSendMessage
    | OsError(errno: nat)     // error returned by CreateFileMapping or MapViewOfFile
    | SliceOutOfRange         // the runtime panic of an out-of-range slice expression

  datatype Result<T> = Ok(value: T) | Err(error: Error)

  /** What the operating system and the Pageant process answer during one query. */
  datatype Os = Os(
    window: uintptr,       // FindWindowW("Pageant", "Pageant"); 0 when there is no such window
    threadId: uint32,      // GetCurrentThreadId
    createErrno: nat,      // CreateFileMapping's error; 0 on success
    mapErrno: nat,         // MapViewOfFile's error; 0 on success
    sendResult: uintptr,   // SendMessageW's return value; 0 means failure
    reply: seq<byte>)      // the bytes Pageant writes from the start of the region while handling the message

  /** The COPYDATASTRUCT handed to SendMessageW; lpData is modelled by the name it points at. */
  datatype CopyData = CopyData(dwData: uintptr, cbData: nat, lpData: string)

  /** The foreign calls one query makes, in order. */
  datatype OsCall =
    | FindWindow
    | GetCurrentThreadId
    | CreateFileMapping(name: string, size: nat)
    | MapViewOfFile
    | SendMessageW(window: uintptr, msg: nat, cds: CopyData, region: seq<byte>)  // region: the source's view as Pageant finds it

  /** Everything one query does: its result, the calls it made, and the view afterwards. */
  datatype Outcome = Outcome(result: Result<seq<byte>>, calls: seq<OsCall>, view: seq<byte>)

  // ---------------------------------------------------------------------------
  // Pure pieces

  /** IsActive as written: true when the window lookup returns 0, which is
      the negation of the probe its doc comment describes. */
  function IsActive(window: uintptr): (r: bool)
    ensures r == !IsAvailable(window)
  {
    0 == window
  }

  /** What IsActive's doc comment promises: true when Pageant "is active and
      can be queried", that is, when a query of any accepted message, made
      while the lookup returns this handle, gets past the lookup. */
  function IsAvailable(window: uintptr): (r: bool)
    ensures forall msg: seq<byte>, os: Os, view0: seq<byte> |
      os.window == window && |msg| <= MaxMessageLen && 4 <= |view0| < 0x1_0000_0000 ::
        r <==> Exchange(msg, os, view0).result != Err(PageantNotFound)
  {
    window != 0
  }

  /** fmt.Sprintf("PageantRequest%08x", thId): the prefix, then eight lowercase hex
      digits from which the thread id can be read back. */
  function MapName(threadId: uint32): (r: string)
    ensures |r| == 22 && r[..14] == MapNamePrefix
    ensures forall i :: 14 <= i < |r| ==> IsLowerHex(r[i])
    ensures ParseHex(r[14..]) == threadId
  {
    assert Pow16(8) == 0x1_0000_0000;
    ParseHexOfHex(threadId, 8);
    var r := MapNamePrefix + Hex(threadId, 8);
    assert r[14..] == Hex(threadId, 8);
    r
  }

  /** The request frame: `uint32(len(msg))` big-endian, then `msg`. */
  function Frame(msg: seq<byte>): (r: seq<byte>)
    ensures |r| == |msg| + 4 && r[4..] == msg
    ensures |msg| < 0x1_0000_0000 ==> Uint32(r) == |msg|
  {
    Uint32OfBigEndian(|msg| % 0x1_0000_0000);
    BigEndian(|msg| % 0x1_0000_0000) + msg
  }

  /** Reading a reply out of the region: the big-endian length at bytes 0..3,
      then `region[4 : respLen+4]` with the bound computed in uint32. It
      succeeds exactly when the region holds a whole frame, whose payload is
      the result; otherwise the slice expression panics. */
  function DecodeFrame(region: seq<byte>): (r: Result<seq<byte>>)
    requires 4 <= |region| < 0x1_0000_0000
    ensures r.Ok? <==> Uint32(region) + 4 <= |region|
    ensures r.Ok? ==> |r.value| + 4 <= |region| && Frame(r.value) == region[..|r.value| + 4]
    ensures r.Err? ==> r.error == SliceOutOfRange
  {
    var respLen := Uint32(region);
    var hi := (respLen + 4) % 0x1_0000_0000;
    if 4 <= hi <= |region| then
      assert hi == respLen + 4;
      FrameAtFront(region);
      Ok(region[4..hi])
    else
      Err(SliceOutOfRange)
  }

  /** A region whose length prefix fits starts with the frame of the payload it announces. */
  lemma FrameAtFront(region: seq<byte>)
    requires 4 <= |region| && Uint32(region) + 4 <= |region|
    ensures Frame(region[4..Uint32(region) + 4]) == region[..Uint32(region) + 4]
  {
    var n := Uint32(region);
    var v := region[4..n + 4];
    assert |v| % 0x1_0000_0000 == n;
    assert Frame(v) == BigEndian(n) + v;
    assert region[..n + 4] == region[..4] + v;
  }

  // ---------------------------------------------------------------------------
  // Query

  /** Query(msg) step by step, over a view whose contents before the call are `view0`. */
  function Exchange(msg: seq<byte>, os: Os, view0: seq<byte>): (o: Outcome)
    requires 4 <= |view0| < 0x1_0000_0000
    ensures |o.view| == |view0|
  {
    if |msg| > MaxMessageLen then Outcome(Err(MessageTooLong), [], view0)
    else if os.window == 0 then Outcome(Err(PageantNotFound), [FindWindow], view0)
    else
      var name := MapName(os.threadId);
      var mapped := [FindWindow, GetCurrentThreadId, CreateFileMapping(name, MappingSize)];
      if os.createErrno != 0 then Outcome(Err(OsError(os.createErrno)), mapped, view0)
      else if os.mapErrno != 0 then Outcome(Err(OsError(os.mapErrno)), mapped + [MapViewOfFile], view0)
      else
        var request := Copied(view0, Frame(msg));
        var cds := CopyData(AgentCopydataId, |name| + 1, name);
        var calls := mapped + [MapViewOfFile, SendMessageW(os.window, WmCopydata, cds, request)];
        if os.sendResult == 0 then Outcome(Err(SendMessage), calls, request)
        else
          var response := Copied(request, os.reply);
          Outcome(DecodeFrame(response), calls, response)
  }

  /** Query(msg): `view` is the memory MapViewOfFile maps, seen through the
      source's 8188-byte slice. Returns the result and the calls made. */
  method Query(msg: seq<byte>, os: Os, view: array<byte>) returns (r: Result<seq<byte>>, calls: seq<OsCall>)
    requires view.Length == ViewLen
    modifies view
    ensures var o := Exchange(msg, os, old(view[..]));
      r == o.result && calls == o.calls && view[..] == o.view
  {
    calls := [];
    if |msg| > MaxMessageLen {
      return Err(MessageTooLong), calls;
    }

    calls := calls + [FindWindow];
    var paWin := os.window;
    if paWin == 0 {
      return Err(PageantNotFound), calls;
    }

    calls := calls + [GetCurrentThreadId];
    var mapName := MapName(os.threadId);
    calls := calls + [CreateFileMapping(mapName, MappingSize)];
    if os.createErrno != 0 {
      return Err(OsError(os.createErrno)), calls;
    }
    calls := calls + [MapViewOfFile];
    if os.mapErrno != 0 {
      return Err(OsError(os.mapErrno)), calls;
    }

    var buf := Frame(msg);
    var _ := Copy(view, buf);

    var cds := CopyData(AgentCopydataId, |mapName| + 1, mapName);
    calls := calls + [SendMessageW(paWin, WmCopydata, cds, view[..])];
    if os.sendResult == 0 {
      return Err(SendMessage), calls;
    }
    // Pageant writes its reply into the region before SendMessageW returns.
    var _ := Copy(view, os.reply);

    r := DecodeFrame(view[..]);
  }

  // ---------------------------------------------------------------------------
  // Properties of a query

  /** A message longer than MaxMessageLen, and only such a message, fails with
      ErrMessageTooLong, before any call is made and with the view untouched. */
  lemma TooLongFailsFirst(msg: seq<byte>, os: Os, view0: seq<byte>)
    requires 4 <= |view0| < 0x1_0000_0000
    ensures var o := Exchange(msg, os, view0);
      (o.result == Err(MessageTooLong) <==> |msg| > MaxMessageLen) &&
      (|msg| > MaxMessageLen ==> o.calls == [] && o.view == view0)
  {
  }

  /** An accepted message fails with ErrPageantNotFound exactly when the window
      lookup returns 0; then only the lookup was made and no region was created. */
  lemma NotFoundIffNoWindow(msg: seq<byte>, os: Os, view0: seq<byte>)
    requires 4 <= |view0| < 0x1_0000_0000
    requires |msg| <= MaxMessageLen
    ensures var o := Exchange(msg, os, view0);
      (o.result == Err(PageantNotFound) <==> os.window == 0) &&
      (os.window == 0 ==> o.calls == [FindWindow] && o.view == view0)
  {
  }

  /** Once the region is mapped, a zero SendMessageW result, and only that,
      gives ErrSendMessage; no reply is read, the view holds the request. */
  lemma SendFailureIffZero(msg: seq<byte>, os: Os, view0: seq<byte>)
    requires 4 <= |view0| < 0x1_0000_0000
    requires |msg| <= MaxMessageLen && os.window != 0 && os.createErrno == 0 && os.mapErrno == 0
    ensures var o := Exchange(msg, os, view0);
      (o.result == Err(SendMessage) <==> os.sendResult == 0) &&
      (os.sendResult == 0 ==> o.view == Copied(view0, Frame(msg)))
  {
  }

  /** The message sent to Pageant: WM_COPYDATA to the window found, tagged with
      the agent id, naming the region "PageantRequest" + 8 hex digits of the
      thread id with cbData 23 (the name plus its terminating zero), after
      exactly the lookup, thread-id, create and map calls. */
  lemma NotificationShape(msg: seq<byte>, os: Os, view0: seq<byte>)
    requires 4 <= |view0| < 0x1_0000_0000
    requires |msg| <= MaxMessageLen && os.window != 0 && os.createErrno == 0 && os.mapErrno == 0
    ensures var o := Exchange(msg, os, view0);
      |o.calls| == 5 &&
      o.calls[..4] == [FindWindow, GetCurrentThreadId, CreateFileMapping(MapName(os.threadId), 8192), MapViewOfFile] &&
      o.calls[4].SendMessageW? &&
      o.calls[4].window == os.window && o.calls[4].msg == 74 &&
      o.calls[4].cds == CopyData(0x804e50ba, 23, MapName(os.threadId))
  {
  }

  /** What Pageant can read from the view when it is notified: the first
      min(|view|, len(msg)+4) bytes of the frame. A frame that fits lands
      whole; on a shorter view the frame is cut to the view's length. */
  lemma RequestInRegion(msg: seq<byte>, os: Os, view0: seq<byte>)
    requires 4 <= |view0| < 0x1_0000_0000
    requires |msg| <= MaxMessageLen && os.window != 0 && os.createErrno == 0 && os.mapErrno == 0
    ensures var o := Exchange(msg, os, view0);
      o.calls[4].SendMessageW? &&
      (|msg| + 4 <= |view0| ==> o.calls[4].region[..|msg| + 4] == Frame(msg)) &&
      (|view0| < |msg| + 4 ==> o.calls[4].region == Frame(msg)[..|view0|])
  {
    CopiedPrefix(view0, Frame(msg));
  }

  /** A query succeeds exactly when every step passes and the region, after
      Pageant's reply, starts with a whole frame; the result is that frame's payload. */
  lemma SuccessIff(msg: seq<byte>, os: Os, view0: seq<byte>)
    requires 4 <= |view0| < 0x1_0000_0000
    ensures var o := Exchange(msg, os, view0);
      o.result.Ok? <==>
        |msg| <= MaxMessageLen && os.window != 0 && os.createErrno == 0 && os.mapErrno == 0 &&
        os.sendResult != 0 && Uint32(o.view) + 4 <= |view0|
    ensures var o := Exchange(msg, os, view0);
      o.result.Ok? ==> |o.result.value| + 4 <= |view0| && Frame(o.result.value) == o.view[..|o.result.value| + 4]
  {
    if |msg| <= MaxMessageLen && os.window != 0 && os.createErrno == 0 && os.mapErrno == 0 && os.sendResult != 0 {
      var response := Copied(Copied(view0, Frame(msg)), os.reply);
      assert Exchange(msg, os, view0).result == DecodeFrame(response);
      assert Exchange(msg, os, view0).view == response;
    }
  }

  /** A request and reply frame read back: decoding a region into which a frame
      has been copied gives the payload whenever the frame fits in the region. */
  lemma {:induction false} FrameRoundTrip(msg: seq<byte>, region0: seq<byte>)
    requires 4 <= |region0| < 0x1_0000_0000
    requires |msg| + 4 <= |region0|
    ensures DecodeFrame(Copied(region0, Frame(msg))) == Ok(msg)
  {
    var region := Copied(region0, Frame(msg));
    CopiedPrefix(region0, Frame(msg));
    assert region[..4] == Frame(msg)[..4];
    assert Uint32(region) == Uint32(Frame(msg)) == |msg|;
  }

  /** Pageant answering with the frame of `resp` yields `resp`, as long as the
      frame fits the view: on the source's 8188-byte view that is up to 8184 bytes. */
  lemma ReplyDecoded(msg: seq<byte>, os: Os, view0: seq<byte>, resp: seq<byte>)
    requires 4 <= |view0| < 0x1_0000_0000
    requires |msg| <= MaxMessageLen && os.window != 0 && os.createErrno == 0 && os.mapErrno == 0
    requires os.sendResult != 0 && os.reply == Frame(resp) && |resp| + 4 <= |view0|
    ensures Exchange(msg, os, view0).result == Ok(resp)
  {
    FrameRoundTrip(resp, Copied(view0, Frame(msg)));
  }

  /** On the source's 8188-byte view a message of 8185 to 8188 bytes is accepted,
      but only the first 8188 bytes of its frame reach the region, so its last
      len(msg) - 8184 bytes never reach Pageant, and the region does not hold a
      frame that can be read back. A reply of that length is likewise lost: the
      slice expression panics. */
  lemma ShortViewLosesFrame(msg: seq<byte>, os: Os, view0: seq<byte>)
    requires |view0| == ViewLen
    requires MaxMessageLen - 4 < |msg| <= MaxMessageLen
    requires os.window != 0 && os.createErrno == 0 && os.mapErrno == 0 && os.sendResult != 0
    ensures Exchange(msg, os, view0).calls[4].region == Frame(msg)[..ViewLen]
    ensures DecodeFrame(Copied(view0, Frame(msg))) == Err(SliceOutOfRange)
    ensures os.reply == Frame(msg) ==> Exchange(msg, os, view0).result == Err(SliceOutOfRange)
  {
    var request := Copied(view0, Frame(msg));
    CopiedPrefix(view0, Frame(msg));
    assert request[..4] == Frame(msg)[..4];
    assert Uint32(request) == Uint32(Frame(msg)) == |msg|;
    if os.reply == Frame(msg) {
      var response := Copied(request, os.reply);
      CopiedPrefix(request, os.reply);
      assert response[..4] == Frame(msg)[..4];
      assert Uint32(response) == |msg|;
    }
  }

  /** With the slice laid over the whole 8192-byte mapping, every accepted
      message reaches Pageant whole, and every reply of up to 8188 bytes is read back. */
  lemma FullViewExchange(msg: seq<byte>, os: Os, view0: seq<byte>, resp: seq<byte>)
    requires |view0| == MappingSize
    requires |msg| <= MaxMessageLen && os.window != 0 && os.createErrno == 0 && os.mapErrno == 0
    ensures var o := Exchange(msg, os, view0);
      o.calls[4].SendMessageW? && DecodeFrame(o.calls[4].region) == Ok(msg)
    ensures os.sendResult != 0 && os.reply == Frame(resp) && |resp| <= MaxMessageLen ==>
      Exchange(msg, os, view0).result == Ok(resp)
  {
    FrameRoundTrip(msg, view0);
    if os.sendResult != 0 && os.reply == Frame(resp) && |resp| <= MaxMessageLen {
      ReplyDecoded(msg, os, view0, resp);
    }
  }

  /** Two threads use regions of different names. */
  lemma {:induction false} MapNamesDistinct(t1: uint32, t2: uint32)
    requires t1 != t2
    ensures MapName(t1) != MapName(t2)
  {
    assert ParseHex(MapName(t1)[14..]) != ParseHex(MapName(t2)[14..]);
  }

  /** IsActive as written reports true exactly when Query fails with
      ErrPageantNotFound: the opposite of its documentation. */
  lemma IsActiveWhenNotFound(msg: seq<byte>, os: Os, view0: seq<byte>)
    requires 4 <= |view0| < 0x1_0000_0000
    requires |msg| <= MaxMessageLen
    ensures IsActive(os.window) <==> Exchange(msg, os, view0).result == Err(PageantNotFound)
  {
  }

  /** The documented probe: available exactly when an accepted message gets past the lookup. */
  lemma AvailableIffFound(msg: seq<byte>, os: Os, view0: seq<byte>)
    requires 4 <= |view0| < 0x1_0000_0000
    requires |msg| <= MaxMessageLen
    ensures IsAvailable(os.window) <==> Exchange(msg, os, view0).result != Err(PageantNotFound)
    ensures IsAvailable(os.window) == !IsActive(os.window)
  {
  }
}
