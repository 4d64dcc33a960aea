/**
 The stream adapter of io_windows.go: `conn` turns the one-shot query into the
 Write/Read pair an SSH-agent client expects. Write runs a query and queues the
 whole reply; Read hands out the queued bytes from the front.
 */
module Conn {
  import opened Bytes
  import opened Pageant

  /** What one Read returns and leaves behind: the count, whether it reported
      io.EOF, the caller's buffer afterwards and the queue afterwards. */
  datatype ReadOutcome = ReadOutcome(n: nat, eof: bool, p: seq<byte>, buf: seq<byte>)

  /** conn.Read(p) on a queue `buf`, as a function of the queue and of the
      contents of `p`. On an empty queue it reports EOF and touches nothing;
      otherwise it moves min(len(p), len(buf)) bytes from the front of the
      queue to the front of `p`, in order, losing and duplicating nothing. */
  function Consume(buf: seq<byte>, p: seq<byte>): (r: ReadOutcome)
    ensures r.eof <==> buf == []
    ensures r.eof ==> r.n == 0 && r.p == p && r.buf == buf
    ensures !r.eof ==> r.n == Min(|p|, |buf|)
    ensures |r.p| == |p| && r.p[r.n..] == p[r.n..]
    ensures r.p[..r.n] + r.buf == buf
  {
    if |buf| == 0 then
      ReadOutcome(0, true, p, buf)
    else
      var n := Min(|p|, |buf|);
      var p' := Copied(p, buf);
      CopiedPrefix(p, buf);
      assert p'[..n] + buf[n..] == buf[..n] + buf[n..];
      ReadOutcome(n, false, p', buf[n..])
  }

  /** A Read into a non-empty buffer makes progress on a non-empty queue; an
      empty buffer gets (0, nil), not EOF. */
  lemma ReadProgress(buf: seq<byte>, p: seq<byte>)
    requires buf != []
    ensures |p| > 0 ==> |Consume(buf, p).buf| < |buf|
    ensures |p| == 0 ==> Consume(buf, p) == ReadOutcome(0, false, p, buf)
  {
  }

  /** The bytes a caller collects by calling Read with the same buffer until EOF. */
  function Drain(buf: seq<byte>, p: seq<byte>): seq<byte>
    requires |p| > 0
    decreases |buf|
  {
    var r := Consume(buf, p);
    if r.eof then [] else r.p[..r.n] + Drain(r.buf, r.p)
  }

  /** Reading until EOF returns every queued byte, in order. */
  lemma {:induction false} DrainAll(buf: seq<byte>, p: seq<byte>)
    requires |p| > 0
    ensures Drain(buf, p) == buf
  {
    var r := Consume(buf, p);
    if !r.eof {
      DrainAll(r.buf, r.p);
    }
  }

  /** The `conn` value handed to the agent client; its mutex is not modelled. */
  class Conn {
    var buf: seq<byte>

    /** &conn{}: an empty queue. */
    constructor ()
      ensures buf == []
    {
      buf := [];
    }

    /** conn.Write(p): runs `query(p)`; on failure returns (0, err) and leaves
        the queue alone, on success appends the whole reply and returns len(p). */
    method Write(p: seq<byte>, query: seq<byte> -> Result<seq<byte>>) returns (n: nat, err: Option<Error>)
      modifies this
      ensures query(p).Err? ==> n == 0 && err == Some(query(p).error) && buf == old(buf)
      ensures query(p).Ok? ==> n == |p| && err == None && buf == old(buf) + query(p).value
    {
      var resp := query(p);
      if resp.Err? {
        return 0, Some(resp.error);
      }
      buf := buf + resp.value;
      return |p|, None;
    }

    /** conn.Read(p): copies from the front of the queue into `p` and drops what it copied. */
    method Read(p: array<byte>) returns (n: nat, eof: bool)
      modifies this, p
      ensures var r := Consume(old(buf), old(p[..]));
        n == r.n && eof == r.eof && p[..] == r.p && buf == r.buf
    {
      if |buf| == 0 {
        return 0, true;
      }
      n := Copy(p, buf);
      buf := buf[n..];
      eof := false;
    }
  }

  /** Against a Pageant that echoes the request, a Write of up to 8184 bytes
      into an empty conn succeeds, and reading with any non-empty buffer until
      EOF gives back exactly the bytes written. */
  lemma EchoRoundTrip(msg: seq<byte>, os: Os, view0: seq<byte>, p: seq<byte>)
    requires |view0| == ViewLen && |msg| <= ViewLen - 4 && |p| > 0
    requires os.window != 0 && os.createErrno == 0 && os.mapErrno == 0 && os.sendResult != 0
    requires os.reply == Frame(msg)
    ensures Exchange(msg, os, view0).result == Ok(msg)
    ensures Drain([] + Exchange(msg, os, view0).result.value, p) == msg
  {
    ReplyDecoded(msg, os, view0, msg);
    assert [] + msg == msg;
    DrainAll(msg, p);
  }
}
