# go-pageant in Dafny

A model of the Windows client for PuTTY's Pageant agent (`davidmz/go-pageant`).
It has two parts.

- **The query pipeline** (`pageant_windows.go`, module `Pageant` in
  `pageant.dfy`). `Query(msg)` rejects a message longer than `MaxMessageLen`
  (8188). It looks up the Pageant window and names a shared region after the
  calling thread (`"PageantRequest"` plus 8 lowercase hex digits). It creates and
  maps that region and copies the request frame into it. The frame is a 4-byte
  big-endian length followed by the payload. It then sends `WM_COPYDATA` (74)
  tagged `0x804e50ba` to the window. Finally it reads the reply frame back out of
  the same region. `IsActive` is the availability probe.
- **The stream adapter** (`io_windows.go`, module `Conn` in `conn.dfy`). The
  class `Conn` holds the byte queue `buf`. `Write(p)` runs a query and appends
  the whole reply. `Read(p)` copies from the front of the queue into the caller's
  array and drops what it copied.

`bytes.dfy` (module `Bytes`) holds the Go runtime pieces both parts use:
- the built-in `copy`, as the function `Copied` and the array method `Copy`;
- `encoding/binary`'s big-endian `uint32`;
- the `%08x` verb.

The Win32 calls are inputs to the model, gathered in the datatype `Pageant.Os`:
- the window handle found (0 when none);
- the thread id;
- the error codes of `CreateFileMapping` and `MapViewOfFile` (0 on success);
- the `SendMessageW` result;
- the bytes Pageant writes from the start of the region while it handles the message.

The memory that `MapViewOfFile` exposes is an `array<byte>` handed to the
method `Query`. Its length is 8188, the length of the slice the source lays over
the view. `Query` returns its result and the trace of foreign calls it made. The
function `Exchange` specifies it; the lemmas are stated about `Exchange`.

The slice expression at pageant_windows.go:88 panics when it is out of range.
The model turns that panic into the error `SliceOutOfRange`. The bound
`respLen+4` is computed modulo 2^32, as Go's `uint32` arithmetic does. A
wrapped bound is always below 4, so that slice panics too.

`Query` asks `CreateFileMapping` for `MaxMessageLen+4` = 8192 bytes
(pageant_windows.go:52). It uses that region for both directions. The code lays
an 8188-byte slice over it (pageant_windows.go:63). The model follows the code;
see "## Findings".

## Model

| member | source | states |
|---|---|---|
| `Bytes.Copied` | pageant_windows.go:69 | Go's `copy`: the destination keeps its length; its first min(len(dst), len(src)) bytes come from the source; the rest are unchanged |
| `Bytes.Copy` | io_windows.go:39 | `copy` into an array returns min(len(dst), len(src)) and leaves the array equal to `Copied` of its old contents |
| `Bytes.CopiedPrefix` | pageant_windows.go:69 | exactly the first min(len(dst), len(src)) source bytes survive; a source that fits lands whole; a longer one is cut to the destination's length |
| `Bytes.BigEndian` | pageant_windows.go:66 | `binary.Write` of a uint32 yields exactly 4 bytes |
| `Bytes.Uint32OfBigEndian` | pageant_windows.go:66 | reading back the 4 big-endian bytes of a uint32 gives the same value |
| `Bytes.Uint32` | pageant_windows.go:87 | `binary.BigEndian.Uint32` reads a value whose big-endian encoding is the same 4 bytes, so with `Uint32OfBigEndian` the encoding is a bijection |
| `Bytes.Hex` | pageant_windows.go:49 | exactly N characters, all lowercase hex digits; for n < 16^N that is what `%0Nx` prints, and the thread id at this line is below 16^8 |
| `Bytes.ParseHexOfHex` | pageant_windows.go:49 | the N hex digits of any n < 16^N read back as n |
| `Pageant.MapName` | pageant_windows.go:48-49 | the region name is 22 characters: "PageantRequest" then 8 lowercase hex digits that read back as the thread id |
| `Pageant.MapNamesDistinct` | pageant_windows.go:48-49 | two different thread ids give two different region names |
| `Pageant.Frame` | pageant_windows.go:65-67 | the frame is len(msg)+4 bytes; its first 4 bytes read back as len(msg); the rest is msg |
| `Pageant.DecodeFrame` | pageant_windows.go:87-90 | reading the reply succeeds iff the announced length plus 4 fits in the region; the region then starts with the frame of the result; otherwise the slice panics |
| `Pageant.FrameAtFront` | pageant_windows.go:87-88 | a region whose announced length fits starts with the frame of the payload it announces |
| `Pageant.Exchange` | pageant_windows.go:38-91 | the step-by-step outcome of `Query`: result, calls made, view afterwards; the view keeps its length |
| `Pageant.Query` | pageant_windows.go:38-91 | the imperative query over an 8188-byte view returns the result and call trace of `Exchange` and leaves the view as `Exchange` says |
| `Pageant.TooLongFailsFirst` | pageant_windows.go:39-41 | ErrMessageTooLong iff len(msg) > 8188, so 8188 itself passes; it comes before any call and leaves the view untouched |
| `Pageant.NotFoundIffNoWindow` | pageant_windows.go:43-46 | for an accepted message, ErrPageantNotFound iff the lookup returns 0; then only the lookup was made and no region was created |
| `Pageant.SendFailureIffZero` | pageant_windows.go:83-85 | once mapped, ErrSendMessage iff SendMessageW returns 0; no reply is read and the view holds the request |
| `Pageant.NotificationShape` | pageant_windows.go:71-82 | exactly five calls in order; the last is WM_COPYDATA (74) to the window found, with dwData 0x804e50ba, cbData 23 and the region's name |
| `Pageant.RequestInRegion` | pageant_windows.go:63-69 | Pageant can read the first min(len(view), len(msg)+4) bytes of the frame: a frame that fits lands whole, a longer one is cut to the view |
| `Pageant.SuccessIff` | pageant_windows.go:87-90 | success iff every step passes and the region after the reply holds a whole frame; the result is that frame's payload |
| `Pageant.FrameRoundTrip` | pageant_windows.go:65-88 | decoding a region into which the frame of msg was copied gives msg whenever the frame fits |
| `Pageant.ReplyDecoded` | pageant_windows.go:87-90 | a Pageant that writes the frame of resp makes the query return resp when the frame fits the view |
| `Pageant.ShortViewLosesFrame` | pageant_windows.go:63 | on the 8188-byte view, a message of 8185..8188 bytes reaches Pageant cut to 8188 frame bytes; such a frame cannot be read back, and echoing it makes the query panic |
| `Pageant.FullViewExchange` | pageant_windows.go:52 | on a view of the whole 8192-byte mapping, every accepted message reaches Pageant whole and every reply of up to 8188 bytes is returned |
| `Pageant.IsActive` | pageant_windows.go:33-35 | as written, true exactly when the documented probe is false, i.e. when the window lookup returns 0 |
| `Pageant.IsAvailable` | pageant_windows.go:32 | the probe the doc comment describes (true when the Pageant process is active and can be queried): for every accepted message and every OS behaviour with this window handle, true exactly when the query gets past the window lookup |
| `Pageant.IsActiveWhenNotFound` | pageant_windows.go:32-35 | `IsActive`, as written, is true exactly when an accepted query fails with ErrPageantNotFound |
| `Pageant.AvailableIffFound` | pageant_windows.go:32-35 | the documented probe is true exactly when an accepted query gets past the window lookup, and is the negation of `IsActive` |
| `Conn.Consume` | io_windows.go:32-42 | EOF iff the queue is empty, and then nothing changes; otherwise n = min(len(p), len(buf)); p[..n] + new queue == old queue; p beyond n is unchanged |
| `Conn.ReadProgress` | io_windows.go:36-41 | on a non-empty queue, a non-empty p strictly shrinks the queue; an empty p gets (0, nil), not EOF |
| `Conn.DrainAll` | io_windows.go:32-42 | reading with the same non-empty buffer until EOF returns every queued byte, in order |
| `Conn.EchoRoundTrip` | io_windows.go:20-41 | against an echoing Pageant, a Write of up to 8184 bytes succeeds, and draining by Reads returns exactly the bytes written |
| `Conn.Conn.constructor` | io_windows.go:12 | a new conn has an empty queue |
| `Conn.Conn.Write` | io_windows.go:20-30 | a failed query returns (0, err) and leaves buf unchanged; a successful one appends the whole reply and returns len(p) |
| `Conn.Conn.Read` | io_windows.go:32-42 | the count, EOF flag, caller's array and new queue are those of `Consume` on the old queue and array |

## Left out

- The Win32 calls themselves are not modelled: `FindWindowW`, `GetCurrentThreadId`, `CreateFileMapping`, `MapViewOfFile` and `SendMessageW`. They are foreign calls. What they return is a field of `Pageant.Os`, and the view is an array the caller supplies.
- `CloseHandle`, the view that is never unmapped, and the returned slice that aliases mapped memory are not modelled. They are OS handle lifetime. The model returns a copy of the reply bytes.
- A mapping of the same name that already exists is not modelled. `CreateFileMapping` would reuse it. Its possible earlier contents are covered by the view's initial contents being an input.
- The memory layout of `copyData` and the missing terminating zero behind `lpData` are not modelled. `lpData` is represented by the name it points at. `cbData` is kept as a number.
- The UTF-16 conversion of the names is not modelled. The names are ASCII, so `len(mapName)` equals the character count.
- The panics of `MustLoadDLL`/`MustFindProc` are not modelled. They concern loading system libraries.
- Bytes.Hex: for n >= 16^N, Go's `%0Nx` prints more than N digits, while `Hex` keeps only the low N. The only use is the uint32 thread id with N = 8 at pageant_windows.go:49, which always fits.
- Only the first 8188 bytes of the 8192-byte region are modelled, in both directions. In the request direction, `SendMessageW`'s region is what the source's 8188-byte view holds. For a request of 8185 to 8188 bytes, Pageant reads bytes 8188..8191 of the mapping as well, which the source never writes; their contents are not modelled. In the reply direction, the reply is bytes Pageant writes from offset 0 of the region. Bytes written past the first 8188 are invisible through the source's view, and the model ignores them.
- The mutex in `conn` and concurrent `Write`/`Read` calls are not modelled. The model is sequential.
- `Conn.Conn.Write` takes the query as a function parameter. io_windows.go:21 calls `query`, but only `Query` is defined, so the function that call reaches is not part of this model. `Exchange(·, os, view).result` is one such function.
- `New()` and `agent.NewClient` are not modelled. They wrap an SSH-agent library that is not part of this model.
- pageant_test.go is not modelled. Its tests need a running Pageant and an SSH server. They also call `pageant.Available`, which the package does not define.

## Findings

| source | as written | input that shows it | evidently intended | confidence | as-written member | corrected member |
|---|---|---|---|---|---|---|
| pageant_windows.go:63 | `mmSlice` is `[MaxMessageLen]byte` (8188 bytes) over an 8192-byte mapping, so `copy` stores only the first 8188 bytes of the frame | a request of 8188 bytes: the length prefix says 8188, but the last 4 payload bytes never reach Pageant | the slice covers all `MaxMessageLen+4` bytes of the mapping | high (not executed) | `Pageant.ShortViewLosesFrame` | `Pageant.FullViewExchange` |
| pageant_windows.go:88 | the reply is sliced out of the same 8188-byte slice | a reply frame announcing 8185 bytes: `mmSlice[4:8189]` panics | every reply of up to 8188 bytes that fits the 8192-byte region is returned | high (not executed) | `Pageant.ShortViewLosesFrame` | `Pageant.FullViewExchange` |
| pageant_windows.go:34 | `IsActive` returns `0 == getPageantWindow()` | Pageant not running: the lookup returns 0 and `IsActive` returns true | `getPageantWindow() != 0`, as the doc comment at line 32 says | high (not executed) | `Pageant.IsActiveWhenNotFound` | `Pageant.AvailableIffFound` |

The function `Exchange` is defined for a view of any length. The corrected
behaviour is `Exchange` on a view of `MappingSize` (8192) bytes. The method
`Query` keeps the source's 8188-byte view. `IsAvailable` is the probe as
documented.
