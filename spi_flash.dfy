/** The SPI NOR flash driver of the SPI demo: command and 24-bit address framing, slow
    and fast reads, the chunked bulk read, write enable, status polling, page program,
    the page-safe buffer write and sector erase. The SPI bus is a log of the transactions
    the driver emits, and the flash chip's answers are a script the bus hands out in order. */
module SpiFlash {
  import opened Common
  import opened Bytes

  const CmdReadData: bv8 := 0x03
  const CmdFastRead: bv8 := 0x0B
  const CmdRdsr1: bv8 := 0x05
  const CmdWren: bv8 := 0x06
  const CmdPageProgram: bv8 := 0x02
  const CmdSectorErase: bv8 := 0x20

  const PageSize: nat := 256
  /** How long a page program and a sector erase wait for the chip, in milliseconds. */
  const ProgramTimeoutMs: nat := 300
  const EraseTimeoutMs: nat := 4000
  const FastReadDummyBits: nat := 8
  const DefaultChunkMax: nat := 16 * 1024
  const Addr24Mod: nat := 0x100_0000

  // ---------------------------------------------------------------------------
  // Framing

  /** Address bits 23..16, 15..8 and 7..0, most significant first. */
  function Addr24(a: nat): (b: seq<bv8>)
    ensures |b| == 3
  {
    [((a / 0x1_0000) % 256) as bv8, ((a / 256) % 256) as bv8, (a % 256) as bv8]
  }

  function Addr24Value(b: seq<bv8>): nat
    requires |b| == 3
  {
    (b[0] as nat) * 0x1_0000 + (b[1] as nat) * 256 + (b[2] as nat)
  }

  /** The three address bytes carry exactly the low 24 bits of the address, which is also
      the address the fast read passes after masking with 0x00FFFFFF. */
  lemma Addr24RoundTrip(a: nat)
    ensures Addr24Value(Addr24(a)) == a % Addr24Mod
  {
    var b := Addr24(a);
    ByteValue((a / 0x1_0000) % 256);
    ByteValue((a / 256) % 256);
    ByteValue(a % 256);
    assert Addr24Value(b) == ((a / 0x1_0000) % 256) * 0x1_0000 + ((a / 256) % 256) * 256 + a % 256;
    Addr24Digits(a);
  }


  /** The base-256 digits 2, 1 and 0 of a number make up its value modulo 2^24. */
  lemma Addr24Digits(a: nat)
    ensures ((a / 0x1_0000) % 256) * 0x1_0000 + ((a / 256) % 256) * 256 + a % 256 == a % Addr24Mod
  {
    var b2 := a % 256;
    var t := a / 256;
    var b1 := t % 256;
    var u := t / 256;
    assert a == 256 * t + b2;
    assert t == 256 * u + b1;
    assert a == 0x1_0000 * u + (256 * b1 + b2);
    assert a / 0x1_0000 == u;
    assert u == 256 * (u / 256) + u % 256;
    assert a == Addr24Mod * (u / 256) + (0x1_0000 * (u % 256) + 256 * b1 + b2);
  }

  /** An opcode followed by the 24-bit address. */
  function Command(op: bv8, a: nat): (f: seq<bv8>)
    ensures |f| == 4 && f[0] == op && Addr24Value(f[1..]) == a % Addr24Mod
  {
    Addr24RoundTrip(a);
    assert ([op] + Addr24(a))[1..] == Addr24(a);
    [op] + Addr24(a)
  }

  // ---------------------------------------------------------------------------
  // The bus

  /** A full-duplex transaction clocks out `tx` and clocks in as many bytes; the fast read is
      a half-duplex transaction with separate command, address and dummy phases. */
  datatype Frame =
    | Duplex(tx: seq<bv8>)
    | HalfDuplexRead(cmd: bv8, addr: nat, dummyBits: nat, rxLen: nat)

  function RxLen(f: Frame): nat
  {
    match f
    case Duplex(tx) => |tx|
    case HalfDuplexRead(_, _, _, n) => n
  }

  /** The driver's result for one transaction and the bytes the chip returns. */
  datatype Reply = Reply(err: EspErr, rx: seq<bv8>)

  /** The next answer; once the script is exhausted every transaction succeeds with zeros. */
  function Head(replies: seq<Reply>): Reply
  {
    if replies == [] then Reply(EspOk, []) else replies[0]
  }

  function Rest(replies: seq<Reply>): seq<Reply>
  {
    if replies == [] then [] else replies[1..]
  }

  function Skip(replies: seq<Reply>, n: nat): seq<Reply>
  {
    if n == 0 then replies else Rest(Skip(replies, n - 1))
  }

  /** What a sequence of driver calls did on the bus: the error it returned, the
      transactions it issued and the answers still left in the script afterwards. */
  datatype BusRun = BusRun(err: EspErr, frames: seq<Frame>, left: seq<Reply>)

  /** The first n received bytes, zero where the chip sent fewer (the buffers start zeroed). */
  function Fit(b: seq<bv8>, n: nat): (r: seq<bv8>)
    ensures |r| == n && forall i :: 0 <= i < n && i < |b| ==> r[i] == b[i]
  {
    seq(n, i requires 0 <= i < n => if i < |b| then b[i] else 0)
  }

  class FlashBus {
    /** Every transaction issued so far, in order. */
    var sent: seq<Frame>
    /** The answers still to come. */
    var replies: seq<Reply>

    constructor (script: seq<Reply>)
      ensures sent == [] && replies == script
    {
      sent := [];
      replies := script;
    }

    /** `spi_device_transmit`: logs the transaction and consumes one answer. */
    method Transmit(f: Frame) returns (err: EspErr, rx: seq<bv8>)
      modifies this
      ensures sent == old(sent) + [f] && replies == Rest(old(replies))
      ensures err == Head(old(replies)).err && rx == Fit(Head(old(replies)).rx, RxLen(f))
    {
      var r := Head(replies);
      sent := sent + [f];
      replies := Rest(replies);
      err := r.err;
      rx := Fit(r.rx, RxLen(f));
    }
  }

  // ---------------------------------------------------------------------------
  // Reads

  /** `spi_flash_read_slow`: a missing buffer or zero length is rejected before any bus
      traffic; otherwise one transaction of the 0x03 command, the address and `length`
      zero bytes, whose bytes 4.. are copied out on success. On error the buffer is untouched. */
  method ReadSlow(bus: FlashBus, address: nat, data: array?<bv8>, length: nat) returns (err: EspErr)
    requires address < U32Mod
    requires data != null ==> length <= data.Length
    modifies bus, data
    ensures data == null || length == 0 ==>
              err == ErrInvalidArg && bus.sent == old(bus.sent) && bus.replies == old(bus.replies)
    ensures data != null && length > 0 ==>
              bus.sent == old(bus.sent) + [Duplex(Command(CmdReadData, address) + Zeros(length))]
              && bus.replies == Rest(old(bus.replies)) && err == Head(old(bus.replies)).err
    ensures data != null && length > 0 && err == EspOk ==>
              data[..length] == Fit(Head(old(bus.replies)).rx, 4 + length)[4..]
              && data[length..] == old(data[length..])
    ensures data != null && err != EspOk ==> data[..] == old(data[..])
  {
    if data == null || length == 0 {
      return ErrInvalidArg;
    }
    var tx := Command(CmdReadData, address) + Zeros(length);
    var rx;
    err, rx := bus.Transmit(Duplex(tx));
    if err == EspOk {
      CopyInto(rx[4..], data, 0);
    }
  }

  function Zeros(n: nat): (z: seq<bv8>)
    ensures |z| == n && forall i :: 0 <= i < n ==> z[i] == 0
  {
    seq(n, _ => 0)
  }

  /** `memcpy` into a buffer at an offset. */
  method CopyInto(src: seq<bv8>, dst: array<bv8>, off: nat)
    requires off + |src| <= dst.Length
    modifies dst
    ensures dst[off..off + |src|] == src
    ensures dst[..off] == old(dst[..off]) && dst[off + |src|..] == old(dst[off + |src|..])
  {
    var i := 0;
    while i < |src|
      invariant 0 <= i <= |src|
      invariant dst[off..off + i] == src[..i]
      invariant dst[..off] == old(dst[..off]) && dst[off + i..] == old(dst[off + i..])
    {
      dst[off + i] := src[i];
      i := i + 1;
    }
  }

  function FastReadFrame(a: nat, n: nat): Frame
  {
    HalfDuplexRead(CmdFastRead, a % Addr24Mod, FastReadDummyBits, n)
  }

  /** `spi_flash_read_fast` into `data[off..off+length]`: one half-duplex transaction with the
      0x0B command and the address masked to 24 bits; the bytes land only on success. */
  method ReadFast(bus: FlashBus, address: nat, data: array?<bv8>, off: nat, length: nat)
    returns (err: EspErr)
    requires data != null ==> off + length <= data.Length
    requires address < U32Mod
    modifies bus, data
    ensures data == null || length == 0 ==>
              err == ErrInvalidArg && bus.sent == old(bus.sent) && bus.replies == old(bus.replies)
    ensures data != null && length > 0 ==>
              bus.sent == old(bus.sent) + [FastReadFrame(address, length)]
              && bus.replies == Rest(old(bus.replies)) && err == Head(old(bus.replies)).err
    ensures data != null && length > 0 && err == EspOk ==>
              data[off..off + length] == Fit(Head(old(bus.replies)).rx, length)
    ensures data != null ==> data[..off] == old(data[..off]) && data[off + length..] == old(data[off + length..])
    ensures data != null && err != EspOk ==> data[..] == old(data[..])
  {
    if data == null || length == 0 {
      return ErrInvalidArg;
    }
    var rx;
    err, rx := bus.Transmit(FastReadFrame(address, length));
    if err == EspOk {
      CopyInto(rx, data, off);
    }
  }

  /** A run of `len` bytes starting at `addr`. */
  datatype Span = Span(addr: nat, len: nat)

  /** The bulk read's chunks: as many `chunkMax`-byte reads as fit, then the remainder; the
      address advances as a 32-bit counter. */
  function ReadSpans(addr: nat, len: nat, chunkMax: nat): seq<Span>
    requires chunkMax > 0
    decreases len
  {
    if len == 0 then []
    else
      var n := if len > chunkMax then chunkMax else len;
      [Span(addr, n)] + ReadSpans((addr + n) % U32Mod, len - n, chunkMax)
  }

  function SpanTotal(spans: seq<Span>): nat
  {
    if spans == [] then 0 else spans[0].len + SpanTotal(spans[1..])
  }

  /** The chunks are non-empty and at most `chunkMax` long, only the last may be shorter,
      they follow one another, start at `addr` and add up to `len`. */
  lemma {:induction false} ReadSpansCover(addr: nat, len: nat, chunkMax: nat)
    requires chunkMax > 0
    ensures var s := ReadSpans(addr, len, chunkMax);
            SpanTotal(s) == len
            && (len > 0 ==> s[0].addr == addr)
            && (forall i :: 0 <= i < |s| ==> 0 < s[i].len <= chunkMax)
            && (forall i :: 0 <= i < |s| - 1 ==> s[i].len == chunkMax)
            && (forall i :: 0 <= i < |s| - 1 ==> s[i + 1].addr == (s[i].addr + s[i].len) % U32Mod)
    decreases len
  {
    if len > 0 {
      var n := if len > chunkMax then chunkMax else len;
      ReadSpansCover((addr + n) % U32Mod, len - n, chunkMax);
      var s := ReadSpans(addr, len, chunkMax);
      assert s[1..] == ReadSpans((addr + n) % U32Mod, len - n, chunkMax);
    }
  }

  function ReadFrames(spans: seq<Span>): (fs: seq<Frame>)
    ensures |fs| == |spans|
  {
    if spans == [] then [] else [FastReadFrame(spans[0].addr, spans[0].len)] + ReadFrames(spans[1..])
  }

  /** The bytes the bulk read collects: each chunk's answer, in order. */
  function Received(replies: seq<Reply>, spans: seq<Span>): seq<bv8>
  {
    if spans == [] then [] else Fit(Head(replies).rx, spans[0].len) + Received(Rest(replies), spans[1..])
  }

  /** The bulk read against the chip's answers: one fast read per chunk, and the first read
      that fails ends the run with its error. */
  function BulkReadRun(replies: seq<Reply>, spans: seq<Span>): (run: BusRun)
    decreases |spans|
  {
    if spans == [] then BusRun(EspOk, [], replies)
    else
      var f := FastReadFrame(spans[0].addr, spans[0].len);
      if Head(replies).err != EspOk then BusRun(Head(replies).err, [f], Rest(replies))
      else
        var r := BulkReadRun(Rest(replies), spans[1..]);
        BusRun(r.err, [f] + r.frames, r.left)
  }

  /** Each chunk read takes exactly one answer: the run leaves the script after as many
      answers as it issued reads, and it issues at most one per chunk. */
  lemma {:induction false} BulkReadRunLeft(replies: seq<Reply>, spans: seq<Span>)
    ensures var run := BulkReadRun(replies, spans);
            |run.frames| <= |spans| && run.left == Skip(replies, |run.frames|)
    decreases |spans|
  {
    if spans != [] && Head(replies).err == EspOk {
      var r := BulkReadRun(Rest(replies), spans[1..]);
      BulkReadRunLeft(Rest(replies), spans[1..]);
      SkipFront(replies, |r.frames|);
    }
  }

  /** The first n answers all report success. */
  predicate AnswersOk(replies: seq<Reply>, n: nat)
  {
    forall i :: 0 <= i < n ==> Head(Skip(replies, i)).err == EspOk
  }

  lemma AnswersOkStep(replies: seq<Reply>, n: nat)
    requires n > 0
    ensures AnswersOk(replies, n) <==> Head(replies).err == EspOk && AnswersOk(Rest(replies), n - 1)
  {
    forall i: nat ensures Skip(Rest(replies), i) == Skip(replies, i + 1) {
      SkipFront(replies, i);
    }
    assert Skip(replies, 0) == replies;
    if AnswersOk(replies, n) {
      forall i | 0 <= i < n - 1 ensures Head(Skip(Rest(replies), i)).err == EspOk {
        assert Head(Skip(replies, i + 1)).err == EspOk;
      }
    }
    if Head(replies).err == EspOk && AnswersOk(Rest(replies), n - 1) {
      forall i | 0 < i < n ensures Head(Skip(replies, i)).err == EspOk {
        assert Skip(replies, i) == Skip(Rest(replies), i - 1);
      }
    }
  }

  /** The bulk read's reads are always a prefix of the chunk reads, and all of them on
      success. */
  lemma {:induction false} BulkReadRunPrefix(replies: seq<Reply>, spans: seq<Span>)
    ensures var run := BulkReadRun(replies, spans);
            run.frames <= ReadFrames(spans)
            && (run.err == EspOk ==> run.frames == ReadFrames(spans))
    decreases |spans|
  {
    if spans != [] {
      var f := FastReadFrame(spans[0].addr, spans[0].len);
      assert ReadFrames(spans) == [f] + ReadFrames(spans[1..]);
      BulkReadRunPrefix(Rest(replies), spans[1..]);
    }
  }

  /** The bulk read succeeds iff the answer to every chunk's read reports success; when it
      fails, every read before the last succeeded and the error returned is the last one's. */
  lemma {:induction false} BulkReadRunFirstError(replies: seq<Reply>, spans: seq<Span>)
    ensures var run := BulkReadRun(replies, spans);
            (run.err == EspOk <==> AnswersOk(replies, |spans|))
            && (run.err != EspOk ==> 0 < |run.frames| <= |spans| && AnswersOk(replies, |run.frames| - 1)
                                     && run.err == Head(Skip(replies, |run.frames| - 1)).err)
    decreases |spans|
  {
    if spans != [] {
      AnswersOkStep(replies, |spans|);
      if Head(replies).err == EspOk {
        var r := BulkReadRun(Rest(replies), spans[1..]);
        BulkReadRunFirstError(Rest(replies), spans[1..]);
        if r.err != EspOk {
          AnswersOkStep(replies, |r.frames|);
          SkipFront(replies, |r.frames| - 1);
        }
      }
    }
  }

  function EffectiveChunkMax(chunkMax: nat): (m: nat)
    ensures m > 0
  {
    if chunkMax == 0 then DefaultChunkMax else chunkMax
  }

  /** One step of the bulk read: the first chunk, its read and its answer, then the rest. */
  lemma ReadSpansStep(curr: nat, remaining: nat, cmax: nat, replies: seq<Reply>)
    requires cmax > 0 && remaining > 0
    ensures var n := if remaining > cmax then cmax else remaining;
            var rest := ReadSpans((curr + n) % U32Mod, remaining - n, cmax);
            var f := FastReadFrame(curr, n);
            ReadSpans(curr, remaining, cmax) == [Span(curr, n)] + rest
            && (var run := BulkReadRun(replies, ReadSpans(curr, remaining, cmax));
                var r := BulkReadRun(Rest(replies), rest);
                (Head(replies).err != EspOk ==> run == BusRun(Head(replies).err, [f], Rest(replies)))
                && (Head(replies).err == EspOk ==> run.err == r.err && run.frames == [f] + r.frames && run.left == r.left))
            && Received(replies, ReadSpans(curr, remaining, cmax)) == Fit(Head(replies).rx, n) + Received(Rest(replies), rest)
  {
    var n := if remaining > cmax then cmax else remaining;
    var s := ReadSpans(curr, remaining, cmax);
    assert s[1..] == ReadSpans((curr + n) % U32Mod, remaining - n, cmax);
  }

  /** A log that grew by a bulk read's run holds a prefix of the chunk reads after the old
      entries, and all of them when the run succeeded. */
  lemma LogOfBulkRead(sent0: seq<Frame>, sent: seq<Frame>, replies: seq<Reply>, spans: seq<Span>)
    requires sent == sent0 + BulkReadRun(replies, spans).frames
    ensures sent0 <= sent && sent[|sent0|..] <= ReadFrames(spans)
    ensures BulkReadRun(replies, spans).err == EspOk ==> sent == sent0 + ReadFrames(spans)
  {
    assert sent[|sent0|..] == BulkReadRun(replies, spans).frames;
    BulkReadRunPrefix(replies, spans);
  }

  /** One pass of the bulk read loop: one fast read of the next chunk into `out[done..]`.
      Against the run of the chunks from `curr` on, it either ends that run (on error) or
      leaves exactly the run of the chunks after it still to come. */
  method ReadNextChunk(bus: FlashBus, out: array<bv8>, curr: nat, done: nat, remaining: nat, cmax: nat,
                       thisLen: nat)
    returns (err: EspErr)
    requires cmax > 0 && remaining > 0 && done + remaining <= out.Length && curr < U32Mod
    requires thisLen == if remaining > cmax then cmax else remaining
    modifies bus, out
    ensures var tail := BulkReadRun(old(bus.replies), ReadSpans(curr, remaining, cmax));
            err != EspOk ==>
              err == tail.err && bus.sent == old(bus.sent) + tail.frames
              && bus.replies == tail.left
    ensures var spans := ReadSpans(curr, remaining, cmax);
            var tail := BulkReadRun(old(bus.replies), spans);
            var next := ReadSpans((curr + thisLen) % U32Mod, remaining - thisLen, cmax);
            var after := BulkReadRun(bus.replies, next);
            err == EspOk ==>
              tail.err == after.err && old(bus.sent) + tail.frames == bus.sent + after.frames
              && tail.left == after.left
              && old(out[..done]) + Received(old(bus.replies), spans) == out[..done + thisLen] + Received(bus.replies, next)
  {
    ghost var rest := ReadSpans((curr + thisLen) % U32Mod, remaining - thisLen, cmax);
    ghost var replies0 := bus.replies;
    ghost var f := FastReadFrame(curr, thisLen);
    ReadSpansStep(curr, remaining, cmax, bus.replies);
    ConcatAssoc(bus.sent, [f], BulkReadRun(Rest(replies0), rest).frames);
    err := ReadFast(bus, curr, out, done, thisLen);
    if err == EspOk {
      assert out[..done + thisLen] == out[..done] + out[done..done + thisLen];
      ConcatAssoc(out[..done], Fit(Head(replies0).rx, thisLen), Received(bus.replies, rest));
    }
  }

  /** `spi_flash_read_bulk_dma`: one fast read per chunk of `ReadSpans` (a zero `chunkMax`
      means 16 KiB), stopping at the first error, which it returns: the result, the
      transactions and the answers consumed are those of `BulkReadRun`. On success the
      buffer holds every chunk's answer in order; in every case the transactions issued are
      a prefix of the chunk reads. */
  method ReadBulk(bus: FlashBus, address: nat, out: array?<bv8>, length: nat, chunkMax: nat)
    returns (err: EspErr)
    requires address < U32Mod
    requires out != null ==> length <= out.Length
    modifies bus, out
    ensures out == null || length == 0 ==>
              err == ErrInvalidArg && bus.sent == old(bus.sent) && bus.replies == old(bus.replies)
    ensures out != null && length > 0 ==>
              var run := BulkReadRun(old(bus.replies), ReadSpans(address, length, EffectiveChunkMax(chunkMax)));
              err == run.err && bus.sent == old(bus.sent) + run.frames
              && bus.replies == run.left
    ensures var whole := ReadFrames(ReadSpans(address, length, EffectiveChunkMax(chunkMax)));
            old(bus.sent) <= bus.sent && bus.sent[|old(bus.sent)|..] <= whole
    ensures out != null && length > 0 && err == EspOk ==>
              bus.sent == old(bus.sent) + ReadFrames(ReadSpans(address, length, EffectiveChunkMax(chunkMax)))
              && out[..length] == Received(old(bus.replies), ReadSpans(address, length, EffectiveChunkMax(chunkMax)))
  {
    if out == null || length == 0 {
      return ErrInvalidArg;
    }
    var cmax := EffectiveChunkMax(chunkMax);
    ghost var spans := ReadSpans(address, length, cmax);
    ghost var r0 := bus.replies;
    ghost var run0 := BulkReadRun(r0, spans);
    ghost var got := Received(r0, spans);
    ghost var sent0 := bus.sent;
    var remaining: nat := length;
    var curr: nat := address;
    var done: nat := 0;
    while remaining > 0
      invariant done + remaining == length <= out.Length && curr < U32Mod
      invariant var tail := BulkReadRun(bus.replies, ReadSpans(curr, remaining, cmax));
                tail.err == run0.err && sent0 + run0.frames == bus.sent + tail.frames
                && tail.left == run0.left
      invariant got == out[..done] + Received(bus.replies, ReadSpans(curr, remaining, cmax))
      decreases remaining
    {
      var thisLen := if remaining > cmax then cmax else remaining;
      err := ReadNextChunk(bus, out, curr, done, remaining, cmax, thisLen);
      if err != EspOk {
        LogOfBulkRead(sent0, bus.sent, r0, spans);
        return;
      }
      curr := (curr + thisLen) % U32Mod;
      done := done + thisLen;
      remaining := remaining - thisLen;
    }
    assert bus.sent + [] == bus.sent;
    LogOfBulkRead(sent0, bus.sent, r0, spans);
    err := EspOk;
  }

  // ---------------------------------------------------------------------------
  // Status polling

  const WrenFrame: Frame := Duplex([CmdWren])
  const StatusFrame: Frame := Duplex([CmdRdsr1, 0x00])

  /** Status Register-1 as answered by a reply: the second byte clocked in. */
  function StatusOf(r: Reply): bv8
  {
    Fit(r.rx, 2)[1]
  }

  /** A status read that succeeded and shows the write-in-progress bit set. */
  predicate BusyAt(replies: seq<Reply>, k: nat)
  {
    Head(Skip(replies, k)).err == EspOk && StatusOf(Head(Skip(replies, k))) & 1 != 0
  }

  /** A status read that succeeded and shows the write-in-progress bit clear. */
  predicate ReadyAt(replies: seq<Reply>, k: nat)
  {
    Head(Skip(replies, k)).err == EspOk && StatusOf(Head(Skip(replies, k))) & 1 == 0
  }

  function StatusPolls(n: nat): (fs: seq<Frame>)
    ensures |fs| == n && forall i :: 0 <= i < n ==> fs[i] == StatusFrame
  {
    seq(n, _ => StatusFrame)
  }

  /** The error and the number of status reads of a wait. */
  datatype WaitResult = WaitResult(err: EspErr, polls: nat)

  /** The outcome of `spi_flash_wait_ready` when `elapsed` ms of the timeout have passed:
      a failed status read ends the wait with its error, a clear WIP bit with success, and a
      set bit after the timeout with ESP_ERR_TIMEOUT; otherwise the wait goes on a
      millisecond later. */
  function WaitSpec(replies: seq<Reply>, elapsed: nat, timeoutMs: nat): (w: WaitResult)
    requires elapsed <= timeoutMs + 1
    decreases timeoutMs + 1 - elapsed
  {
    var r := Head(replies);
    if r.err != EspOk then WaitResult(r.err, 1)
    else if StatusOf(r) & 1 == 0 then WaitResult(EspOk, 1)
    else if elapsed > timeoutMs then WaitResult(ErrTimeout, 1)
    else
      var w := WaitSpec(Rest(replies), elapsed + 1, timeoutMs);
      WaitResult(w.err, w.polls + 1)
  }

  lemma {:induction false} SkipFront(replies: seq<Reply>, k: nat)
    ensures Skip(Rest(replies), k) == Skip(replies, k + 1)
  {
    if k > 0 {
      SkipFront(replies, k - 1);
    }
  }

  /** The wait succeeds iff, within the timeout, a status read shows the chip ready and
      every read before it succeeded and showed it busy; it never reads the status more than
      once per elapsed millisecond plus one. */
  lemma {:induction false} WaitReadyIff(replies: seq<Reply>, elapsed: nat, timeoutMs: nat)
    requires elapsed <= timeoutMs + 1
    ensures var w := WaitSpec(replies, elapsed, timeoutMs);
            1 <= w.polls <= timeoutMs + 2 - elapsed
            && (w.err == EspOk <==> exists k :: 0 <= k <= timeoutMs + 1 - elapsed && ReadyAt(replies, k)
                                                && forall j :: 0 <= j < k ==> BusyAt(replies, j))
    decreases timeoutMs + 1 - elapsed
  {
    var r := Head(replies);
    var w := WaitSpec(replies, elapsed, timeoutMs);
    if r.err != EspOk {
      assert !ReadyAt(replies, 0) && !BusyAt(replies, 0);
    } else if StatusOf(r) & 1 == 0 {
      assert ReadyAt(replies, 0);
    } else if elapsed > timeoutMs {
      assert !ReadyAt(replies, 0);
    } else {
      WaitReadyIff(Rest(replies), elapsed + 1, timeoutMs);
      assert BusyAt(replies, 0);
      forall k: nat ensures ReadyAt(Rest(replies), k) == ReadyAt(replies, k + 1)
                        && BusyAt(Rest(replies), k) == BusyAt(replies, k + 1) {
        SkipFront(replies, k);
      }
      if w.err == EspOk {
        var k :| 0 <= k <= timeoutMs - elapsed && ReadyAt(Rest(replies), k)
                 && forall j :: 0 <= j < k ==> BusyAt(Rest(replies), j);
        assert ReadyAt(replies, k + 1);
        assert forall j :: 0 <= j < k + 1 ==> BusyAt(replies, j) by {
          forall j | 0 < j < k + 1 ensures BusyAt(replies, j) {
            assert BusyAt(Rest(replies), j - 1);
          }
        }
      }
      if exists k :: 0 <= k <= timeoutMs + 1 - elapsed && ReadyAt(replies, k)
                     && forall j :: 0 <= j < k ==> BusyAt(replies, j) {
        var k :| 0 <= k <= timeoutMs + 1 - elapsed && ReadyAt(replies, k)
                 && forall j :: 0 <= j < k ==> BusyAt(replies, j);
        assert k != 0;
        assert ReadyAt(Rest(replies), k - 1);
        assert forall j :: 0 <= j < k - 1 ==> BusyAt(Rest(replies), j) by {
          forall j | 0 <= j < k - 1 ensures BusyAt(Rest(replies), j) {
            assert BusyAt(replies, j + 1);
          }
        }
      }
    }
  }

  /** `spi_flash_read_status1`: a missing output is rejected before any bus traffic;
      otherwise one 0x05 transaction whose second byte is stored on success. */
  method ReadStatus1(bus: FlashBus, status: array?<bv8>) returns (err: EspErr)
    requires status != null ==> status.Length >= 1
    modifies bus, status
    ensures status == null ==>
              err == ErrInvalidArg && bus.sent == old(bus.sent) && bus.replies == old(bus.replies)
    ensures status != null ==>
              bus.sent == old(bus.sent) + [StatusFrame] && bus.replies == Rest(old(bus.replies))
              && err == Head(old(bus.replies)).err
              && status[0] == if err == EspOk then StatusOf(Head(old(bus.replies))) else old(status[0])
  {
    if status == null {
      return ErrInvalidArg;
    }
    var rx;
    err, rx := bus.Transmit(StatusFrame);
    if err == EspOk {
      status[0] := rx[1];
    }
  }

  /** `spi_flash_wait_ready`, with each busy poll followed by a 1 ms delay. */
  method WaitReady(bus: FlashBus, timeoutMs: nat) returns (err: EspErr)
    modifies bus
    ensures var w := WaitSpec(old(bus.replies), 0, timeoutMs);
            err == w.err && bus.sent == old(bus.sent) + StatusPolls(w.polls)
            && bus.replies == Skip(old(bus.replies), w.polls)
  {
    var elapsed := 0;
    while true
      invariant elapsed <= timeoutMs + 1
      invariant bus.sent == old(bus.sent) + StatusPolls(elapsed)
      invariant bus.replies == Skip(old(bus.replies), elapsed)
      invariant WaitSpec(old(bus.replies), 0, timeoutMs).err == WaitSpec(bus.replies, elapsed, timeoutMs).err
      invariant WaitSpec(old(bus.replies), 0, timeoutMs).polls == elapsed + WaitSpec(bus.replies, elapsed, timeoutMs).polls
      decreases timeoutMs + 1 - elapsed
    {
      var sr := new bv8[1];
      err := ReadStatus1(bus, sr);
      assert StatusPolls(elapsed + 1) == StatusPolls(elapsed) + [StatusFrame];
      if err != EspOk {
        return;
      }
      if sr[0] & 1 == 0 {
        return EspOk;
      }
      if elapsed > timeoutMs {
        return ErrTimeout;
      }
      elapsed := elapsed + 1;
    }
  }

  // ---------------------------------------------------------------------------
  // Write enable, program, erase

  /** `spi_flash_write_enable`: the one-byte 0x06 transaction. */
  method WriteEnable(bus: FlashBus) returns (err: EspErr)
    modifies bus
    ensures bus.sent == old(bus.sent) + [WrenFrame] && bus.replies == Rest(old(bus.replies))
    ensures err == Head(old(bus.replies)).err
  {
    var rx;
    err, rx := bus.Transmit(WrenFrame);
  }

  /** Write enable, then the command, then the wait for the chip; the first error ends it. */
  function WriteCycle(replies: seq<Reply>, cmd: Frame, timeoutMs: nat): (run: BusRun)
    ensures 1 <= |run.frames| && run.frames[0] == WrenFrame
  {
    if Head(replies).err != EspOk then BusRun(Head(replies).err, [WrenFrame], Rest(replies))
    else if Head(Rest(replies)).err != EspOk then BusRun(Head(Rest(replies)).err, [WrenFrame, cmd], Rest(Rest(replies)))
    else
      var w := WaitSpec(Rest(Rest(replies)), 0, timeoutMs);
      BusRun(w.err, [WrenFrame, cmd] + StatusPolls(w.polls), Skip(Rest(Rest(replies)), w.polls))
  }

  /** Runs `WriteCycle` against the bus. */
  method RunWriteCycle(bus: FlashBus, cmd: Frame, timeoutMs: nat) returns (err: EspErr)
    modifies bus
    ensures var run := WriteCycle(old(bus.replies), cmd, timeoutMs);
            err == run.err && bus.sent == old(bus.sent) + run.frames
            && bus.replies == run.left
  {
    ghost var r0 := bus.replies;
    err := WriteEnable(bus);
    assert bus.replies == Skip(r0, 1);
    if err != EspOk {
      return;
    }
    var rx;
    err, rx := bus.Transmit(cmd);
    assert bus.replies == Skip(r0, 2);
    if err != EspOk {
      return;
    }
    ghost var r2 := bus.replies;
    err := WaitReady(bus, timeoutMs);
    var w := WaitSpec(r2, 0, timeoutMs);
    SkipFront(r0, w.polls + 1);
    SkipFront(Rest(r0), w.polls);
  }

  function ProgramFrame(a: nat, bytes: seq<bv8>): Frame
  {
    Duplex(Command(CmdPageProgram, a) + bytes)
  }

  /** The arguments a page program accepts: 1 to 256 bytes that stay inside one page. */
  predicate PageArgsOk(address: nat, length: nat)
  {
    0 < length <= PageSize && address % PageSize + length <= PageSize
  }

  /** `spi_flash_page_program` of the first `length` bytes of `data` (None stands for a
      NULL pointer): arguments outside one page are rejected before any bus traffic;
      otherwise a write cycle of the 0x02 command with a 300 ms wait. */
  method PageProgram(bus: FlashBus, address: nat, data: Option<seq<bv8>>, length: nat)
    returns (err: EspErr)
    requires data.Some? ==> length <= |data.value|
    requires address < U32Mod
    modifies bus
    ensures data.None? || !PageArgsOk(address, length) ==>
              err == ErrInvalidArg && bus.sent == old(bus.sent) && bus.replies == old(bus.replies)
    ensures data.Some? && PageArgsOk(address, length) ==>
              var run := WriteCycle(old(bus.replies), ProgramFrame(address, data.value[..length]), ProgramTimeoutMs);
              err == run.err && bus.sent == old(bus.sent) + run.frames
              && bus.replies == run.left
  {
    if data.None? || length == 0 || length > PageSize {
      return ErrInvalidArg;
    }
    var pageOff := address % PageSize;
    if pageOff + length > PageSize {
      return ErrInvalidArg;
    }
    err := RunWriteCycle(bus, ProgramFrame(address, data.value[..length]), ProgramTimeoutMs);
  }

  /** `spi_flash_sector_erase`: a write cycle of the 0x20 command with a 4000 ms wait. */
  method SectorErase(bus: FlashBus, address: nat) returns (err: EspErr)
    requires address < U32Mod
    modifies bus
    ensures var run := WriteCycle(old(bus.replies), Duplex(Command(CmdSectorErase, address)), EraseTimeoutMs);
            err == run.err && bus.sent == old(bus.sent) + run.frames
            && bus.replies == run.left
  {
    err := RunWriteCycle(bus, Duplex(Command(CmdSectorErase, address)), EraseTimeoutMs);
  }

  // ---------------------------------------------------------------------------
  // Page-safe buffer write

  /** The next chunk: the rest of the current page, or what remains if that is less. */
  function PageChunkLen(addr: nat, remaining: nat): (c: nat)
    requires remaining > 0
    ensures 0 < c <= remaining && addr % PageSize + c <= PageSize
  {
    var room := PageSize - addr % PageSize;
    if room > remaining then remaining else room
  }

  /** A run of bytes programmed at one address. */
  datatype Piece = Piece(addr: nat, bytes: seq<bv8>)

  /** How `spi_flash_write_buffer` cuts `bytes` written at `addr` into page programs; the
      address advances as a 32-bit counter. */
  function PageSplit(addr: nat, bytes: seq<bv8>): seq<Piece>
    decreases |bytes|
  {
    if bytes == [] then []
    else
      var c := PageChunkLen(addr, |bytes|);
      [Piece(addr, bytes[..c])] + PageSplit((addr + c) % U32Mod, bytes[c..])
  }

  function Joined(pieces: seq<Piece>): seq<bv8>
  {
    if pieces == [] then [] else pieces[0].bytes + Joined(pieces[1..])
  }

  lemma NextPageAligned(addr: nat)
    requires addr < U32Mod
    ensures ((addr + (PageSize - addr % PageSize)) % U32Mod) % PageSize == 0
  {
    var k := addr / PageSize;
    assert addr + (PageSize - addr % PageSize) == PageSize * (k + 1);
    if k + 1 < U32Mod / PageSize {
      assert PageSize * (k + 1) < U32Mod;
    } else {
      assert PageSize * (k + 1) == U32Mod;
    }
  }

  /** The pieces put back together are the data. */
  lemma {:induction false} PageSplitJoined(addr: nat, bytes: seq<bv8>)
    requires addr < U32Mod
    ensures Joined(PageSplit(addr, bytes)) == bytes
    decreases |bytes|
  {
    if bytes != [] {
      var c := PageChunkLen(addr, |bytes|);
      var next := (addr + c) % U32Mod;
      PageSplitJoined(next, bytes[c..]);
      var p := PageSplit(addr, bytes);
      assert p[1..] == PageSplit(next, bytes[c..]);
      assert bytes == bytes[..c] + bytes[c..];
    }
  }

  /** Every piece is non-empty and stays inside one page; the first starts at the
      address asked for and every later one at a page boundary. */
  lemma {:induction false} PageSplitInPages(addr: nat, bytes: seq<bv8>)
    requires addr < U32Mod
    ensures var p := PageSplit(addr, bytes);
            (bytes != [] ==> p[0].addr == addr)
            && (forall i :: 0 <= i < |p| ==> 0 < |p[i].bytes| && p[i].addr % PageSize + |p[i].bytes| <= PageSize)
            && (forall i :: 0 < i < |p| ==> p[i].addr % PageSize == 0)
    decreases |bytes|
  {
    if bytes != [] {
      var c := PageChunkLen(addr, |bytes|);
      var next := (addr + c) % U32Mod;
      PageSplitInPages(next, bytes[c..]);
      var p := PageSplit(addr, bytes);
      assert p[1..] == PageSplit(next, bytes[c..]);
      if |p| > 1 {
        assert c == PageSize - addr % PageSize;
        NextPageAligned(addr);
      }
    }
  }

  /** Each piece starts where the one before it ended. */
  lemma {:induction false} PageSplitContiguous(addr: nat, bytes: seq<bv8>)
    requires addr < U32Mod
    ensures var p := PageSplit(addr, bytes);
            forall i :: 0 <= i < |p| - 1 ==> p[i + 1].addr == (p[i].addr + |p[i].bytes|) % U32Mod
    decreases |bytes|
  {
    if bytes != [] {
      var c := PageChunkLen(addr, |bytes|);
      var next := (addr + c) % U32Mod;
      PageSplitContiguous(next, bytes[c..]);
      PageSplitInPages(next, bytes[c..]);
      var p := PageSplit(addr, bytes);
      assert p[1..] == PageSplit(next, bytes[c..]);
    }
  }

  /** The pieces are non-empty, never cross a page, every piece after the first starts a
      page, addresses follow one another, and together the pieces are the whole buffer. */
  lemma PageSplitSound(addr: nat, bytes: seq<bv8>)
    requires addr < U32Mod
    ensures var p := PageSplit(addr, bytes);
            Joined(p) == bytes
            && (bytes != [] ==> p[0].addr == addr)
            && (forall i :: 0 <= i < |p| ==> 0 < |p[i].bytes| && p[i].addr % PageSize + |p[i].bytes| <= PageSize)
            && (forall i :: 0 < i < |p| ==> p[i].addr % PageSize == 0)
            && (forall i :: 0 <= i < |p| - 1 ==> p[i + 1].addr == (p[i].addr + |p[i].bytes|) % U32Mod)
  {
    PageSplitJoined(addr, bytes);
    PageSplitInPages(addr, bytes);
    PageSplitContiguous(addr, bytes);
  }

  function PageFrames(pieces: seq<Piece>): (fs: seq<Frame>)
    ensures |fs| == |pieces|
  {
    if pieces == [] then [] else [ProgramFrame(pieces[0].addr, pieces[0].bytes)] + PageFrames(pieces[1..])
  }

  predicate IsProgram(f: Frame)
  {
    f.Duplex? && |f.tx| >= 1 && f.tx[0] == CmdPageProgram
  }

  /** The page-program transactions of a log, in order. */
  function Programs(fs: seq<Frame>): seq<Frame>
  {
    if fs == [] then [] else (if IsProgram(fs[0]) then [fs[0]] else []) + Programs(fs[1..])
  }

  lemma {:induction false} ProgramsAppend(a: seq<Frame>, b: seq<Frame>)
    ensures Programs(a + b) == Programs(a) + Programs(b)
  {
    if a == [] {
      assert a + b == b;
    } else {
      var first := if IsProgram(a[0]) then [a[0]] else [];
      assert (a + b)[0] == a[0];
      assert (a + b)[1..] == a[1..] + b;
      ProgramsAppend(a[1..], b);
      assert Programs(a + b) == first + Programs(a[1..] + b);
      assert Programs(a) == first + Programs(a[1..]);
    }
  }

  lemma {:induction false} NoProgramsInPolls(n: nat)
    ensures Programs(StatusPolls(n)) == []
  {
    if n > 0 {
      assert StatusPolls(n)[1..] == StatusPolls(n - 1);
      NoProgramsInPolls(n - 1);
    }
  }

  /** A write cycle for a page program issues that page program and no other, unless the
      write enable already failed. */
  lemma ProgramsOfCycle(replies: seq<Reply>, a: nat, bytes: seq<bv8>, timeoutMs: nat)
    ensures var run := WriteCycle(replies, ProgramFrame(a, bytes), timeoutMs);
            Programs(run.frames) == if Head(replies).err != EspOk then [] else [ProgramFrame(a, bytes)]
  {
    var cmd := ProgramFrame(a, bytes);
    var run := WriteCycle(replies, cmd, timeoutMs);
    assert Programs([WrenFrame]) == [];
    assert Programs([cmd]) == [cmd];
    ProgramsAppend([WrenFrame], [cmd]);
    if Head(replies).err == EspOk && Head(Rest(replies)).err == EspOk {
      var w := WaitSpec(Rest(Rest(replies)), 0, timeoutMs);
      ProgramsAppend([WrenFrame, cmd], StatusPolls(w.polls));
      NoProgramsInPolls(w.polls);
    }
  }

  /** The buffer write against the chip's answers: one page-program write cycle per piece,
      and the first cycle that fails ends the run with its error. */
  function BufferWriteRun(replies: seq<Reply>, pieces: seq<Piece>): (run: BusRun)
    decreases |pieces|
  {
    if pieces == [] then BusRun(EspOk, [], replies)
    else
      var c := WriteCycle(replies, ProgramFrame(pieces[0].addr, pieces[0].bytes), ProgramTimeoutMs);
      if c.err != EspOk then c
      else
        var r := BufferWriteRun(c.left, pieces[1..]);
        BusRun(r.err, c.frames + r.frames, r.left)
  }

  /** The page programs a buffer write issues are always a prefix of the planned ones, and
      all of them when it succeeds. */
  lemma {:induction false} BufferWriteRunPrograms(replies: seq<Reply>, pieces: seq<Piece>)
    ensures var run := BufferWriteRun(replies, pieces);
            Programs(run.frames) <= PageFrames(pieces)
            && (run.err == EspOk ==> Programs(run.frames) == PageFrames(pieces))
    decreases |pieces|
  {
    if pieces != [] {
      var f := ProgramFrame(pieces[0].addr, pieces[0].bytes);
      var c := WriteCycle(replies, f, ProgramTimeoutMs);
      ProgramsOfCycle(replies, pieces[0].addr, pieces[0].bytes, ProgramTimeoutMs);
      assert PageFrames(pieces) == [f] + PageFrames(pieces[1..]);
      if c.err == EspOk {
        var r := BufferWriteRun(c.left, pieces[1..]);
        BufferWriteRunPrograms(c.left, pieces[1..]);
        ProgramsAppend(c.frames, r.frames);
        assert Programs(c.frames) == [f];
      }
    }
  }

  /** A log that grew by a buffer write's run holds that run's page programs after the old
      entries. */
  lemma LogOfBufferWrite(sent0: seq<Frame>, sent: seq<Frame>, replies: seq<Reply>, pieces: seq<Piece>)
    requires sent == sent0 + BufferWriteRun(replies, pieces).frames
    ensures sent0 <= sent && Programs(sent[|sent0|..]) <= PageFrames(pieces)
    ensures BufferWriteRun(replies, pieces).err == EspOk ==> Programs(sent[|sent0|..]) == PageFrames(pieces)
  {
    assert sent[|sent0|..] == BufferWriteRun(replies, pieces).frames;
    BufferWriteRunPrograms(replies, pieces);
  }

  /** The buffer write starts with the write cycle of the first piece; if that cycle fails
      the run ends with it, and otherwise the run of the remaining pieces follows on the
      answers left. Stated for a bus log that held `sent` and an outcome (`err`, `sentAfter`,
      `repliesAfter`) that is that cycle's. */
  lemma BufferWriteRunStep(replies: seq<Reply>, addr: nat, src: seq<bv8>, chunk: nat, sent: seq<Frame>,
                           err: EspErr, sentAfter: seq<Frame>, repliesAfter: seq<Reply>)
    requires src != [] && chunk == PageChunkLen(addr, |src|)
    requires var cycle := WriteCycle(replies, ProgramFrame(addr, src[..chunk]), ProgramTimeoutMs);
             err == cycle.err && sentAfter == sent + cycle.frames && repliesAfter == cycle.left
    ensures var run := BufferWriteRun(replies, PageSplit(addr, src));
            err != EspOk ==> err == run.err && sentAfter == sent + run.frames && repliesAfter == run.left
    ensures var run := BufferWriteRun(replies, PageSplit(addr, src));
            var r := BufferWriteRun(repliesAfter, PageSplit((addr + chunk) % U32Mod, src[chunk..]));
            err == EspOk ==> run.err == r.err && sent + run.frames == sentAfter + r.frames && run.left == r.left
  {
    var pieces := PageSplit(addr, src);
    assert pieces[0] == Piece(addr, src[..chunk]) && pieces[1..] == PageSplit((addr + chunk) % U32Mod, src[chunk..]);
    var cycle := WriteCycle(replies, ProgramFrame(addr, src[..chunk]), ProgramTimeoutMs);
    ConcatAssoc(sent, cycle.frames, BufferWriteRun(cycle.left, pieces[1..]).frames);
  }

  /** One pass of the buffer write loop: a page program of the first `chunk` bytes of `src`,
      the largest piece that stays inside `addr`'s page. Against the run of the pieces of
      `src`, it either ends that run (on error) or leaves exactly the run of the pieces of
      the rest still to come. */
  method ProgramNextPage(bus: FlashBus, addr: nat, src: seq<bv8>, chunk: nat) returns (err: EspErr)
    requires addr < U32Mod && src != [] && chunk == PageChunkLen(addr, |src|)
    modifies bus
    ensures var tail := BufferWriteRun(old(bus.replies), PageSplit(addr, src));
            err != EspOk ==>
              err == tail.err && bus.sent == old(bus.sent) + tail.frames
              && bus.replies == tail.left
    ensures var tail := BufferWriteRun(old(bus.replies), PageSplit(addr, src));
            var after := BufferWriteRun(bus.replies, PageSplit((addr + chunk) % U32Mod, src[chunk..]));
            err == EspOk ==>
              tail.err == after.err && old(bus.sent) + tail.frames == bus.sent + after.frames
              && tail.left == after.left
  {
    ghost var replies0 := bus.replies;
    ghost var sent0 := bus.sent;
    err := PageProgram(bus, addr, Some(src), chunk);
    BufferWriteRunStep(replies0, addr, src, chunk, sent0, err, bus.sent, bus.replies);
  }

  /** `spi_flash_write_buffer` of the first `length` bytes of `data`: one page program per
      piece of `PageSplit`, stopping at the first error, which it returns: the result, the
      transactions and the answers consumed are those of `BufferWriteRun`. The page
      programs issued are always a prefix of those pieces, and all of them on success. */
  method WriteBuffer(bus: FlashBus, address: nat, data: Option<seq<bv8>>, length: nat) returns (err: EspErr)
    requires address < U32Mod
    requires data.Some? ==> length <= |data.value|
    modifies bus
    ensures data.None? || length == 0 ==>
              err == ErrInvalidArg && bus.sent == old(bus.sent) && bus.replies == old(bus.replies)
    ensures data.Some? && length > 0 ==>
              var run := BufferWriteRun(old(bus.replies), PageSplit(address, data.value[..length]));
              err == run.err && bus.sent == old(bus.sent) + run.frames
              && bus.replies == run.left
    ensures old(bus.sent) <= bus.sent
    ensures data.Some? ==> Programs(bus.sent[|old(bus.sent)|..]) <= PageFrames(PageSplit(address, data.value[..length]))
    ensures data.Some? && length > 0 && err == EspOk ==>
              Programs(bus.sent[|old(bus.sent)|..]) == PageFrames(PageSplit(address, data.value[..length]))
  {
    if data.None? || length == 0 {
      return ErrInvalidArg;
    }
    ghost var sent0 := bus.sent;
    ghost var r0 := bus.replies;
    ghost var pieces := PageSplit(address, data.value[..length]);
    ghost var run0 := BufferWriteRun(r0, pieces);
    var remaining := length;
    var addr: nat := address;
    var src := data.value[..length];
    while remaining > 0
      invariant |src| == remaining && addr < U32Mod
      invariant var tail := BufferWriteRun(bus.replies, PageSplit(addr, src));
                tail.err == run0.err && sent0 + run0.frames == bus.sent + tail.frames
                && tail.left == run0.left
      decreases remaining
    {
      var pageOff := addr % PageSize;
      var chunk := PageSize - pageOff;
      if chunk > remaining {
        chunk := remaining;
      }
      err := ProgramNextPage(bus, addr, src, chunk);
      if err != EspOk {
        LogOfBufferWrite(sent0, bus.sent, r0, pieces);
        return;
      }
      addr := (addr + chunk) % U32Mod;
      src := src[chunk..];
      remaining := remaining - chunk;
    }
    assert bus.sent + [] == bus.sent;
    LogOfBufferWrite(sent0, bus.sent, r0, pieces);
    err := EspOk;
  }

  /** Page-program argument checks at the edge of a page: one byte fits at offset 0xFF, two
      do not; a full page fits only at a page start. */
  lemma PageArgsExamples()
    ensures PageArgsOk(0x0000FF, 1) && !PageArgsOk(0x0000FF, 2)
    ensures PageArgsOk(0x001000, 256) && !PageArgsOk(0x001001, 256)
    ensures !PageArgsOk(0x001000, 0) && !PageArgsOk(0x001000, 257)
  {
  }
}
