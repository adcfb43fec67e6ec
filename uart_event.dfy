/** The event-driven UART console: the CR/LF line accumulator that dispatches every
    completed line, the command handler whose replies go to the UART, and the RX task's
    handling of driver events (data reads and the four error counters). */
module UartEvent {
  import opened Common

  const LineBufSize: nat := 256
  const RxChunk: nat := 256
  const StatusBufSize: nat := 192

  const Cr: char := '\r'
  const Lf: char := '\n'

  const Warning: seq<char> := "warn: line too long, resetting\r\n"
  const HelpText: seq<char> := "commands: help, status\r\n"
  const UnknownText: seq<char> := "unknown cmd (type 'help')\r\n"

  /** The four `uint32_t` error counters. */
  datatype Counters = Counters(frameErr: nat, parityErr: nat, fifoOvf: nat, bufFull: nat)
  {
    predicate Valid()
    {
      frameErr < U32Mod && parityErr < U32Mod && fifoOvf < U32Mod && bufFull < U32Mod
    }
  }

  // ---------------------------------------------------------------------------
  // Command replies

  /** The `status` reply, as formatted into its 192-byte buffer. */
  function StatusText(c: Counters): seq<char>
  {
    "status: frame_err=" + Decimal(c.frameErr) + ", parity_err=" + Decimal(c.parityErr)
    + ", fifo_ovf=" + Decimal(c.fifoOvf) + ", buf_full=" + Decimal(c.bufFull) + "\r\n"
  }

  /** The status text always fits its buffer, so `snprintf` never truncates it. */
  lemma StatusFits(c: Counters)
    requires c.Valid()
    ensures |StatusText(c)| < StatusBufSize
  {
    U32DecimalLength(c.frameErr);
    U32DecimalLength(c.parityErr);
    U32DecimalLength(c.fifoOvf);
    U32DecimalLength(c.bufFull);
  }

  /** `handle_line`: an echo of the line, then the help list, the counters, or the
      unknown-command notice. */
  function Reply(line: seq<char>, c: Counters): seq<char>
  {
    "echo: " + line + "\r\n"
    + (if line == "help" then HelpText
       else if line == "status" then StatusText(c)
       else UnknownText)
  }

  /** Every reply starts with the echo of its line and ends with CR LF. */
  lemma ReplyShape(line: seq<char>, c: Counters)
    ensures var r := Reply(line, c);
            |r| >= |line| + 8 && r[..6] == "echo: " && r[6..6 + |line|] == line
            && r[6 + |line|..8 + |line|] == "\r\n" && r[|r| - 2..] == "\r\n"
  {
    var tail := if line == "help" then HelpText else if line == "status" then StatusText(c) else UnknownText;
    if line == "status" {
      SuffixOfConcat(StatusText(c)[..|StatusText(c)| - 2], "\r\n", 2);
      assert StatusText(c) == StatusText(c)[..|StatusText(c)| - 2] + "\r\n";
    }
    assert tail[|tail| - 2..] == "\r\n";
    var head := "echo: " + line + "\r\n";
    assert head[..6] == "echo: " && head[6..6 + |line|] == line && head[6 + |line|..] == "\r\n";
    var r := Reply(line, c);
    assert r == head + tail;
    SuffixOfConcat(head, tail, 2);
  }

  // ---------------------------------------------------------------------------
  // The line accumulator, as a function of its content

  /** What feeding emits on the UART, in order: a handled line, or the overlong warning. */
  datatype Emit = Handled(line: seq<char>) | Overlong

  datatype Fed = Fed(content: seq<char>, emits: seq<Emit>)

  predicate NoBreaks(s: seq<char>)
  {
    forall k :: 0 <= k < |s| ==> s[k] != Cr && s[k] != Lf
  }

  /** One pass of `line_accumulator_feed`'s loop: a CR or LF completes a non-empty line and
      is otherwise ignored; any other byte is appended while the line holds fewer than 255
      bytes, and the byte that would overflow resets the line with a warning and is dropped. */
  function Step(content: seq<char>, c: char): (r: Fed)
    requires |content| < LineBufSize
    ensures |r.content| < LineBufSize
  {
    if c == Cr || c == Lf then
      if |content| > 0 then Fed([], [Handled(content)]) else Fed(content, [])
    else if |content| < LineBufSize - 1 then Fed(content + [c], [])
    else Fed([], [Overlong])
  }

  /** `line_accumulator_feed` on its line content: every byte is stepped in turn, so
      processing goes on after a terminator. */
  function Feed(content: seq<char>, data: seq<char>): (r: Fed)
    requires |content| < LineBufSize
    ensures |r.content| < LineBufSize
    decreases |data|
  {
    if data == [] then Fed(content, [])
    else
      var s := Step(content, data[0]);
      var rest := Feed(s.content, data[1..]);
      Fed(rest.content, s.emits + rest.emits)
  }

  /** Every handled line is non-empty, shorter than the buffer and free of CR and LF, and
      so is the content left behind. */
  lemma {:induction false} FeedLinesAreClean(content: seq<char>, data: seq<char>)
    requires |content| < LineBufSize && NoBreaks(content)
    ensures var r := Feed(content, data);
            NoBreaks(r.content)
            && forall k :: 0 <= k < |r.emits| && r.emits[k].Handled? ==>
                 0 < |r.emits[k].line| < LineBufSize && NoBreaks(r.emits[k].line)
    decreases |data|
  {
    if data != [] {
      var s := Step(content, data[0]);
      FeedLinesAreClean(s.content, data[1..]);
    }
  }

  /** Feeding two buffers one after the other is feeding their concatenation: nothing
      is lost or reordered at a buffer boundary. */
  lemma {:induction false} FeedConcat(content: seq<char>, a: seq<char>, b: seq<char>)
    requires |content| < LineBufSize
    ensures var first := Feed(content, a);
            var second := Feed(first.content, b);
            Feed(content, a + b) == Fed(second.content, first.emits + second.emits)
    decreases |a|
  {
    if a == [] {
      assert a + b == b;
    } else {
      assert (a + b)[0] == a[0];
      assert (a + b)[1..] == a[1..] + b;
      var s := Step(content, a[0]);
      FeedConcat(s.content, a[1..], b);
      var first := Feed(s.content, a[1..]);
      var second := Feed(first.content, b);
      assert s.emits + (first.emits + second.emits) == (s.emits + first.emits) + second.emits;
    }
  }

  /** A short line followed by a terminator is handled exactly once, and feeding then
      continues with what follows the terminator. */
  lemma {:induction false} FeedLine(content: seq<char>, text: seq<char>, t: char, after: seq<char>)
    requires NoBreaks(text) && (t == Cr || t == Lf)
    requires 0 < |content| + |text| < LineBufSize
    ensures var rest := Feed([], after);
            Feed(content, text + [t] + after) == Fed(rest.content, [Handled(content + text)] + rest.emits)
    decreases |text|
  {
    if text == [] {
      assert content + text == content;
      assert text + [t] + after == [t] + after;
      assert ([t] + after)[1..] == after;
    } else {
      assert (text + [t] + after)[0] == text[0];
      assert (text + [t] + after)[1..] == text[1..] + [t] + after;
      FeedLine(content + [text[0]], text[1..], t, after);
      assert content + [text[0]] + text[1..] == content + text;
      var rest := Feed([], after);
      assert [] + ([Handled(content + text)] + rest.emits) == [Handled(content + text)] + rest.emits;
    }
  }

  /** Terminators that end no line (the LF after a CR, blank lines) emit nothing. */
  lemma {:induction false} BlankLinesEmitNothing(terms: seq<char>)
    requires forall k :: 0 <= k < |terms| ==> terms[k] == Cr || terms[k] == Lf
    ensures Feed([], terms) == Fed([], [])
    decreases |terms|
  {
    if terms != [] {
      BlankLinesEmitNothing(terms[1..]);
      var none: seq<Emit> := [];
      assert none + none == none;
    }
  }

  /** Two CRLF-terminated commands in one buffer are both handled, in order. */
  lemma TwoCrlfLines(l1: seq<char>, l2: seq<char>)
    requires NoBreaks(l1) && NoBreaks(l2) && 0 < |l1| < LineBufSize && 0 < |l2| < LineBufSize
    ensures Feed([], l1 + "\r\n" + l2 + "\r\n") == Fed([], [Handled(l1), Handled(l2)])
  {
    var tail := [Lf] + l2 + "\r\n";
    assert l1 + "\r\n" + l2 + "\r\n" == l1 + [Cr] + tail;
    FeedLine([], l1, Cr, tail);
    assert [] + l1 == l1;
    assert tail[1..] == l2 + [Cr] + [Lf];
    FeedLine([], l2, Cr, [Lf]);
    assert [] + l2 == l2;
    BlankLinesEmitNothing([Lf]);
  }

  /** The byte that would make the line 256 bytes long resets it with one warning and is dropped. */
  lemma FeedOverflow(content: seq<char>, x: char)
    requires |content| == LineBufSize - 1 && x != Cr && x != Lf
    ensures Feed(content, [x]) == Fed([], [Overlong])
  {
    assert [x][1..] == [];
    assert [Overlong] + [] == [Overlong];
  }

  /** What the emits put on the UART. */
  function Render(emits: seq<Emit>, c: Counters): seq<char>
  {
    if emits == [] then [] else RenderOne(emits[0], c) + Render(emits[1..], c)
  }

  function RenderOne(e: Emit, c: Counters): seq<char>
  {
    match e
    case Handled(line) => Reply(CStr(line), c)
    case Overlong => Warning
  }

  lemma {:induction false} RenderAppend(a: seq<Emit>, b: seq<Emit>, c: Counters)
    ensures Render(a + b, c) == Render(a, c) + Render(b, c)
    decreases |a|
  {
    if a == [] {
      assert a + b == b;
    } else {
      assert (a + b)[0] == a[0];
      assert (a + b)[1..] == a[1..] + b;
      RenderAppend(a[1..], b, c);
    }
  }

  /** Feeding one more byte of `data` extends the content and the output accordingly. */
  lemma FeedPrefixStep(content0: seq<char>, data: seq<char>, i: nat, c: Counters)
    requires |content0| < LineBufSize && i < |data|
    ensures var sofar := Feed(content0, data[..i]);
            var step := Feed(sofar.content, [data[i]]);
            Feed(content0, data[..i + 1]).content == step.content
            && Render(Feed(content0, data[..i + 1]).emits, c) == Render(sofar.emits, c) + Render(step.emits, c)
  {
    var sofar := Feed(content0, data[..i]);
    var step := Feed(sofar.content, [data[i]]);
    assert data[..i + 1] == data[..i] + [data[i]];
    FeedConcat(content0, data[..i], [data[i]]);
    RenderAppend(sofar.emits, step.emits, c);
  }

  /** Feeding `data[i..]` is stepping `data[i]` and then feeding the rest. */
  lemma FeedRest(content: seq<char>, data: seq<char>, i: nat, c: Counters)
    requires |content| < LineBufSize && i < |data|
    ensures var step := Step(content, data[i]);
            var rest := Feed(step.content, data[i + 1..]);
            Feed(content, data[i..]).content == rest.content
            && Render(Feed(content, data[i..]).emits, c) == Render(step.emits, c) + Render(rest.emits, c)
  {
    assert data[i..][0] == data[i] && data[i..][1..] == data[i + 1..];
    var step := Step(content, data[i]);
    var rest := Feed(step.content, data[i + 1..]);
    RenderAppend(step.emits, rest.emits, c);
  }

  // ---------------------------------------------------------------------------
  // Driver events

  datatype UartEventType = Data(size: nat) | FifoOvf | BufferFull | FrameErr | ParityErr | OtherEvent

  /** The bytes a data event asks for: at most the 256-byte RX buffer. */
  function ToRead(size: nat): (n: nat)
    ensures n <= RxChunk && n <= size && (n == size || n == RxChunk)
  {
    if size < RxChunk then size else RxChunk
  }

  function Inc(x: nat): nat
  {
    (x + 1) % U32Mod
  }

  /** The counters after one event: its own counter goes up by one (wrapping at 2^32). */
  function Count(c: Counters, e: UartEventType): Counters
  {
    match e
    case FifoOvf => c.(fifoOvf := Inc(c.fifoOvf))
    case BufferFull => c.(bufFull := Inc(c.bufFull))
    case FrameErr => c.(frameErr := Inc(c.frameErr))
    case ParityErr => c.(parityErr := Inc(c.parityErr))
    case _ => c
  }

  function CountAll(c: Counters, es: seq<UartEventType>): Counters
    decreases |es|
  {
    if es == [] then c else CountAll(Count(c, es[0]), es[1..])
  }

  /** How many events of the same kind as `kind` occur in `es`. */
  function Occurrences(es: seq<UartEventType>, kind: UartEventType): nat
  {
    if es == [] then 0 else (if es[0] == kind then 1 else 0) + Occurrences(es[1..], kind)
  }

  /** The error kinds that have a counter. */
  predicate Counted(kind: UartEventType)
  {
    kind == FifoOvf || kind == BufferFull || kind == FrameErr || kind == ParityErr
  }

  /** The counter an error kind is tallied in. */
  function CounterOf(c: Counters, kind: UartEventType): nat
    requires Counted(kind)
  {
    match kind
    case FifoOvf => c.fifoOvf
    case BufferFull => c.bufFull
    case FrameErr => c.frameErr
    case ParityErr => c.parityErr
  }

  /** One event moves its own counter up by one, modulo 2^32, and no other. */
  lemma CountStep(c: Counters, e: UartEventType, kind: UartEventType)
    requires c.Valid() && Counted(kind)
    ensures Count(c, e).Valid()
    ensures CounterOf(Count(c, e), kind) == (CounterOf(c, kind) + (if e == kind then 1 else 0)) % U32Mod
  {
  }

  /** After a run of events one counter has grown, modulo 2^32, by the number of events of
      its own kind. */
  lemma {:induction false} CounterTally(c: Counters, es: seq<UartEventType>, kind: UartEventType)
    requires c.Valid() && Counted(kind)
    ensures CounterOf(CountAll(c, es), kind) == (CounterOf(c, kind) + Occurrences(es, kind)) % U32Mod
    decreases |es|
  {
    if es != [] {
      var c1 := Count(c, es[0]);
      var x := CounterOf(c, kind);
      var d := if es[0] == kind then 1 else 0;
      var more := Occurrences(es[1..], kind);
      CountStep(c, es[0], kind);
      CounterTally(c1, es[1..], kind);
      assert CountAll(c, es) == CountAll(c1, es[1..]);
      assert Occurrences(es, kind) == d + more;
      ModAddU32(x, d, more);
    } else {
      assert CounterOf(c, kind) % U32Mod == CounterOf(c, kind);
    }
  }

  /** After a run of events each counter has grown, modulo 2^32, by the number of events of
      its own kind, and by nothing else. */
  lemma CountersTally(c: Counters, es: seq<UartEventType>)
    requires c.Valid()
    ensures var r := CountAll(c, es);
            r.fifoOvf == (c.fifoOvf + Occurrences(es, FifoOvf)) % U32Mod
            && r.bufFull == (c.bufFull + Occurrences(es, BufferFull)) % U32Mod
            && r.frameErr == (c.frameErr + Occurrences(es, FrameErr)) % U32Mod
            && r.parityErr == (c.parityErr + Occurrences(es, ParityErr)) % U32Mod
  {
    CounterTally(c, es, FifoOvf);
    CounterTally(c, es, BufferFull);
    CounterTally(c, es, FrameErr);
    CounterTally(c, es, ParityErr);
  }

  // ---------------------------------------------------------------------------
  // The RX task

  /** The state of the RX task: its local line buffer, the static error counters, the
      driver's pending input and event queue, and everything written to the UART. */
  class Console {
    const lineBuf: array<char>
    var lineLen: nat
    var counters: Counters
    var rxPending: seq<char>
    var events: seq<UartEventType>
    var out: seq<char>

    ghost predicate Valid()
      reads this, lineBuf
    {
      lineBuf.Length == LineBufSize && lineLen < LineBufSize && counters.Valid()
    }

    function Content(): seq<char>
      requires Valid()
      reads this, lineBuf
    {
      lineBuf[..lineLen]
    }

    constructor (pending: seq<char>, queued: seq<UartEventType>)
      ensures Valid() && lineLen == 0 && counters == Counters(0, 0, 0, 0)
      ensures rxPending == pending && events == queued && out == []
    {
      lineBuf := new char[LineBufSize](_ => Nul);
      lineLen := 0;
      counters := Counters(0, 0, 0, 0);
      rxPending := pending;
      events := queued;
      out := [];
    }

    /** `handle_line` on the NUL-terminated line in the buffer. */
    method HandleLine()
      requires Valid() && lineLen > 0
      modifies this, lineBuf
      ensures Valid() && lineLen == old(lineLen) && Content() == old(Content())
      ensures counters == old(counters) && rxPending == old(rxPending) && events == old(events)
      ensures out == old(out) + Reply(CStr(Content()), counters)
    {
      lineBuf[lineLen] := Nul;
      CStrOfPrefixNul(lineBuf[..lineLen], lineBuf[..]);
      var line := CStr(lineBuf[..]);
      out := out + Reply(line, counters);
    }

    /** One pass of the feeding loop: the byte `c` is stepped as `Step` describes and what
        it emits is written to the UART. */
    method FeedByte(c: char)
      requires Valid()
      modifies this, lineBuf
      ensures Valid() && counters == old(counters) && rxPending == old(rxPending) && events == old(events)
      ensures var s := Step(old(Content()), c);
              Content() == s.content && out == old(out) + Render(s.emits, counters)
    {
      if c == Cr || c == Lf {
        if lineLen > 0 {
          ghost var line := Content();
          HandleLine();
          lineLen := 0;
          assert Render([Handled(line)], counters) == Reply(CStr(line), counters) + [];
        }
      } else if lineLen < LineBufSize - 1 {
        ghost var before := Content();
        lineBuf[lineLen] := c;
        lineLen := lineLen + 1;
        assert Content() == before + [c];
      } else {
        out := out + Warning;
        lineLen := 0;
        assert Render([Overlong], counters) == Warning + [];
      }
    }

    /** `line_accumulator_feed(buf, len, ...)`: nothing for a NULL buffer or a length of zero
        or less; otherwise the first `len` bytes are fed as `Feed` describes and what they
        emit is written to the UART. */
    method FeedBytes(buf: Option<seq<char>>, len: int)
      requires Valid()
      requires buf.Some? ==> len <= |buf.value|
      modifies this, lineBuf
      ensures Valid() && counters == old(counters) && rxPending == old(rxPending) && events == old(events)
      ensures buf.None? || len <= 0 ==> Content() == old(Content()) && out == old(out)
      ensures buf.Some? && len > 0 ==>
                var r := Feed(old(Content()), buf.value[..len]);
                Content() == r.content && out == old(out) + Render(r.emits, counters)
    {
      if buf.None? || len <= 0 {
        return;
      }
      FeedAll(buf.value[..len]);
    }

    /** The feeding loop over bytes that are known to be there. */
    method FeedAll(data: seq<char>)
      requires Valid()
      modifies this, lineBuf
      ensures Valid() && counters == old(counters) && rxPending == old(rxPending) && events == old(events)
      ensures var r := Feed(old(Content()), data);
              Content() == r.content && out == old(out) + Render(r.emits, counters)
    {
      ghost var target := Feed(Content(), data);
      ghost var out0 := out;
      var i := 0;
      while i < |data|
        invariant 0 <= i <= |data| && Valid()
        invariant counters == old(counters) && rxPending == old(rxPending) && events == old(events)
        invariant target.content == Feed(Content(), data[i..]).content
        invariant out0 + Render(target.emits, counters) == out + Render(Feed(Content(), data[i..]).emits, counters)
      {
        ghost var outBefore := out;
        ghost var step := Step(Content(), data[i]);
        FeedRest(Content(), data, i, counters);
        ghost var a := Render(step.emits, counters);
        ghost var b := Render(Feed(step.content, data[i + 1..]).emits, counters);
        FeedByte(data[i]);
        ConcatAssoc(outBefore, a, b);
        i := i + 1;
      }
      assert data[i..] == [];
    }

    /** One pass of `uart_event_task` on the next queued driver event. A data event reads
        up to `ToRead(size)` of the pending bytes and feeds them; an overflow or a full ring
        buffer counts itself, flushes the pending input and drops the queued events; a frame
        or parity error counts itself and flushes the pending input; any other event only
        leaves the queue. */
    method HandleEvent()
      requires Valid() && events != []
      modifies this, lineBuf
      ensures Valid() && counters == Count(old(counters), old(events[0]))
      ensures old(events[0]).Data? ==>
                var n := if ToRead(old(events[0]).size) < |old(rxPending)| then ToRead(old(events[0]).size) else |old(rxPending)|;
                var r := Feed(old(Content()), old(rxPending)[..n]);
                rxPending == old(rxPending)[n..] && events == old(events[1..])
                && Content() == r.content && out == old(out) + Render(r.emits, counters)
      ensures old(events[0]) == FifoOvf || old(events[0]) == BufferFull ==>
                rxPending == [] && events == [] && Content() == old(Content()) && out == old(out)
      ensures old(events[0]) == FrameErr || old(events[0]) == ParityErr ==>
                rxPending == [] && events == old(events[1..]) && Content() == old(Content()) && out == old(out)
      ensures old(events[0]) == OtherEvent ==>
                rxPending == old(rxPending) && events == old(events[1..]) && Content() == old(Content()) && out == old(out)
    {
      var evt := events[0];
      events := events[1..];
      match evt {
        case Data(size) =>
          var toRead := ToRead(size);
          var n := if toRead < |rxPending| then toRead else |rxPending|;
          var rx := rxPending[..n];
          rxPending := rxPending[n..];
          if n > 0 {
            FeedBytes(Some(rx), n);
          }
          assert rx[..n] == rx;
        case FifoOvf =>
          counters := counters.(fifoOvf := Inc(counters.fifoOvf));
          rxPending := [];
          events := [];
        case BufferFull =>
          counters := counters.(bufFull := Inc(counters.bufFull));
          rxPending := [];
          events := [];
        case FrameErr =>
          counters := counters.(frameErr := Inc(counters.frameErr));
          rxPending := [];
        case ParityErr =>
          counters := counters.(parityErr := Inc(counters.parityErr));
          rxPending := [];
        case OtherEvent =>
      }
    }
  }
}
