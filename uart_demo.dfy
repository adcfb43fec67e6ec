/** The newline-delimited command console of the UART reference design: the line
    accumulator, the bounded TX queue that is the only path to the UART, the command
    responses, and the parser step that hands a completed line to the command handler
    and then resets the accumulator. */
module UartDemo {
  import opened Common

  const LineCap: nat := 256
  const TxMsgCap: nat := 256
  const TxQueueLen: nat := 10

  const Cr: char := '\r'
  const Lf: char := '\n'

  // ---------------------------------------------------------------------------
  // The line accumulator, as a function of its content

  /** What `line_acc_push` leaves behind: the accumulated text and whether a line is ready. */
  datatype Fed = Fed(content: seq<char>, ready: bool)

  predicate NoBreaks(s: seq<char>)
  {
    forall k :: 0 <= k < |s| ==> s[k] != Cr && s[k] != Lf
  }

  /** Pushing bytes: a carriage return is skipped, a newline completes the line and stops
      the push, any other byte is appended while the line holds fewer than 255 bytes, and
      the byte that would overflow resets the line and is itself dropped. */
  function Feed(content: seq<char>, data: seq<char>): (r: Fed)
    requires |content| < LineCap
    ensures |r.content| < LineCap
    ensures NoBreaks(content) ==> NoBreaks(r.content)
    decreases |data|
  {
    if data == [] then Fed(content, false)
    else if data[0] == Cr then Feed(content, data[1..])
    else if data[0] == Lf then Fed(content, true)
    else if |content| < LineCap - 1 then Feed(content + [data[0]], data[1..])
    else Feed([], data[1..])
  }

  /** The bytes of `s` other than carriage returns. */
  function StripCr(s: seq<char>): seq<char>
  {
    if s == [] then [] else (if s[0] == Cr then [] else [s[0]]) + StripCr(s[1..])
  }

  /** A push that meets a newline before the line fills up completes exactly the bytes
      before the newline, carriage returns removed; whatever follows the newline is not looked at. */
  lemma {:induction false} FeedCompletesLine(content: seq<char>, before: seq<char>, after: seq<char>)
    requires |content| + |StripCr(before)| < LineCap
    requires forall k :: 0 <= k < |before| ==> before[k] != Lf
    ensures Feed(content, before + [Lf] + after) == Fed(content + StripCr(before), true)
    decreases |before|
  {
    if before == [] {
      assert [] + [Lf] + after == [Lf] + after;
    } else {
      assert (before + [Lf] + after)[1..] == before[1..] + [Lf] + after;
      if before[0] == Cr {
        FeedCompletesLine(content, before[1..], after);
      } else {
        assert StripCr(before) == [before[0]] + StripCr(before[1..]);
        FeedCompletesLine(content + [before[0]], before[1..], after);
        assert content + [before[0]] + StripCr(before[1..]) == content + StripCr(before);
      }
    }
  }

  /** Without a newline and without overflow, a push reports no line and keeps everything
      it received (carriage returns removed) for the next push. */
  lemma {:induction false} FeedKeepsPartialLine(content: seq<char>, data: seq<char>)
    requires |content| + |StripCr(data)| < LineCap
    requires forall k :: 0 <= k < |data| ==> data[k] != Lf
    ensures Feed(content, data) == Fed(content + StripCr(data), false)
    decreases |data|
  {
    if data != [] {
      if data[0] == Cr {
        FeedKeepsPartialLine(content, data[1..]);
      } else {
        assert StripCr(data) == [data[0]] + StripCr(data[1..]);
        FeedKeepsPartialLine(content + [data[0]], data[1..]);
        assert content + [data[0]] + StripCr(data[1..]) == content + StripCr(data);
      }
    }
  }

  /** Two pushes act as one push of both chunks, as long as the first completes no line. */
  lemma {:induction false} FeedInTwoPushes(content: seq<char>, a: seq<char>, b: seq<char>)
    requires |content| < LineCap
    ensures var first := Feed(content, a);
            Feed(content, a + b) == if first.ready then first else Feed(first.content, b)
    decreases |a|
  {
    if a == [] {
      assert a + b == b;
    } else {
      assert (a + b)[0] == a[0];
      assert (a + b)[1..] == a[1..] + b;
      if a[0] == Cr {
        FeedInTwoPushes(content, a[1..], b);
      } else if a[0] != Lf {
        if |content| < LineCap - 1 {
          FeedInTwoPushes(content + [a[0]], a[1..], b);
        } else {
          FeedInTwoPushes([], a[1..], b);
        }
      }
    }
  }

  /** The byte that would make the line 256 bytes long resets it and is not kept. */
  lemma FeedOverflowResets(content: seq<char>, x: char)
    requires |content| == LineCap - 1 && x != Cr && x != Lf
    ensures Feed(content, [x]) == Fed([], false)
  {
    assert [x][1..] == [];
  }

  // ---------------------------------------------------------------------------
  // The accumulator object

  /** `line_acc_t`: a 256-byte line buffer and the number of bytes in it. */
  class LineAcc {
    const line: array<char>
    var len: nat

    ghost predicate Valid()
      reads this, line
    {
      line.Length == LineCap && len < LineCap
    }

    function Content(): seq<char>
      requires Valid()
      reads this, line
    {
      line[..len]
    }

    /** A stack-allocated accumulator after `line_acc_reset`. */
    constructor ()
      ensures Valid() && len == 0 && line[0] == Nul
    {
      line := new char[LineCap](_ => Nul);
      len := 0;
    }

    /** `line_acc_reset`: empty, with a NUL in the first byte. */
    method Reset()
      requires Valid()
      modifies this, line
      ensures Valid() && len == 0 && line[0] == Nul
    {
      len := 0;
      line[0] := Nul;
    }

    /** `line_acc_push`: the new content and the result are those of `Feed`; a completed
        line is NUL-terminated in the buffer. */
    method Push(data: seq<char>) returns (ready: bool)
      requires Valid()
      modifies this, line
      ensures Valid()
      ensures Fed(Content(), ready) == Feed(old(Content()), data)
      ensures ready ==> line[len] == Nul
    {
      ghost var target := Feed(line[..len], data);
      var i := 0;
      while i < |data|
        invariant 0 <= i <= |data| && Valid()
        invariant target == Feed(line[..len], data[i..])
      {
        assert data[i..][1..] == data[i + 1..];
        var c := data[i];
        if c == Cr {
          i := i + 1;
          continue;
        }
        if c == Lf {
          line[len] := Nul;
          return true;
        }
        if len < LineCap - 1 {
          ghost var before := line[..len];
          line[len] := c;
          len := len + 1;
          assert line[..len] == before + [c];
        } else {
          Reset();
        }
        i := i + 1;
      }
      return false;
    }
  }

  // ---------------------------------------------------------------------------
  // The TX queue and the command handler

  /** A queued UART message: its length and bytes. */
  datatype TxMsg = TxMsg(len: nat, data: seq<char>)

  /** The TX queue of ten messages, drained only by the TX task. */
  class TxQueue {
    var msgs: seq<TxMsg>

    constructor ()
      ensures msgs == []
    {
      msgs := [];
    }

    /** `tx_send_str`: an empty string succeeds without queuing; a string of 256 bytes or
        more fails without queuing; otherwise its bytes are queued if the queue has room
        (a full queue makes the send time out). */
    method SendStr(s: seq<char>) returns (ok: bool)
      modifies this
      ensures var n := |CStr(s)|;
              (n == 0 ==> ok && msgs == old(msgs))
              && (n >= TxMsgCap ==> !ok && msgs == old(msgs))
              && (0 < n < TxMsgCap ==>
                    ok == (|old(msgs)| < TxQueueLen)
                    && msgs == if ok then old(msgs) + [TxMsg(n, CStr(s))] else old(msgs))
    {
      var text := CStr(s);
      var n := |text|;
      if n == 0 {
        return true;
      }
      if n >= TxMsgCap {
        return false;
      }
      if |msgs| >= TxQueueLen {
        return false;
      }
      msgs := msgs + [TxMsg(n, text)];
      return true;
    }
  }

  /** The reply to a command line; `uptimeMs` is the tick count in milliseconds, truncated
      to 32 bits. */
  function Response(line: seq<char>, uptimeMs: nat): seq<char>
  {
    if line == "PING" then "PONG\n"
    else if line == "VERSION" then "ESP32S3_UART_REF v1\n"
    else if line == "UPTIME" then "UPTIME_MS " + Decimal(uptimeMs % U32Mod) + "\n"
    else "ERR UNKNOWN_CMD\n"
  }

  /** Every reply is a newline-terminated C string short enough for one TX message. */
  lemma ResponseFits(line: seq<char>, uptimeMs: nat)
    ensures var r := Response(line, uptimeMs);
            0 < |r| < TxMsgCap && r[|r| - 1] == Lf && CStr(r) == r
  {
    var r := Response(line, uptimeMs);
    if line == "UPTIME" {
      UptimeReply(uptimeMs);
    } else {
      CStrOfPlain(r);
    }
  }

  /** The uptime text around a string of digits: where the digits sit, and that it holds
      no NUL. */
  lemma UptimeText(d: seq<char>)
    requires |d| >= 1 && forall k :: 0 <= k < |d| ==> IsDigit(d[k])
    ensures var r := "UPTIME_MS " + d + "\n";
            |r| == |d| + 11 && r[..10] == "UPTIME_MS " && r[|r| - 1] == Lf && r[10..|r| - 1] == d
            && (forall k :: 10 <= k < |r| - 1 ==> IsDigit(r[k]))
            && CStr(r) == r
  {
    var r := "UPTIME_MS " + d + "\n";
    assert r[10..|r| - 1] == d;
    assert forall k :: 10 <= k < |r| - 1 ==> r[k] == d[k - 10];
    assert forall k :: 0 <= k < |r| ==> r[k] != Nul by {
      forall k | 0 <= k < |r|
        ensures r[k] != Nul
      {
        if 10 <= k < |r| - 1 {
          assert r[k] == d[k - 10];
        }
      }
    }
    CStrOfPlain(r);
  }

  /** The uptime reply is "UPTIME_MS ", the uptime truncated to 32 bits in decimal, and a
      newline, and it fits in one TX message. */
  lemma UptimeReply(uptimeMs: nat)
    ensures var r := Response("UPTIME", uptimeMs);
            10 < |r| < TxMsgCap && r[..10] == "UPTIME_MS " && r[|r| - 1] == Lf && CStr(r) == r
            && (forall k :: 10 <= k < |r| - 1 ==> IsDigit(r[k]))
            && DecimalValue(r[10..|r| - 1]) == uptimeMs % U32Mod
  {
    var ms := uptimeMs % U32Mod;
    U32DecimalLength(ms);
    DecimalRoundTrip(ms);
    var d := Decimal(ms);
    assert Response("UPTIME", uptimeMs) == "UPTIME_MS " + d + "\n";
    UptimeText(d);
  }

  /** `handle_line`: queues the reply to the C string in `line`. */
  method HandleLine(q: TxQueue, line: seq<char>, uptimeMs: nat)
    modifies q
    ensures var r := Response(CStr(line), uptimeMs);
            q.msgs == if |old(q.msgs)| < TxQueueLen then old(q.msgs) + [TxMsg(|r|, r)] else old(q.msgs)
  {
    var r := Response(CStr(line), uptimeMs);
    ResponseFits(CStr(line), uptimeMs);
    var _ := q.SendStr(r);
  }

  /** What one read of the parser task does, as a function: the lines handed to the command
      handler and the accumulator content left for the next read. */
  function ParserStepSpec(content: seq<char>, chunk: seq<char>): (seq<seq<char>>, seq<char>)
    requires |content| < LineCap
  {
    var fed := Feed(content, chunk);
    if fed.ready then ([CStr(fed.content)], []) else ([], fed.content)
  }

  /** One iteration of `uart_parser_task` on a chunk it received: push, and on a completed
      line handle it and reset the accumulator. */
  method ParserStep(acc: LineAcc, q: TxQueue, chunk: seq<char>, uptimeMs: nat)
    requires acc.Valid()
    modifies acc, acc.line, q
    ensures acc.Valid()
    ensures var (lines, content) := ParserStepSpec(old(acc.Content()), chunk);
            acc.Content() == content
            && (lines == [] ==> q.msgs == old(q.msgs))
            && (lines != [] ==> var r := Response(lines[0], uptimeMs);
                 q.msgs == if |old(q.msgs)| < TxQueueLen then old(q.msgs) + [TxMsg(|r|, r)] else old(q.msgs))
  {
    var ready := acc.Push(chunk);
    if ready {
      assert acc.line[..acc.len + 1] == acc.Content() + [Nul];
      assert CStr(acc.line[..]) == CStr(acc.Content()) by {
        CStrOfPrefixNul(acc.Content(), acc.line[..]);
      }
      HandleLine(q, acc.line[..], uptimeMs);
      acc.Reset();
    }
  }

  /** Two commands that arrive in one read produce one reply: the push stops at the first
      newline and the reset that follows discards the second command. */
  lemma SecondCommandInSameReadIsLost()
    ensures ParserStepSpec([], "PING\nPING\n") == (["PING"], [])
  {
    assert "PING\nPING\n" == "PING" + [Lf] + "PING\n";
    FeedCompletesLine([], "PING", "PING\n");
    assert StripCr("PING") == "PING";
    CStrOfPlain("PING");
  }

  /** A command split over two reads is kept after the first and handled once, when its
      newline arrives with the second. */
  lemma CommandSplitFirstRead()
    ensures ParserStepSpec([], "PI") == ([], "PI")
  {
    assert "PI"[1..] == "I" && "I"[1..] == [];
    assert Feed([], "PI") == Feed("P", "I") == Feed("PI", []);
  }

  lemma CommandSplitSecondRead()
    ensures ParserStepSpec("PI", "NG\r\n") == (["PING"], [])
  {
    assert "NG\r\n"[1..] == "G\r\n" && "G\r\n"[1..] == "\r\n" && "\r\n"[1..] == "\n";
    assert Feed("PI", "NG\r\n") == Feed("PIN", "G\r\n") == Feed("PING", "\r\n") == Feed("PING", "\n");
    CStrOfPlain("PING");
  }
}
