/** The ESP-NOW demo: MAC address text (parsing with `%2x` fields and printing with
    `%02X`), the 8-byte application packet, the receive callback's filtering into the RX
    queue, the sender's packet numbering and the peer-list decision. */
module EspNow {
  import opened Common

  const MacLen: nat := 6
  const MacTextLen: nat := 17
  const PacketLen: nat := 8
  const RxQueueLen: nat := 16

  // ---------------------------------------------------------------------------
  // MAC text

  /** White space as `isspace` sees it, skipped by `%x` before its digits. */
  predicate IsSpace(c: char)
  {
    c == ' ' || c == '\t' || c == '\n' || c == 11 as char || c == 12 as char || c == '\r'
  }

  function SkipSpace(s: seq<char>): (t: seq<char>)
    ensures |t| <= |s| && (t != [] ==> !IsSpace(t[0]))
  {
    if s != [] && IsSpace(s[0]) then SkipSpace(s[1..]) else s
  }

  /** One `%2x` conversion: optional white space, then one or two hexadecimal digits of
      either case; the value and the text after it, or None when no digit is there. */
  function ScanHex2(s: seq<char>): (r: Option<(bv8, seq<char>)>)
    ensures r.Some? ==> |r.value.1| < |s|
  {
    var t := SkipSpace(s);
    if t == [] || HexValue(t[0]).None? then None
    else if |t| >= 2 && HexValue(t[1]).Some? then
      Some((HexValue(t[0]).value * 16 + HexValue(t[1]).value, t[2..]))
    else Some((HexValue(t[0]).value, t[1..]))
  }

  /** `k` conversions separated by literal colons; text after the last one is ignored. */
  function ScanFields(s: seq<char>, k: nat): (r: Option<seq<bv8>>)
    requires k >= 1
    ensures r.Some? ==> |r.value| == k
    decreases k
  {
    match ScanHex2(s)
    case None => None
    case Some((v, rest)) =>
      if k == 1 then Some([v])
      else if rest == [] || rest[0] != ':' then None
      else match ScanFields(rest[1..], k - 1)
           case None => None
           case Some(vs) => Some([v] + vs)
  }

  /** `sscanf(mac_str, "%2x:%2x:%2x:%2x:%2x:%2x", ...) == 6` on the C string `text`. */
  function ParseMac(text: seq<char>): (r: Option<seq<bv8>>)
    ensures r.Some? ==> |r.value| == MacLen
  {
    ScanFields(CStr(text), MacLen)
  }

  /** Bytes as `%02X` fields separated by colons. */
  function FieldsText(m: seq<bv8>): (s: seq<char>)
    requires |m| >= 1
    ensures |s| == 3 * |m| - 1
  {
    if |m| == 1 then Hex2(m[0]) else Hex2(m[0]) + ":" + FieldsText(m[1..])
  }

  /** The `mac_to_str` text of a MAC address. */
  function MacText(m: seq<bv8>): (s: seq<char>)
    requires |m| == MacLen
    ensures |s| == MacTextLen
  {
    FieldsText(m)
  }

  lemma NibblesJoin(b: bv8)
    ensures (b >> 4) * 16 + (b & 0xF) == b
  {
  }

  /** A `%02X` field scans back to its byte, and the scan stops right after it. */
  lemma ScanHex2OfHex2(b: bv8, tail: seq<char>)
    ensures ScanHex2(Hex2(b) + tail) == Some((b, tail))
  {
    var s := Hex2(b) + tail;
    HexValueOfUpper(b >> 4);
    HexValueOfUpper(b & 0xF);
    assert s[0] == UpperHexDigit(b >> 4) && s[1] == UpperHexDigit(b & 0xF);
    assert SkipSpace(s) == s;
    assert s[2..] == tail;
    NibblesJoin(b);
  }

  /** How `ScanFields` continues once its first field has scanned. */
  lemma ScanFieldsStep(s: seq<char>, k: nat, v: bv8, rest: seq<char>)
    requires k >= 2 && ScanHex2(s) == Some((v, rest))
    ensures rest == [] || rest[0] != ':' ==> ScanFields(s, k) == None
    ensures rest != [] && rest[0] == ':' ==>
              ScanFields(s, k) == match ScanFields(rest[1..], k - 1)
                                  case None => None
                                  case Some(vs) => Some([v] + vs)
  {
  }

  lemma {:induction false} ScanFieldsOfText(m: seq<bv8>, tail: seq<char>)
    requires |m| >= 1
    ensures ScanFields(FieldsText(m) + tail, |m|) == Some(m)
    decreases |m|
  {
    if |m| == 1 {
      ScanHex2OfHex2(m[0], tail);
      assert FieldsText(m) + tail == Hex2(m[0]) + tail;
      assert [m[0]] == m;
    } else {
      var rest := ":" + (FieldsText(m[1..]) + tail);
      assert FieldsText(m) + tail == Hex2(m[0]) + rest;
      ScanHex2OfHex2(m[0], rest);
      assert rest[0] == ':' && rest[1..] == FieldsText(m[1..]) + tail;
      ScanFieldsOfText(m[1..], tail);
      ScanFieldsStep(FieldsText(m) + tail, |m|, m[0], rest);
      assert [m[0]] + m[1..] == m;
    }
  }

  lemma FieldsTextHasNoNul(m: seq<bv8>)
    requires |m| >= 1
    ensures forall k :: 0 <= k < |FieldsText(m)| ==> FieldsText(m)[k] != Nul
    decreases |m|
  {
    if |m| > 1 {
      FieldsTextHasNoNul(m[1..]);
    }
  }

  /** Parsing what `mac_to_str` prints gives the address back, whatever follows its NUL. */
  lemma MacRoundTrip(m: seq<bv8>, after: seq<char>)
    requires |m| == MacLen
    ensures ParseMac(MacText(m) + [Nul] + after) == Some(m)
  {
    FieldsTextHasNoNul(m);
    CStrOfPrefixNul(MacText(m), MacText(m) + [Nul] + after);
    CStrOfPlain(MacText(m));
    ScanFieldsOfText(m, []);
    assert MacText(m) + [] == MacText(m);
  }

  /** Text is refused when it is empty, when a field has no digit, or when a field is
      followed by anything but a colon. */
  lemma ParseMacRejects(s: seq<char>, k: nat)
    requires k >= 2
    ensures ParseMac([]) == None
    ensures ScanHex2(s).None? ==> ScanFields(s, k) == None
    ensures ScanHex2(s).Some? && (ScanHex2(s).value.1 == [] || ScanHex2(s).value.1[0] != ':')
            ==> ScanFields(s, k) == None
  {
    if ScanHex2(s).Some? {
      ScanFieldsStep(s, k, ScanHex2(s).value.0, ScanHex2(s).value.1);
    }
  }

  /** `parse_mac_str(mac_str, out_mac)`: false for a NULL argument or text that does not scan
      as six fields, leaving `out_mac` alone; otherwise the six bytes are stored. */
  method ParseMacStr(macStr: Option<seq<char>>, outMac: array?<bv8>) returns (ok: bool)
    requires outMac != null ==> outMac.Length >= MacLen
    modifies outMac
    ensures ok <==> macStr.Some? && outMac != null && ParseMac(macStr.value).Some?
    ensures ok ==> outMac[..MacLen] == ParseMac(macStr.value).value
                   && outMac[MacLen..] == old(outMac[MacLen..])
    ensures !ok && outMac != null ==> outMac[..] == old(outMac[..])
  {
    if macStr.None? || outMac == null {
      return false;
    }
    var b := ParseMac(macStr.value);
    if b.None? {
      return false;
    }
    var i := 0;
    while i < MacLen
      invariant 0 <= i <= MacLen
      invariant outMac[..i] == b.value[..i]
      invariant outMac[MacLen..] == old(outMac[MacLen..])
    {
      outMac[i] := b.value[i];
      i := i + 1;
    }
    return true;
  }

  /** `mac_to_str(mac, out, out_len)`: nothing for a NULL argument or a buffer shorter than
      18; otherwise the 17 characters and a NUL. */
  method MacToStr(mac: Option<seq<bv8>>, out: array?<char>, outLen: nat)
    requires mac.Some? ==> |mac.value| == MacLen
    requires out != null ==> outLen <= out.Length
    modifies out
    ensures mac.None? || out == null || outLen < MacTextLen + 1 ==> out == null || out[..] == old(out[..])
    ensures mac.Some? && out != null && outLen >= MacTextLen + 1 ==>
              out[..MacTextLen + 1] == MacText(mac.value) + [Nul]
              && out[MacTextLen + 1..] == old(out[MacTextLen + 1..])
  {
    if mac.None? || out == null || outLen < MacTextLen + 1 {
      return;
    }
    var text := MacText(mac.value) + [Nul];
    var i := 0;
    while i < MacTextLen + 1
      invariant 0 <= i <= MacTextLen + 1
      invariant out[..i] == text[..i]
      invariant out[MacTextLen + 1..] == old(out[MacTextLen + 1..])
    {
      out[i] := text[i];
      i := i + 1;
    }
  }

  // ---------------------------------------------------------------------------
  // The application packet

  /** `app_packet_t`: version, message type, sequence number and counter. */
  datatype Packet = Packet(version: bv8, msgType: bv8, seqNo: bv16, counter: bv32)

  /** The packet's bytes as they lie in memory (little-endian, no padding). */
  function EncodePacket(p: Packet): (b: seq<bv8>)
    ensures |b| == PacketLen
  {
    [p.version, p.msgType] + Le16(p.seqNo) + Le32(p.counter)
  }

  function DecodePacket(b: seq<bv8>): Packet
    requires |b| >= PacketLen
  {
    Packet(b[0], b[1], FromLe16(b[2..4]), FromLe32(b[4..8]))
  }

  /** A packet copied out of its own bytes is the packet. */
  lemma PacketRoundTrip(p: Packet)
    ensures DecodePacket(EncodePacket(p)) == p
  {
    var b := EncodePacket(p);
    assert b[2..4] == Le16(p.seqNo);
    assert b[4..8] == Le32(p.counter);
    Le16Decode(p.seqNo);
    Le32Decode(p.counter);
  }

  /** Every 8 bytes are the encoding of the packet they decode to. */
  lemma PacketBytesRoundTrip(b: seq<bv8>)
    requires |b| == PacketLen
    ensures EncodePacket(DecodePacket(b)) == b
  {
    Le16Encode(b[2..4]);
    Le32Encode(b[4..8]);
    assert b == [b[0], b[1]] + b[2..4] + b[4..8];
  }

  /** `rx_item_t`: source address, frame length and the packet. */
  datatype RxItem = RxItem(srcMac: seq<bv8>, len: int, pkt: Packet)

  /** What the receive callback queues for a frame, or None when it drops the frame. */
  function Accepted(srcMac: Option<seq<bv8>>, data: Option<seq<bv8>>, len: int): (r: Option<RxItem>)
    requires data.Some? ==> len <= |data.value|
    ensures r.Some? <==> srcMac.Some? && data.Some? && len >= PacketLen
    ensures r.Some? ==> r.value.srcMac == srcMac.value && r.value.len == len
  {
    if srcMac.None? || data.None? || len <= 0 then None
    else if len < PacketLen then None
    else Some(RxItem(srcMac.value, len, DecodePacket(data.value[..PacketLen])))
  }

  /** A frame holding the bytes of a packet is queued with that packet. */
  lemma SentPacketArrives(src: seq<bv8>, p: Packet, extra: seq<bv8>)
    ensures var data := EncodePacket(p) + extra;
            Accepted(Some(src), Some(data), |data|) == Some(RxItem(src, |data|, p))
  {
    var data := EncodePacket(p) + extra;
    assert data[..PacketLen] == EncodePacket(p);
    PacketRoundTrip(p);
  }

  /** A peer-list entry: the channel and interface it was added with, unencrypted. */
  datatype PeerInfo = PeerInfo(channel: bv8, encrypt: bool)

  /** `espnow_config_peer`: an address already in the list gives ESP_OK and changes nothing;
      otherwise the outcome of adding it (`addResult`, an input) is returned and on success
      the peer is in the list. */
  function ConfigPeer(peers: map<seq<bv8>, PeerInfo>, mac: seq<bv8>, channel: bv8, addResult: EspErr)
    : (r: (EspErr, map<seq<bv8>, PeerInfo>))
    ensures mac in peers ==> r == (EspOk, peers)
    ensures mac !in peers ==> r.0 == addResult
                              && r.1 == if addResult == EspOk then peers[mac := PeerInfo(channel, false)] else peers
  {
    if mac in peers then (EspOk, peers)
    else if addResult == EspOk then (EspOk, peers[mac := PeerInfo(channel, false)])
    else (addResult, peers)
  }

  /** Configuring a peer a second time changes nothing and succeeds, whatever adding would return. */
  lemma ConfigPeerIdempotent(peers: map<seq<bv8>, PeerInfo>, mac: seq<bv8>, channel: bv8, addResult: EspErr, again: EspErr)
    requires ConfigPeer(peers, mac, channel, addResult).0 == EspOk
    ensures var once := ConfigPeer(peers, mac, channel, addResult).1;
            mac in once && ConfigPeer(once, mac, channel, again) == (EspOk, once)
  {
  }

  // ---------------------------------------------------------------------------
  // The node

  /** The state the callbacks and the sender share: the RX queue (absent until created),
      the sequence number, the sender's counter, the packets handed to `esp_now_send` (each
      sent as its `EncodePacket` bytes), and the peer list. */
  class Node {
    var rxQueue: Option<seq<RxItem>>
    var seqNo: bv16
    var counter: bv32
    var sent: seq<Packet>
    var peers: map<seq<bv8>, PeerInfo>

    constructor ()
      ensures rxQueue == None && seqNo == 0 && counter == 0 && sent == [] && peers == map[]
    {
      rxQueue := None;
      seqNo := 0;
      counter := 0;
      sent := [];
      peers := map[];
    }

    /** `xQueueCreate(RX_QUEUE_LEN, ...)` succeeding. */
    method CreateRxQueue()
      modifies this
      ensures rxQueue == Some([]) && seqNo == old(seqNo) && counter == old(counter)
      ensures sent == old(sent) && peers == old(peers)
    {
      rxQueue := Some([]);
    }

    /** `espnow_recv_cb`: queues what `Accepted` yields, if the queue exists and has room. */
    method Receive(srcMac: Option<seq<bv8>>, data: Option<seq<bv8>>, len: int)
      requires data.Some? ==> len <= |data.value|
      modifies this
      ensures seqNo == old(seqNo) && counter == old(counter) && sent == old(sent) && peers == old(peers)
      ensures var item := Accepted(srcMac, data, len);
              rxQueue == if item.Some? && old(rxQueue).Some? && |old(rxQueue).value| < RxQueueLen
                         then Some(old(rxQueue).value + [item.value]) else old(rxQueue)
    {
      if srcMac.None? || data.None? || len <= 0 {
        return;
      }
      if len < PacketLen {
        return;
      }
      var item := RxItem(srcMac.value, len, DecodePacket(data.value[..PacketLen]));
      if rxQueue.Some? && |rxQueue.value| < RxQueueLen {
        rxQueue := Some(rxQueue.value + [item]);
      }
    }

    /** One pass of `sender_task`: a version-1, type-1 packet numbered with the current
        sequence number and counter is handed to `esp_now_send`, and both advance by one
        (wrapping at their widths). */
    method SendNext()
      modifies this
      ensures sent == old(sent) + [Packet(1, 1, old(seqNo), old(counter))]
      ensures seqNo == old(seqNo) + 1 && counter == old(counter) + 1
      ensures rxQueue == old(rxQueue) && peers == old(peers)
    {
      var pkt := Packet(1, 1, seqNo, counter);
      seqNo := seqNo + 1;
      counter := counter + 1;
      sent := sent + [pkt];
    }

    /** `k` passes of the sender loop. */
    method SendMany(k: nat)
      modifies this
      ensures sent == old(sent) + SenderPackets(old(seqNo), old(counter), k)
      ensures seqNo == Advance16(old(seqNo), k) && counter == Advance32(old(counter), k)
      ensures rxQueue == old(rxQueue) && peers == old(peers)
    {
      var i := 0;
      while i < k
        invariant 0 <= i <= k
        invariant old(sent) + SenderPackets(old(seqNo), old(counter), k) == sent + SenderPackets(seqNo, counter, k - i)
        invariant Advance16(old(seqNo), k) == Advance16(seqNo, k - i)
        invariant Advance32(old(counter), k) == Advance32(counter, k - i)
        invariant rxQueue == old(rxQueue) && peers == old(peers)
      {
        ghost var before := sent;
        ghost var frame := Packet(1, 1, seqNo, counter);
        ghost var later := SenderPackets(seqNo + 1, counter + 1, k - i - 1);
        SendNext();
        ConcatAssoc(before, [frame], later);
        i := i + 1;
      }
    }

    /** `espnow_config_peer` on the node's peer list. */
    method ConfigurePeer(mac: seq<bv8>, channel: bv8, addResult: EspErr) returns (err: EspErr)
      modifies this
      ensures (err, peers) == ConfigPeer(old(peers), mac, channel, addResult)
      ensures rxQueue == old(rxQueue) && seqNo == old(seqNo) && counter == old(counter) && sent == old(sent)
    {
      if mac in peers {
        return EspOk;
      }
      err := addResult;
      if err == EspOk {
        peers := peers[mac := PeerInfo(channel, false)];
      }
    }
  }

  /** The packets of `k` sender passes starting from sequence number `s` and counter `c`. */
  function SenderPackets(s: bv16, c: bv32, k: nat): (r: seq<Packet>)
    ensures |r| == k
    decreases k
  {
    if k == 0 then [] else [Packet(1, 1, s, c)] + SenderPackets(s + 1, c + 1, k - 1)
  }

  /** A value advanced `k` times by one, wrapping like the firmware's integers. */
  function Advance16(x: bv16, k: nat): bv16
    decreases k
  {
    if k == 0 then x else Advance16(x + 1, k - 1)
  }

  function Advance32(x: bv32, k: nat): bv32
    decreases k
  {
    if k == 0 then x else Advance32(x + 1, k - 1)
  }

  /** The sender starts with a version-1, type-1 packet carrying the current sequence
      number and counter. */
  lemma FirstPacket(s: bv16, c: bv32, k: nat)
    requires k > 0
    ensures SenderPackets(s, c, k)[0] == Packet(1, 1, s, c)
  {
  }

  /** Consecutive packets are version-1, type-1 packets with consecutive sequence numbers
      and counters, wrapping at 2^16 and 2^32, so sequence number 0xFFFF is followed by 0. */
  lemma {:induction false} ConsecutivePackets(s: bv16, c: bv32, k: nat, i: nat)
    requires i + 1 < k
    ensures var p := SenderPackets(s, c, k)[i];
            var q := SenderPackets(s, c, k)[i + 1];
            q.seqNo == p.seqNo + 1 && q.counter == p.counter + 1
            && q.version == 1 && q.msgType == 1
            && (p.seqNo == 0xFFFF ==> q.seqNo == 0)
    decreases i
  {
    var rest := SenderPackets(s + 1, c + 1, k - 1);
    assert SenderPackets(s, c, k)[i + 1] == rest[i];
    if i > 0 {
      ConsecutivePackets(s + 1, c + 1, k - 1, i - 1);
      assert SenderPackets(s, c, k)[i] == rest[i - 1];
    }
  }
}
