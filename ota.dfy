/** The OTA decision engine of the secure-boot reference: HTTPS host parsing, the
    maintenance-window rule, the two-sample button debounce, the cloud trigger, the
    certificate check before a download, and one cycle of the gated decision loop.
    The clock, the GPIO level, HTTP, DNS/TCP and the OTA download itself are inputs. */
module Ota {
  import opened Common

  const Nul: char := 0 as char

  // ---------------------------------------------------------------------------
  // Substring search (`strstr`, `strchr`) over the text of a C string

  predicate OccursAt(s: seq<char>, i: int, pat: seq<char>)
  {
    0 <= i && i + |pat| <= |s| && s[i..i + |pat|] == pat
  }

  function FindFrom(s: seq<char>, pat: seq<char>, k: nat): (r: Option<nat>)
    requires k <= |s|
    ensures r.Some? ==> k <= r.value && OccursAt(s, r.value, pat)
    ensures r.Some? ==> forall j :: k <= j < r.value ==> !OccursAt(s, j, pat)
    ensures r.None? ==> forall j :: k <= j ==> !OccursAt(s, j, pat)
    decreases |s| - k
  {
    if OccursAt(s, k, pat) then Some(k)
    else if k == |s| then None
    else FindFrom(s, pat, k + 1)
  }

  /** The first position at which `pat` occurs in `s`, or None when it occurs nowhere. */
  function FindFirst(s: seq<char>, pat: seq<char>): (r: Option<nat>)
    ensures r.Some? ==> OccursAt(s, r.value, pat) && forall j :: 0 <= j < r.value ==> !OccursAt(s, j, pat)
    ensures r.None? ==> forall j :: 0 <= j ==> !OccursAt(s, j, pat)
  {
    FindFrom(s, pat, 0)
  }

  lemma FirstIsUnique(s: seq<char>, pat: seq<char>, i: nat)
    requires OccursAt(s, i, pat) && forall j :: 0 <= j < i ==> !OccursAt(s, j, pat)
    ensures FindFirst(s, pat) == Some(i)
  {
  }

  lemma SlashAt(s: seq<char>, j: int)
    requires 0 <= j < |s|
    ensures OccursAt(s, j, "/") <==> s[j] == '/'
  {
    if s[j] == '/' {
      assert s[j..j + 1] == "/";
    }
  }

  // ---------------------------------------------------------------------------
  // parse_https_host

  const Scheme: seq<char> := "https://"

  /** The size of the host buffer the network check passes. */
  const HostBufLen: nat := 128

  /** The host of an HTTPS URL as the firmware extracts it, for an output buffer of `cap`
      bytes: the text after the first occurrence of "https://" anywhere in the URL, up to
      the next '/' or the end. None when the scheme is missing, the host is empty, or the
      host and its terminating NUL do not fit the buffer. */
  function HttpsHost(url: seq<char>, cap: nat): (r: Option<seq<char>>)
    ensures r.Some? ==> 0 < |r.value| < cap && forall k :: 0 <= k < |r.value| ==> r.value[k] != '/'
    ensures r.Some? ==> exists i :: OccursAt(url, i, Scheme) && OccursAt(url, i + |Scheme|, r.value)
  {
    match FindFirst(url, Scheme)
    case None => None
    case Some(i) =>
      var rest := url[i + |Scheme|..];
      var hostLen := match FindFirst(rest, "/") case Some(j) => j case None => |rest|;
      if hostLen == 0 || hostLen >= cap then None
      else
        assert forall k :: 0 <= k < hostLen ==> rest[k] != '/' by {
          forall k | 0 <= k < hostLen ensures rest[k] != '/' {
            SlashAt(rest, k);
          }
        }
        assert url[i + |Scheme|..i + |Scheme| + hostLen] == rest[..hostLen];
        Some(rest[..hostLen])
  }

  /** Without an occurrence of "https://" there is no host. */
  lemma NoSchemeNoHost(url: seq<char>, cap: nat)
    requires forall i :: 0 <= i ==> !OccursAt(url, i, Scheme)
    ensures HttpsHost(url, cap) == None
  {
  }

  /** Completeness: in `pre + "https://" + host + rest`, with no earlier "https://", a host
      free of '/' followed by the end or a '/' is extracted exactly when it is non-empty and
      shorter than the buffer. The scheme need not start the URL. */
  lemma {:induction false} HostOfUrl(pre: seq<char>, host: seq<char>, rest: seq<char>, cap: nat)
    requires forall j :: 0 <= j < |pre| ==> !OccursAt(pre + Scheme + host + rest, j, Scheme)
    requires forall k :: 0 <= k < |host| ==> host[k] != '/'
    requires rest == [] || rest[0] == '/'
    ensures HttpsHost(pre + Scheme + host + rest, cap) == if 0 < |host| < cap then Some(host) else None
  {
    var url := pre + Scheme + host + rest;
    assert url[|pre|..|pre| + |Scheme|] == Scheme;
    FirstIsUnique(url, Scheme, |pre|);
    var tail := url[|pre| + |Scheme|..];
    assert tail == host + rest;
    forall j | 0 <= j < |host| ensures !OccursAt(tail, j, "/") {
      SlashAt(tail, j);
    }
    if rest != [] {
      SlashAt(tail, |host|);
      FirstIsUnique(tail, "/", |host|);
    } else {
      assert forall j :: 0 <= j ==> !OccursAt(tail, j, "/") by {
        forall j | 0 <= j ensures !OccursAt(tail, j, "/") {
          if j < |host| {
            SlashAt(tail, j);
          }
        }
      }
    }
    assert tail[..|host|] == host;
  }

  /** With the 128-byte buffer, a host of 127 characters fits and one of 128 does not. */
  lemma HostBufferLimit(host: seq<char>)
    requires |host| == 127 && forall k :: 0 <= k < |host| ==> host[k] != '/'
    ensures HttpsHost(Scheme + host + "/fw.bin", HostBufLen) == Some(host)
    ensures HttpsHost(Scheme + host + "x/fw.bin", HostBufLen) == None
  {
    assert Scheme + host == [] + Scheme + host;
    HostOfUrl([], host, "/fw.bin", HostBufLen);
    var longer := host + "x";
    assert Scheme + host + "x/fw.bin" == [] + Scheme + longer + "/fw.bin";
    HostOfUrl([], longer, "/fw.bin", HostBufLen);
  }

  /** `parse_https_host` into the caller's buffer: returns 0 and writes the host followed by
      a NUL when `HttpsHost` finds one for the buffer's size, and otherwise returns -1
      without touching the buffer. Bytes after the NUL are left as they were. */
  method ParseHttpsHost(url: seq<char>, hostOut: array<char>) returns (rc: int)
    modifies hostOut
    ensures rc == 0 || rc == -1
    ensures rc == 0 <==> HttpsHost(url, hostOut.Length).Some?
    ensures rc == 0 ==> var h := HttpsHost(url, hostOut.Length).value;
                        hostOut[..|h|] == h && hostOut[|h|] == Nul
                        && hostOut[|h| + 1..] == old(hostOut[|h| + 1..])
    ensures rc != 0 ==> hostOut[..] == old(hostOut[..])
  {
    var p := FindFirst(url, Scheme);
    if p.None? {
      return -1;
    }
    var rest := url[p.value + |Scheme|..];
    var slash := FindFirst(rest, "/");
    var hostLen := if slash.Some? then slash.value else |rest|;
    if hostLen == 0 || hostLen >= hostOut.Length {
      return -1;
    }
    var i := 0;
    while i < hostLen
      invariant 0 <= i <= hostLen
      invariant forall k :: 0 <= k < i ==> hostOut[k] == rest[k]
      invariant forall k :: i <= k < hostOut.Length ==> hostOut[k] == old(hostOut[k])
    {
      hostOut[i] := rest[i];
      i := i + 1;
    }
    hostOut[hostLen] := Nul;
    assert hostOut[..hostLen] == rest[..hostLen];
    assert hostOut[hostLen + 1..] == old(hostOut[hostLen + 1..]);
    return 0;
  }

  // ---------------------------------------------------------------------------
  // Time and the maintenance window

  /** The clock counts as set once the local year (tm_year counts from 1900) is 2024 or later. */
  predicate IsTimeSet(tmYear: int)
  {
    tmYear + 1900 >= 2024
  }

  /** The window test on the hour of day, as the firmware compares it. */
  predicate InWindow(start: int, end: int, hour: int)
  {
    if start == end then true
    else if start < end then start <= hour && hour < end
    else hour >= start || hour < end
  }

  function ClockAdd(start: int, k: int): int
  {
    (start + k) % 24
  }

  /** Reference: the hours met walking forward around a 24-hour clock from `start` up to,
      but not including, `end`; equal bounds mean the whole day. */
  ghost predicate ClockArc(start: int, end: int, hour: int)
  {
    start == end || exists k :: 0 <= k < (end - start) % 24 && hour == ClockAdd(start, k)
  }

  /** The firmware's comparisons select exactly the clock arc, wrap past midnight included. */
  lemma WindowIsClockArc(start: int, end: int, hour: int)
    requires 0 <= start < 24 && 0 <= end < 24 && 0 <= hour < 24
    ensures InWindow(start, end, hour) <==> ClockArc(start, end, hour)
  {
    if start != end {
      if InWindow(start, end, hour) {
        var k := if hour >= start then hour - start else hour - start + 24;
        if start < end {
          assert (end - start) % 24 == end - start;
        } else {
          assert (end - start) % 24 == end - start + 24;
        }
        assert hour == ClockAdd(start, k);
      }
      if ClockArc(start, end, hour) {
        var k :| 0 <= k < (end - start) % 24 && hour == ClockAdd(start, k);
        if start < end {
          assert (end - start) % 24 == end - start;
          assert hour == start + k;
        } else {
          assert (end - start) % 24 == end - start + 24;
          if start + k < 24 {
            assert hour == start + k;
          } else {
            assert hour == start + k - 24;
          }
        }
      }
    }
  }

  /** The build-time settings the decision loop reads. */
  datatype OtaConfig = OtaConfig(
    pollPeriodMs: nat,
    maintStartHour: int,
    maintEndHour: int,
    allowNoTime: bool,
    battMinMv: int,
    triggerUrl: seq<char>,
    firmwareUrl: seq<char>,
    certLen: nat)

  /** The window gate: without a set clock the no-time policy decides; otherwise the hour. */
  predicate WindowOpen(cfg: OtaConfig, tmYear: int, tmHour: int)
  {
    if !IsTimeSet(tmYear) then cfg.allowNoTime
    else InWindow(cfg.maintStartHour, cfg.maintEndHour, tmHour)
  }

  // ---------------------------------------------------------------------------
  // Request sources, network readiness and one decision cycle

  /** A press counts only when both samples, 30 ms apart, read the active-low level 0. */
  predicate ButtonPressed(level1: int, level2: int)
  {
    level1 == 0 && level2 == 0
  }

  /** What the HTTP client reports for the trigger URL: whether a client could be created,
      the result of opening it, the byte count of the first read and the first byte. */
  datatype HttpReply = HttpReply(clientOk: bool, openErr: EspErr, readLen: int, firstByte: char)

  /** The cloud asks for an update iff a trigger URL is configured, the request opens, the
      first read returns data, and the body starts with '1'. */
  predicate CloudTriggerRequested(triggerUrl: seq<char>, reply: HttpReply)
  {
    |triggerUrl| > 0 && reply.clientOk && reply.openErr == EspOk
    && reply.readLen > 0 && reply.firstByte == '1'
  }

  /** What name resolution, socket creation and the TCP connect to port 443 report. */
  datatype NetProbe = NetProbe(resolveOk: bool, socketOk: bool, connectOk: bool)

  predicate NetworkReady(firmwareUrl: seq<char>, probe: NetProbe)
  {
    HttpsHost(firmwareUrl, HostBufLen).Some? && probe.resolveOk && probe.socketOk && probe.connectOk
  }

  /** Everything outside the firmware that one cycle consults. `battMv` stands for the
      battery reading, which the reference build stubs with a configured constant. */
  datatype World = World(
    level1: int, level2: int,
    cloud: HttpReply,
    tmYear: int, tmHour: int,
    battMv: int,
    net: NetProbe,
    otaErr: EspErr)

  /** The externally visible steps of a cycle, in the order they happen. */
  datatype Step =
    | SampleButton
    | Wait(ms: nat)
    | QueryCloud
    | ReadClock
    | ReadBattery
    | ProbeNetwork(host: seq<char>)
    | Download
    | Restart

  predicate Requested(cfg: OtaConfig, w: World)
  {
    ButtonPressed(w.level1, w.level2) || CloudTriggerRequested(cfg.triggerUrl, w.cloud)
  }

  /** All four gates pass: a request, the window, enough battery (equality passes), the network. */
  predicate GatesPass(cfg: OtaConfig, w: World)
  {
    Requested(cfg, w) && WindowOpen(cfg, w.tmYear, w.tmHour)
    && w.battMv >= cfg.battMinMv && NetworkReady(cfg.firmwareUrl, w.net)
  }

  /** The root certificate the download pins must be at least 32 bytes long. */
  const MinCertLen: nat := 32

  function ProbeSteps(cfg: OtaConfig): seq<Step>
  {
    match HttpsHost(cfg.firmwareUrl, HostBufLen)
    case Some(h) => [ProbeNetwork(h)]
    case None => []
  }

  predicate Probed(log: seq<Step>)
  {
    exists i :: 0 <= i < |log| && log[i].ProbeNetwork?
  }

  /** One pass of the decision loop: sample the button twice, ask the cloud only when the
      button is not pressed, then run the window, battery and network gates in that order,
      each only when every earlier one passed, and download only when all of them pass. A
      successful download ends in a restart, anything else in the poll delay. */
  function DecisionCycle(cfg: OtaConfig, w: World): (log: seq<Step>)
    ensures |log| >= 4 && log[..3] == [SampleButton, Wait(30), SampleButton]
  {
    var button := [SampleButton, Wait(30), SampleButton];
    var cloud := if ButtonPressed(w.level1, w.level2) || |cfg.triggerUrl| == 0 then [] else [QueryCloud];
    var poll := [Wait(cfg.pollPeriodMs)];
    var probe := ProbeSteps(cfg);
    var head := button + cloud;
    if !Requested(cfg, w) then head + poll
    else if !WindowOpen(cfg, w.tmYear, w.tmHour) then head + [ReadClock] + poll
    else if w.battMv < cfg.battMinMv then head + [ReadClock, ReadBattery] + poll
    else if !NetworkReady(cfg.firmwareUrl, w.net) then head + [ReadClock, ReadBattery] + probe + poll
    else if cfg.certLen < MinCertLen then head + [ReadClock, ReadBattery] + probe + poll
    else if w.otaErr != EspOk then head + [ReadClock, ReadBattery] + probe + [Download] + poll
    else head + [ReadClock, ReadBattery] + probe + [Download, Wait(500), Restart]
  }

  /** The cloud is queried iff the button is not pressed and a trigger URL is configured. */
  lemma CloudQueriedOnlyWithoutPress(cfg: OtaConfig, w: World)
    ensures QueryCloud in DecisionCycle(cfg, w) <==> !ButtonPressed(w.level1, w.level2) && |cfg.triggerUrl| > 0
  {
  }

  /** The clock is read iff an update was requested. */
  lemma ClockGate(cfg: OtaConfig, w: World)
    ensures ReadClock in DecisionCycle(cfg, w) <==> Requested(cfg, w)
  {
  }

  /** The battery is read iff moreover the update window is open. */
  lemma BatteryGate(cfg: OtaConfig, w: World)
    ensures ReadBattery in DecisionCycle(cfg, w) <==> Requested(cfg, w) && WindowOpen(cfg, w.tmYear, w.tmHour)
  {
  }

  /** The network is probed iff moreover the battery is high enough and the firmware URL
      names an HTTPS host that fits its buffer. */
  lemma ProbeGate(cfg: OtaConfig, w: World)
    ensures Probed(DecisionCycle(cfg, w)) <==> Requested(cfg, w) && WindowOpen(cfg, w.tmYear, w.tmHour)
                                               && w.battMv >= cfg.battMinMv
                                               && HttpsHost(cfg.firmwareUrl, HostBufLen).Some?
  {
    var log := DecisionCycle(cfg, w);
    if Probed(log) {
      var i :| 0 <= i < |log| && log[i].ProbeNetwork?;
      assert log[i] in log;
    }
    if Requested(cfg, w) && WindowOpen(cfg, w.tmYear, w.tmHour) && w.battMv >= cfg.battMinMv {
      if HttpsHost(cfg.firmwareUrl, HostBufLen).Some? {
        var h := HttpsHost(cfg.firmwareUrl, HostBufLen).value;
        assert ProbeNetwork(h) in log;
      }
    }
  }

  /** Each gate is evaluated iff every earlier gate passed. */
  lemma GatesRunInOrder(cfg: OtaConfig, w: World)
    ensures ReadClock in DecisionCycle(cfg, w) <==> Requested(cfg, w)
    ensures ReadBattery in DecisionCycle(cfg, w) <==> Requested(cfg, w) && WindowOpen(cfg, w.tmYear, w.tmHour)
    ensures Probed(DecisionCycle(cfg, w)) <==> Requested(cfg, w) && WindowOpen(cfg, w.tmYear, w.tmHour)
                                               && w.battMv >= cfg.battMinMv
                                               && HttpsHost(cfg.firmwareUrl, HostBufLen).Some?
  {
    ClockGate(cfg, w);
    BatteryGate(cfg, w);
    ProbeGate(cfg, w);
  }

  /** A download happens iff all gates pass and the certificate is long enough. */
  lemma DownloadOnlyWhenAllGatesPass(cfg: OtaConfig, w: World)
    ensures Download in DecisionCycle(cfg, w) <==> GatesPass(cfg, w) && cfg.certLen >= MinCertLen
  {
  }

  /** A restart happens iff moreover the download succeeds; every other cycle ends in the
      poll delay. */
  lemma RestartOnlyAfterGoodDownload(cfg: OtaConfig, w: World)
    ensures Restart in DecisionCycle(cfg, w) <==> GatesPass(cfg, w) && cfg.certLen >= MinCertLen && w.otaErr == EspOk
    ensures var log := DecisionCycle(cfg, w);
            log[|log| - 1] == if Restart in log then Restart else Wait(cfg.pollPeriodMs)
  {
  }

  /** No cycle clears the button gate on a single low sample: a bounce between the two
      samples means no request from the button, so nothing is downloaded unless the cloud asks. */
  lemma BounceIsNoPress(cfg: OtaConfig, w: World)
    requires w.level1 != w.level2 && !CloudTriggerRequested(cfg.triggerUrl, w.cloud)
    ensures DecisionCycle(cfg, w) == [SampleButton, Wait(30), SampleButton]
                                     + (if |cfg.triggerUrl| == 0 then [] else [QueryCloud])
                                     + [Wait(cfg.pollPeriodMs)]
  {
  }

  /** An example of the wrap-around window 22:00-04:00 with the clock set: 23h and 3h are
      inside, 4h and 12h are not; an unset clock defers to the policy. */
  lemma NightWindowExample(cfg: OtaConfig)
    requires cfg.maintStartHour == 22 && cfg.maintEndHour == 4
    ensures WindowOpen(cfg, 125, 23) && WindowOpen(cfg, 125, 3)
    ensures !WindowOpen(cfg, 125, 4) && !WindowOpen(cfg, 125, 12)
    ensures WindowOpen(cfg, 70, 12) == cfg.allowNoTime
  {
  }
}
