/** The Wi-Fi scanner application: the labels it prints for an access point's signal
    strength and security, the clamp on the number of access points one scan reports,
    and the once-only initialisation of the Wi-Fi subsystem. The driver's answers are
    inputs. */
module WifiScanner {
  import opened Common

  const MaxApCount: nat := 20
  const ErrNvsNoFreePages: EspErr := 0x110d
  const ErrNvsNewVersionFound: EspErr := 0x1110

  // ---------------------------------------------------------------------------
  // Labels

  /** The authentication modes `get_auth_mode_string` names; every other mode
      reported by the driver is `OtherMode`. */
  datatype AuthMode =
    | Open | Wep | WpaPsk | Wpa2Psk | WpaWpa2Psk | Wpa2Enterprise
    | Wpa3Psk | Wpa2Wpa3Psk | WapiPsk
    | OtherMode(code: int)

  /** `get_auth_mode_string`: a fixed name per listed mode, "Unknown" for the rest. */
  function AuthModeString(mode: AuthMode): (s: string)
    ensures s == "Unknown" <==> mode.OtherMode?
    ensures |s| > 0
  {
    match mode
    case Open => "Open"
    case Wep => "WEP"
    case WpaPsk => "WPA-PSK"
    case Wpa2Psk => "WPA2-PSK"
    case WpaWpa2Psk => "WPA/WPA2-PSK"
    case Wpa2Enterprise => "WPA2-Enterprise"
    case Wpa3Psk => "WPA3-PSK"
    case Wpa2Wpa3Psk => "WPA2/WPA3-PSK"
    case WapiPsk => "WAPI-PSK"
    case OtherMode(_) => "Unknown"
  }

  /** Two listed modes never print the same name, so the name identifies the mode. */
  lemma AuthModeNamesDistinct(a: AuthMode, b: AuthMode)
    requires !a.OtherMode? && !b.OtherMode?
    requires AuthModeString(a) == AuthModeString(b)
    ensures a == b
  {
    match a
    case Open => assert AuthModeString(a)[0] == 'O';
    case Wep => assert AuthModeString(a)[1] == 'E';
    case WpaPsk => assert AuthModeString(a) == "WPA-PSK";
    case Wpa2Psk => assert AuthModeString(a) == "WPA2-PSK";
    case WpaWpa2Psk => assert AuthModeString(a) == "WPA/WPA2-PSK";
    case Wpa2Enterprise => assert AuthModeString(a) == "WPA2-Enterprise";
    case Wpa3Psk => assert AuthModeString(a) == "WPA3-PSK";
    case Wpa2Wpa3Psk => assert AuthModeString(a) == "WPA2/WPA3-PSK";
    case WapiPsk => assert AuthModeString(a)[1] == 'A';
  }

  /** An `int8_t` RSSI in dBm. */
  predicate IsRssi(rssi: int)
  {
    -128 <= rssi <= 127
  }

  /** The labels of `get_signal_strength_string`, strongest first. */
  const SignalLabels: seq<string> := ["Excellent", "Very Good", "Good", "Fair", "Poor"]

  /** `get_signal_strength_string`: the first threshold the RSSI reaches picks the label. */
  function SignalStrength(rssi: int): (s: string)
    requires IsRssi(rssi)
    ensures s in SignalLabels
  {
    if rssi >= -30 then "Excellent"
    else if rssi >= -50 then "Very Good"
    else if rssi >= -60 then "Good"
    else if rssi >= -70 then "Fair"
    else "Poor"
  }

  /** The position of a label in `SignalLabels`: 0 is the strongest. */
  function LabelRank(s: string): (k: nat)
    requires s in SignalLabels
    ensures k < |SignalLabels| && SignalLabels[k] == s
  {
    if s == "Excellent" then 0
    else if s == "Very Good" then 1
    else if s == "Good" then 2
    else if s == "Fair" then 3
    else 4
  }

  /** A label is given exactly on its band of RSSI values:
      Excellent from -30 dBm, Very Good from -50, Good from -60, Fair from -70. */
  lemma SignalBands(rssi: int)
    requires IsRssi(rssi)
    ensures SignalStrength(rssi) == "Excellent" <==> rssi >= -30
    ensures SignalStrength(rssi) == "Very Good" <==> -50 <= rssi < -30
    ensures SignalStrength(rssi) == "Good" <==> -60 <= rssi < -50
    ensures SignalStrength(rssi) == "Fair" <==> -70 <= rssi < -60
    ensures SignalStrength(rssi) == "Poor" <==> rssi < -70
  {
    assert "Excellent" != "Very Good" && "Excellent" != "Good" && "Excellent" != "Fair";
    assert "Excellent"[0] != "Poor"[0] && "Very Good"[0] != "Good"[0];
    assert "Very Good"[0] != "Fair"[0] && "Very Good"[0] != "Poor"[0];
    assert "Good"[0] != "Fair"[0] && "Good"[0] != "Poor"[0] && "Fair"[0] != "Poor"[0];
  }

  /** A stronger signal never gets a weaker label. */
  lemma SignalMonotone(weaker: int, stronger: int)
    requires IsRssi(weaker) && IsRssi(stronger) && weaker <= stronger
    ensures LabelRank(SignalStrength(stronger)) <= LabelRank(SignalStrength(weaker))
  {
    SignalBands(weaker);
    SignalBands(stronger);
  }

  // ---------------------------------------------------------------------------
  // One scan

  /** What one access point's record contributes to the printed report. */
  datatype ApRecord = ApRecord(ssid: string, rssi: int, authMode: AuthMode)

  /** The driver's answers during one `perform_wifi_scan`: the start of the blocking
      scan, the count query, the allocation, and the record fetch with the records it
      hands back. */
  datatype ScanDriver = ScanDriver(
    startErr: EspErr,
    numErr: EspErr,
    apNum: nat,
    allocOk: bool,
    recordsErr: EspErr,
    records: seq<ApRecord>)

  /** The outcome of one scan: its status, how many records were requested from the
      driver (None when none were), and the records reported. */
  datatype ScanResult = ScanResult(err: EspErr, requested: Option<nat>, shown: seq<ApRecord>)

  /** `perform_wifi_scan`. The driver fills at most as many records as it was asked for
      and updates the count to what it filled. */
  function PerformScan(d: ScanDriver): (r: ScanResult)
    requires d.apNum < U16Mod
    ensures r.err == EspOk <==>
              d.startErr == EspOk && d.numErr == EspOk
              && (d.apNum == 0 || (d.allocOk && d.recordsErr == EspOk))
    ensures r.requested.Some? <==>
              d.startErr == EspOk && d.numErr == EspOk && d.apNum > 0 && d.allocOk
    ensures r.requested.Some? ==> 0 < r.requested.value <= MaxApCount
                                  && r.requested.value == if d.apNum > MaxApCount then MaxApCount else d.apNum
    ensures |r.shown| <= MaxApCount
    ensures r.shown != [] ==> r.err == EspOk && r.shown <= d.records
    ensures r.err == EspOk && d.apNum > 0 ==>
              var asked := if d.apNum > MaxApCount then MaxApCount else d.apNum;
              r.shown == d.records[..if |d.records| < asked then |d.records| else asked]
    ensures r.err != EspOk || d.apNum == 0 ==> r.shown == []
    ensures !d.allocOk && d.startErr == EspOk && d.numErr == EspOk && d.apNum > 0 ==> r.err == ErrNoMem
  {
    if d.startErr != EspOk then ScanResult(d.startErr, None, [])
    else if d.numErr != EspOk then ScanResult(d.numErr, None, [])
    else if d.apNum == 0 then ScanResult(EspOk, None, [])
    else
      var count := if d.apNum > MaxApCount then MaxApCount else d.apNum;
      if !d.allocOk then ScanResult(ErrNoMem, None, [])
      else if d.recordsErr != EspOk then ScanResult(d.recordsErr, Some(count), [])
      else
        var filled := if |d.records| < count then |d.records| else count;
        ScanResult(EspOk, Some(count), d.records[..filled])
  }

  /** The lines of one access point's entry that carry labels: its RSSI label and its
      security name. */
  function ApLabels(ap: ApRecord): (r: (string, string))
    requires IsRssi(ap.rssi)
    ensures r.0 in SignalLabels && (r.1 == "Unknown" <==> ap.authMode.OtherMode?)
  {
    (SignalStrength(ap.rssi), AuthModeString(ap.authMode))
  }

  /** A scan that finds no networks reports success and fetches nothing. */
  lemma EmptyScan(d: ScanDriver)
    requires d.startErr == EspOk && d.numErr == EspOk && d.apNum == 0
    ensures PerformScan(d) == ScanResult(EspOk, None, [])
  {
  }

  /** However many networks the driver counts, at most 20 are requested and reported. */
  lemma CrowdedScan(d: ScanDriver)
    requires d.startErr == EspOk && d.numErr == EspOk && MaxApCount < d.apNum < U16Mod
    requires d.allocOk && d.recordsErr == EspOk && |d.records| >= MaxApCount
    ensures PerformScan(d).requested == Some(MaxApCount)
    ensures PerformScan(d).shown == d.records[..MaxApCount]
  {
  }

  // ---------------------------------------------------------------------------
  // Initialisation

  /** The driver's answers during `wifi_scan_init`: the first NVS init, the retry after
      an erase (used only when the first answer asks for it), the network interface, the
      default event loop, whether the station interface was created, and the Wi-Fi init,
      mode and start calls. */
  datatype InitDriver = InitDriver(
    nvsErr: EspErr,
    nvsRetryErr: EspErr,
    netifErr: EspErr,
    loopErr: EspErr,
    staCreated: bool,
    wifiInitErr: EspErr,
    modeErr: EspErr,
    startErr: EspErr)

  /** The NVS status `wifi_scan_init` acts on: a partition with no free pages or a newer
      format is erased and initialised again. */
  function NvsStatus(d: InitDriver): (e: EspErr)
    ensures e == (if d.nvsErr == ErrNvsNoFreePages || d.nvsErr == ErrNvsNewVersionFound
                  then d.nvsRetryErr else d.nvsErr)
  {
    if d.nvsErr == ErrNvsNoFreePages || d.nvsErr == ErrNvsNewVersionFound then d.nvsRetryErr
    else d.nvsErr
  }

  /** The status of the initialisation steps, the first failure winning; an event loop
      that already exists is not a failure. Initialisation succeeds exactly when every
      step does, and a failure reports the code of a step that failed. */
  function InitSteps(d: InitDriver): (e: EspErr)
    ensures e == EspOk <==>
              NvsStatus(d) == EspOk && d.netifErr == EspOk
              && (d.loopErr == EspOk || d.loopErr == ErrInvalidState)
              && d.staCreated && d.wifiInitErr == EspOk && d.modeErr == EspOk
              && d.startErr == EspOk
    ensures e != EspOk ==>
              e in {NvsStatus(d), d.netifErr, d.loopErr, EspFail, d.wifiInitErr, d.modeErr, d.startErr}
  {
    if NvsStatus(d) != EspOk then NvsStatus(d)
    else if d.netifErr != EspOk then d.netifErr
    else if d.loopErr != EspOk && d.loopErr != ErrInvalidState then d.loopErr
    else if !d.staCreated then EspFail
    else if d.wifiInitErr != EspOk then d.wifiInitErr
    else if d.modeErr != EspOk then d.modeErr
    else d.startErr
  }

  /** The scanner's static state: whether Wi-Fi has been initialised. */
  class Scanner {
    var initialized: bool

    constructor()
      ensures !initialized
    {
      initialized := false;
    }

    /** `wifi_scan_init`: once initialised, later calls return ESP_OK and touch nothing;
        otherwise the steps run and the flag is set only when all of them succeeded. */
    method Init(d: InitDriver) returns (err: EspErr)
      modifies this
      ensures old(initialized) ==> err == EspOk && initialized
      ensures !old(initialized) ==> err == InitSteps(d) && initialized == (err == EspOk)
    {
      if initialized {
        return EspOk;
      }
      err := InitSteps(d);
      if err == EspOk {
        initialized := true;
      }
    }
  }

  /** Once an initialisation has succeeded, every later one succeeds whatever the driver
      would answer. */
  method InitTwice(d1: InitDriver, d2: InitDriver) returns (e1: EspErr, e2: EspErr)
    ensures e1 == InitSteps(d1)
    ensures e1 == EspOk ==> e2 == EspOk
    ensures e1 != EspOk ==> e2 == InitSteps(d2)
  {
    var s := new Scanner();
    e1 := s.Init(d1);
    e2 := s.Init(d2);
  }
}
