/**
 * Port choice in scripts/dev-server.mjs: the `PORT` override, the ascending
 * scan for a free port, and what start-up prints or exits with.
 *
 * `Number(process.env.PORT)` is modelled for the decimal forms a port is
 * written in; the probe `isPortAvailable` is an oracle from port to outcome.
 */
module Ports {
  import opened Wrappers
  import opened JsStrings

  const Host: string := "127.0.0.1"
  const DefaultPort: nat := 8890
  const MaxPort: nat := 65535

  // ---------------------------------------------------------------------
  // Number(process.env.PORT)
  // ---------------------------------------------------------------------

  /** A JavaScript number: `mantissa / 10^scale`, an infinity, or NaN. */
  datatype JsNumber =
    | Finite(mantissa: int, scale: nat)
    | Infinite(negative: bool)
    | NaN

  /** `Number.isInteger`. */
  predicate IsInteger(n: JsNumber) {
    n.Finite? && n.mantissa % Pow10(n.scale) == 0
  }

  /** The value of an integral number. */
  function IntValue(n: JsNumber): int
    requires IsInteger(n)
  {
    n.mantissa / Pow10(n.scale)
  }

  /**
   * A decimal literal without sign: digits, optionally a `.` and more digits,
   * with at least one digit in all; the value as mantissa and scale.
   */
  function Decimal(u: string): (r: Option<(int, nat)>)
    ensures r.Some? ==> r.value.0 >= 0
  {
    var parts := Split(u, '.');
    if |parts| == 1 && parts[0] != [] && AllDigits(parts[0]) then
      Some((DigitsValue(parts[0]), 0))
    else if |parts| == 2 && AllDigits(parts[0]) && AllDigits(parts[1]) && parts[0] + parts[1] != [] then
      assert AllDigits(parts[0] + parts[1]);
      Some((DigitsValue(parts[0] + parts[1]), |parts[1]|))
    else
      None
  }

  /** An unsigned numeric string: `Infinity` or a decimal literal. */
  function Unsigned(u: string, negative: bool): JsNumber
  {
    if u == "Infinity" then Infinite(negative)
    else match Decimal(u)
      case Some((m, scale)) => Finite(if negative then -m else m, scale)
      case None => NaN
  }

  /** `Number(s)` on a string: surrounding whitespace ignored, blank is zero. */
  function StringToNumber(s: string): JsNumber
  {
    var t := Trim(s);
    if t == [] then Finite(0, 0)
    else if t[0] == '+' then Unsigned(t[1..], false)
    else if t[0] == '-' then Unsigned(t[1..], true)
    else Unsigned(t, false)
  }

  /** `Number(process.env.PORT)`: an unset variable is `undefined`, which is NaN. */
  function NumberOf(env: Option<string>): JsNumber
  {
    match env
    case None => NaN
    case Some(s) => StringToNumber(s)
  }

  /** `parsePreferredPort`: the override when it is an integer in 1..65535, else 8890. */
  function ParsePreferredPort(n: JsNumber): (port: nat)
    ensures 1 <= port <= MaxPort
    ensures IsInteger(n) && 0 < IntValue(n) <= MaxPort ==> port == IntValue(n)
    ensures port != DefaultPort ==> IsInteger(n) && IntValue(n) == port
  {
    if IsInteger(n) && 0 < IntValue(n) <= MaxPort then IntValue(n) else DefaultPort
  }

  /** A string with no whitespace at either end is its own trim. */
  lemma TrimTight(s: string)
    requires s != [] && !IsSpace(s[0]) && !IsSpace(s[|s| - 1])
    ensures Trim(s) == s
  {
    assert TrimStart(s) == s;
  }

  /** A port written as plain digits is taken when it is in 1..65535. */
  lemma PortFromDigits(s: string)
    requires s != [] && AllDigits(s) && 0 < DigitsValue(s) <= MaxPort
    ensures ParsePreferredPort(NumberOf(Some(s))) == DigitsValue(s)
  {
    TrimTight(s);
    SplitNoSep(s, '.');
    assert s[0] != '+' && s[0] != '-' && s != "Infinity";
  }

  /** Digits whose value is 0 or above 65535 fall back to the default port. */
  lemma PortOutOfRange(s: string)
    requires s != [] && AllDigits(s) && (DigitsValue(s) == 0 || DigitsValue(s) > MaxPort)
    ensures ParsePreferredPort(NumberOf(Some(s))) == DefaultPort
  {
    TrimTight(s);
    SplitNoSep(s, '.');
    assert s[0] != '+' && s[0] != '-' && s != "Infinity";
  }

  /** Without `PORT` the default port is used. */
  lemma PortUnset()
    ensures ParsePreferredPort(NumberOf(None)) == DefaultPort
  {
  }

  /** Trailing zeros multiply the value of a digit string by a power of ten. */
  lemma {:induction false} DigitsValueZeros(a: string, z: string)
    requires AllDigits(a) && forall i :: 0 <= i < |z| ==> z[i] == '0'
    ensures AllDigits(a + z)
    ensures DigitsValue(a + z) == DigitsValue(a) * Pow10(|z|)
    decreases |z|
  {
    assert AllDigits(a + z);
    if |z| == 0 {
      assert a + z == a;
    } else {
      var y := z[..|z| - 1];
      DigitsValueZeros(a, y);
      DigitsValueSnoc(a + y, '0');
      assert a + z == (a + y) + ['0'];
      assert Pow10(|z|) == 10 * Pow10(|y|);
      TimesTen(DigitsValue(a), Pow10(|y|));
    }
  }

  lemma TimesTen(x: nat, p: nat)
    ensures 10 * (x * p) == x * (10 * p)
  {
  }

  /** `3000.0` or `3000.000` is the integer 3000, so it is taken as well. */
  lemma PortWithZeroFraction(a: string, z: string)
    requires a != [] && AllDigits(a) && 0 < DigitsValue(a) <= MaxPort
    requires z != [] && forall i :: 0 <= i < |z| ==> z[i] == '0'
    ensures ParsePreferredPort(NumberOf(Some(a + "." + z))) == DigitsValue(a)
  {
    var s := a + "." + z;
    assert s[0] == a[0] && s[|s| - 1] == z[|z| - 1];
    TrimTight(s);
    SplitNoSep(z, '.');
    SplitCons(a, z, '.');
    assert Split(s, '.') == [a, z];
    DigitsValueZeros(a, z);
    var m := DigitsValue(a) * Pow10(|z|);
    assert Decimal(s) == Some((m, |z|));
    assert s[0] != '+' && s[0] != '-';
    assert s != "Infinity" by { assert s[0] != 'I'; }
    assert NumberOf(Some(s)) == Finite(m, |z|);
    MultipleDivides(DigitsValue(a), Pow10(|z|));
  }

  lemma MultipleDivides(x: nat, p: nat)
    requires p >= 1
    ensures (x * p) % p == 0 && (x * p) / p == x
  {
    var q, r := (x * p) / p, (x * p) % p;
    assert q * p + r == x * p;
    assert (q - x) * p == -r;
    if q > x {
      MulAtLeast(q - x, p);
    } else if q < x {
      MulAtLeast(x - q, p);
    }
  }

  lemma MulAtLeast(k: nat, p: nat)
    requires k >= 1
    ensures k * p >= p
  {
  }

  // ---------------------------------------------------------------------
  // findAvailablePort
  // ---------------------------------------------------------------------

  /** What `isPortAvailable` settles with for one port. */
  datatype Probe =
    | Free                                  // resolved true
    | InUse                                 // rejected with EADDRINUSE, resolved false
    | Failed(code: string, message: string) // any other listen error, rejected

  /** Why `findAvailablePort` throws. */
  datatype PortError =
    | NoPortFree(from: nat)                   // every port from `from` up was in use
    | ProbeError(code: string, message: string) // a probe failed

  /** The scan from `port` upwards of a search that began at `start`. */
  function Scan(start: nat, port: nat, probe: nat -> Probe): Result<nat, PortError>
    decreases MaxPort + 1 - port
  {
    if port > MaxPort then Err(NoPortFree(start))
    else match probe(port)
      case Free => Ok(port)
      case InUse => Scan(start, port + 1, probe)
      case Failed(code, message) => Err(ProbeError(code, message))
  }

  /**
   * `findAvailablePort`: probes `start`, `start + 1`, ... up to 65535 and
   * returns the first free port; `probed` lists the ports probed, in order.
   */
  method FindAvailablePort(start: nat, probe: nat -> Probe) returns (r: Result<nat, PortError>, probed: seq<nat>)
    ensures r == Scan(start, start, probe)
    ensures forall i :: 0 <= i < |probed| ==> probed[i] == start + i
    ensures forall i :: 0 <= i < |probed| - 1 ==> probe(probed[i]) == InUse
    ensures r.Ok? ==> probed != [] && probed[|probed| - 1] == r.value
    ensures r.Err? && r.error.ProbeError? ==>
      probed != [] && probe(probed[|probed| - 1]) == Failed(r.error.code, r.error.message)
    ensures r.Err? && r.error.NoPortFree? ==> start + |probed| == MaxPort + 1 || (start > MaxPort && probed == [])
  {
    var port := start;
    probed := [];
    while port <= MaxPort
      invariant start <= port && (port <= MaxPort + 1 || port == start)
      invariant |probed| == port - start
      invariant forall i :: 0 <= i < |probed| ==> probed[i] == start + i && probe(probed[i]) == InUse
      invariant Scan(start, port, probe) == Scan(start, start, probe)
      decreases MaxPort + 1 - port
    {
      probed := probed + [port];
      var outcome := probe(port);
      if outcome.Free? {
        return Ok(port), probed;
      } else if outcome.Failed? {
        return Err(ProbeError(outcome.code, outcome.message)), probed;
      }
      port := port + 1;
    }
    r := Err(NoPortFree(start));
  }

  /** The scan returns exactly the first free port after a run of ports in use. */
  lemma {:induction false} ScanFinds(start: nat, port: nat, probe: nat -> Probe, p: nat)
    ensures Scan(start, port, probe) == Ok(p) <==>
      port <= p <= MaxPort && probe(p) == Free && forall q :: port <= q < p ==> probe(q) == InUse
    decreases MaxPort + 1 - port
  {
    if port <= MaxPort && probe(port) == InUse {
      ScanFinds(start, port + 1, probe, p);
    }
  }

  /** The scan is exhausted exactly when every port from `port` to 65535 is in use. */
  lemma {:induction false} ScanExhausts(start: nat, port: nat, probe: nat -> Probe)
    ensures Scan(start, port, probe) == Err(NoPortFree(start)) <==>
      forall q :: port <= q <= MaxPort ==> probe(q) == InUse
    decreases MaxPort + 1 - port
  {
    if port <= MaxPort && probe(port) == InUse {
      ScanExhausts(start, port + 1, probe);
    }
  }

  /** A probe failure is passed on from the first port that was not in use. */
  lemma {:induction false} ScanFails(start: nat, port: nat, probe: nat -> Probe) returns (p: nat)
    requires Scan(start, port, probe).Err? && Scan(start, port, probe).error.ProbeError?
    ensures port <= p <= MaxPort
    ensures probe(p) == Failed(Scan(start, port, probe).error.code, Scan(start, port, probe).error.message)
    ensures forall q :: port <= q < p ==> probe(q) == InUse
    decreases MaxPort + 1 - port
  {
    if probe(port) == InUse {
      p := ScanFails(start, port + 1, probe);
    } else {
      p := port;
    }
  }

  // ---------------------------------------------------------------------
  // startServer
  // ---------------------------------------------------------------------

  /** How start-up ends: listening with the lines it logs, or exiting with status 1. */
  datatype Startup =
    | Listening(port: nat, url: string, log: seq<string>)
    | Exit(message: string)

  const BindRefusedMessage: string :=
    "Unable to bind local ports on 127.0.0.1. Try running outside restricted sandbox or set PORT."

  function UrlOf(port: nat): string {
    "http://" + Host + ":" + NatToString(port)
  }

  /** `startServer` with its `catch`: the preferred port, the scan, and the log or exit message. */
  function StartServer(env: Option<string>, probe: nat -> Probe): Startup
  {
    var preferred := ParsePreferredPort(NumberOf(env));
    match Scan(preferred, preferred, probe)
    case Ok(port) =>
      var notice := if port != preferred then
        ["Preferred port " + NatToString(preferred) + " is unavailable, using " + NatToString(port)]
      else [];
      Listening(port, UrlOf(port), notice + ["Dev server running at " + UrlOf(port)])
    case Err(NoPortFree(from)) =>
      Exit("No available ports found from " + NatToString(from) + " to " + NatToString(MaxPort))
    case Err(ProbeError(code, message)) =>
      if code == "EACCES" || code == "EPERM" then Exit(BindRefusedMessage) else Exit(message)
  }

  /**
   * The server listens on the first free port at or above the preferred one,
   * and says so when that is not the preferred port.
   */
  lemma StartServerListens(env: Option<string>, probe: nat -> Probe)
    requires StartServer(env, probe).Listening?
    ensures var preferred := ParsePreferredPort(NumberOf(env));
      var s := StartServer(env, probe);
      preferred <= s.port <= MaxPort && probe(s.port) == Free
      && (forall q :: preferred <= q < s.port ==> probe(q) == InUse)
      && (|s.log| == 2 <==> s.port != preferred)
      && s.log[|s.log| - 1] == "Dev server running at " + s.url
  {
    var preferred := ParsePreferredPort(NumberOf(env));
    ScanFinds(preferred, preferred, probe, StartServer(env, probe).port);
  }

  /** A free preferred port is used as it is, with no notice. */
  lemma StartServerPreferred(env: Option<string>, probe: nat -> Probe)
    requires probe(ParsePreferredPort(NumberOf(env))) == Free
    ensures var preferred := ParsePreferredPort(NumberOf(env));
      StartServer(env, probe) == Listening(preferred, UrlOf(preferred), ["Dev server running at " + UrlOf(preferred)])
  {
  }

  /** Start-up exits exactly when no port from the preferred one up is free, or a probe fails. */
  lemma StartServerExits(env: Option<string>, probe: nat -> Probe)
    ensures var preferred := ParsePreferredPort(NumberOf(env));
      StartServer(env, probe).Exit? <==>
      !exists p :: preferred <= p <= MaxPort && probe(p) == Free && forall q :: preferred <= q < p ==> probe(q) == InUse
  {
    var preferred := ParsePreferredPort(NumberOf(env));
    if StartServer(env, probe).Exit? {
      forall p | preferred <= p <= MaxPort && probe(p) == Free
        ensures exists q :: preferred <= q < p && probe(q) != InUse
      {
        ScanFinds(preferred, preferred, probe, p);
      }
    } else {
      ScanFinds(preferred, preferred, probe, StartServer(env, probe).port);
    }
  }
}
