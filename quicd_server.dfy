/**
 * quicd/server2.py: `getIpcfg` reads the text of the address command line by
 * line. A line naming a `tun` interface starts a section that is skipped up to
 * the next line naming an adapter (`适配器`); outside such sections every line
 * mentioning `IPv4` contributes the text after its first ':' (up to the next
 * ':'), stripped. The first contribution is the address. `_start_server` then
 * derives the room code and port from it and stores them on the server object.
 * The command's text is the parameter `output`; the random digit is `r`.
 */
module QuicdServer {
  import opened PyStr
  import opened AddressExtract
  import opened RoomServer

  // ---------------------------------------------------------------------------
  // The line tests of `getIpcfg`

  /** `len(line.split('适配器')) > 1`. */
  predicate HasAdapter(line: string)
  {
    |SplitOn(line, "适配器")| > 1
  }

  /** `len(line.split('tun')) > 1`. */
  predicate HasTun(line: string)
  {
    |SplitOn(line, "tun")| > 1
  }

  /** `'IPv4' in line`. */
  predicate HasIPv4(line: string)
  {
    Contains(line, "IPv4")
  }

  /** The two split tests are substring tests. */
  lemma SplitTestsAreContains(line: string)
    ensures HasAdapter(line) <==> Contains(line, "适配器")
    ensures HasTun(line) <==> Contains(line, "tun")
  {
  }

  /** `line.split(':')[1].strip()`; a line without ':' has no second piece. */
  function IpOf(line: string): (ip: Result<string>)
    ensures ip.Err? <==> ':' !in line
    ensures ip.Err? ==> ip.error == IndexError
  {
    ContainsChar(line, ':');
    var parts := SplitOn(line, ":");
    if |parts| < 2 then Err(IndexError) else Ok(Strip(parts[1]))
  }

  /** The contribution of a line is the stripped text between its first and its
      second ':' (or the end of the line). */
  lemma IpBetweenColons(a: string, seg: string, rest: Option<string>)
    requires ':' !in a && ':' !in seg
    ensures IpOf(a + ":" + seg + (if rest.Some? then ":" + rest.value else "")) == Ok(Strip(seg))
  {
    var tail := if rest.Some? then ":" + rest.value else "";
    var line := a + ":" + seg + tail;
    assert line == a + [':'] + (seg + tail);
    SplitFirst(a, ':', seg + tail);
    if rest.Some? {
      assert seg + tail == seg + [':'] + rest.value;
      SplitFirst(seg, ':', rest.value);
    } else {
      assert seg + tail == seg;
      SplitNoSep(seg, ':');
    }
  }

  // ---------------------------------------------------------------------------
  // The scan, as functions of the lines read so far

  /** The lines of the command's text, `output.split('\n')`. */
  function Lines(output: string): seq<string>
  {
    SplitOn(output, "\n")
  }

  /** The `skipping` flag after one more line. */
  function NextSkipping(skipping: bool, line: string): bool
  {
    if skipping then !HasAdapter(line) else HasTun(line)
  }

  /** A `tun` line starts a skipped section, an adapter header line ends it, and
      other lines leave the flag as it is. */
  lemma SkippingSteps(skipping: bool, line: string)
    ensures !HasTun(line) && !HasAdapter(line) ==> NextSkipping(skipping, line) == skipping
    ensures skipping && HasAdapter(line) ==> !NextSkipping(skipping, line)
    ensures !skipping ==> (NextSkipping(skipping, line) <==> HasTun(line))
  {
  }

  /** The `skipping` flag before line `k` is read: lowered before the first line. */
  function Flag(lines: seq<string>, k: nat): (r: bool)
    requires k <= |lines|
    ensures k == 0 ==> !r
  {
    if k == 0 then false else NextSkipping(Flag(lines, k - 1), lines[k - 1])
  }

  /** Only a `tun` line raises the flag: a raised flag has one among the lines
      read, with no adapter header after it. */
  lemma {:induction false} FlagRaised(lines: seq<string>, k: nat)
    requires k <= |lines| && Flag(lines, k)
    ensures exists j :: 0 <= j < k && HasTun(lines[j]) && forall i :: j < i < k ==> !HasAdapter(lines[i])
  {
    if Flag(lines, k - 1) {
      FlagRaised(lines, k - 1);
      var j :| 0 <= j < k - 1 && HasTun(lines[j]) && forall i :: j < i < k - 1 ==> !HasAdapter(lines[i]);
      FlagStays(lines, k, j);
    } else {
      assert HasTun(lines[k - 1]);
    }
  }

  /** A raised flag that stays raised read no adapter header. */
  lemma FlagStays(lines: seq<string>, k: nat, j: nat)
    requires j < k - 1 && k <= |lines| && Flag(lines, k - 1) && Flag(lines, k)
    requires forall i :: j < i < k - 1 ==> !HasAdapter(lines[i])
    ensures forall i :: j < i < k ==> !HasAdapter(lines[i])
  {
    assert !HasAdapter(lines[k - 1]);
  }

  /** Line `k` reaches the `'IPv4' in line` test and passes it. */
  predicate Collects(lines: seq<string>, k: nat)
    requires k < |lines|
  {
    !Flag(lines, k) && !HasTun(lines[k]) && HasIPv4(lines[k])
  }

  /** The list `ips` after the first `k` lines, or the error raised on the way:
      at most one address per line read, and the only error is the `IndexError`
      of a collected line without a ':'. */
  function Collect(lines: seq<string>, k: nat): (r: Result<seq<string>>)
    requires k <= |lines|
    ensures r.Ok? ==> |r.value| <= k
    ensures r.Err? ==> r.error == IndexError
  {
    if k == 0 then Ok([])
    else
      match Collect(lines, k - 1)
      case Err(e) => Err(e)
      case Ok(ips) =>
        if !Collects(lines, k - 1) then Ok(ips)
        else
          match IpOf(lines[k - 1])
          case Err(e) => Err(e)
          case Ok(ip) => Ok(ips + [ip])
  }

  /** What `getIpcfg` returns: `ips[0]`, an `IndexError` when nothing was
      collected, or the error raised while scanning. */
  function Ipcfg(output: string): (r: Result<string>)
    ensures r.Err? ==> r.error == IndexError
  {
    var lines := Lines(output);
    match Collect(lines, |lines|)
    case Err(e) => Err(e)
    case Ok(ips) => if ips == [] then Err(IndexError) else Ok(ips[0])
  }

  /** An error raised while scanning is what the scan ends with. */
  lemma {:induction false} CollectErrStays(lines: seq<string>, k: nat, m: nat, e: PyError)
    requires k <= m <= |lines| && Collect(lines, k) == Err(e)
    ensures Collect(lines, m) == Err(e)
    decreases m - k
  {
    if k < m {
      CollectErrStays(lines, k + 1, m, e);
    }
  }

  /** The loop as written. */
  method GetIpcfg(output: string) returns (address: Result<string>)
    ensures address == Ipcfg(output)
  {
    var lines := Lines(output);
    var ips: seq<string> := [];
    var skipping := false;
    for i := 0 to |lines|
      invariant skipping == Flag(lines, i)
      invariant Collect(lines, i) == Ok(ips)
    {
      var line := lines[i];
      assert Flag(lines, i + 1) == NextSkipping(skipping, line);
      if skipping && HasAdapter(line) {
        CollectSkips(lines, i);
        skipping := false;
        continue;
      }
      if skipping {
        CollectSkips(lines, i);
        continue;
      }
      if HasTun(line) {
        CollectSkips(lines, i);
        skipping := true;
        continue;
      }
      if HasIPv4(line) {
        var parts := SplitOn(line, ":");
        assert IpOf(line) == if |parts| < 2 then Err(IndexError) else Ok(Strip(parts[1]));
        if |parts| < 2 {
          CollectFails(lines, i);
          CollectErrStays(lines, i + 1, |lines|, IndexError);
          return Err(IndexError);
        }
        CollectAdds(lines, i, ips, Strip(parts[1]));
        ips := ips + [Strip(parts[1])];
      } else {
        CollectSkips(lines, i);
      }
    }
    if ips == [] {
      return Err(IndexError);
    }
    return Ok(ips[0]);
  }

  /** A line that is not collected leaves the scan as it was. */
  lemma CollectSkips(lines: seq<string>, i: nat)
    requires i < |lines| && !Collects(lines, i)
    ensures Collect(lines, i + 1) == Collect(lines, i)
  {
  }

  /** A collected line with a ':' adds its address. */
  lemma CollectAdds(lines: seq<string>, i: nat, ips: seq<string>, ip: string)
    requires i < |lines| && Collects(lines, i)
    requires Collect(lines, i) == Ok(ips) && IpOf(lines[i]) == Ok(ip)
    ensures Collect(lines, i + 1) == Ok(ips + [ip])
  {
  }

  /** A collected line without a ':' fails the scan. */
  lemma CollectFails(lines: seq<string>, i: nat)
    requires i < |lines| && Collects(lines, i) && Collect(lines, i).Ok? && IpOf(lines[i]).Err?
    ensures Collect(lines, i + 1) == Err(IndexError)
  {
  }

  // ---------------------------------------------------------------------------
  // What the scan computes

  /** The scan fails exactly when a collected line has no ':', and then with an
      `IndexError`. */
  lemma {:induction false} CollectErr(lines: seq<string>, k: nat)
    requires k <= |lines|
    ensures Collect(lines, k).Err? <==> exists j :: 0 <= j < k && Collects(lines, j) && ':' !in lines[j]
    ensures Collect(lines, k).Err? ==> Collect(lines, k).error == IndexError
  {
    if k > 0 {
      CollectErr(lines, k - 1);
      var prev := Collect(lines, k - 1);
      if prev.Err? {
        assert Collect(lines, k) == prev;
      } else if !Collects(lines, k - 1) {
        assert Collect(lines, k) == prev;
      } else if ':' !in lines[k - 1] {
        assert Collect(lines, k) == Err(IndexError);
      } else {
        assert Collect(lines, k).Ok?;
      }
    }
  }

  /** A scan that did not fail collected nothing exactly when no line was collected. */
  lemma {:induction false} CollectEmpty(lines: seq<string>, k: nat)
    requires k <= |lines| && Collect(lines, k).Ok?
    ensures Collect(lines, k).value == [] <==> forall j :: 0 <= j < k ==> !Collects(lines, j)
  {
    if k > 0 {
      CollectEmpty(lines, k - 1);
    }
  }

  /** The first address a scan holds comes from the first collected line. */
  lemma {:induction false} CollectFirst(lines: seq<string>, k: nat, j: nat)
    requires j < k <= |lines| && Collect(lines, k).Ok?
    requires Collects(lines, j) && forall i :: 0 <= i < j ==> !Collects(lines, i)
    ensures Collect(lines, k).value != [] && Ok(Collect(lines, k).value[0]) == IpOf(lines[j])
  {
    if k == j + 1 {
      CollectEmpty(lines, j);
    } else {
      CollectFirst(lines, k - 1, j);
    }
  }

  /** Addresses keep the order of their lines: a later scan extends an earlier one. */
  lemma {:induction false} CollectPrefix(lines: seq<string>, k: nat, m: nat)
    requires k <= m <= |lines| && Collect(lines, m).Ok?
    ensures Collect(lines, k).Ok? && Collect(lines, k).value <= Collect(lines, m).value
    decreases m - k
  {
    if k < m {
      CollectPrefix(lines, k + 1, m);
      if Collect(lines, k).Err? {
        CollectErrStays(lines, k, m, Collect(lines, k).error);
      }
    }
  }

  /** `getIpcfg` fails only with an `IndexError`: when no line is collected, or
      when a collected line has no ':'. */
  lemma IpcfgFails(output: string)
    ensures Ipcfg(output).Err? ==> Ipcfg(output).error == IndexError
    ensures var lines := Lines(output);
      Ipcfg(output).Err? <==>
        (forall j :: 0 <= j < |lines| ==> !Collects(lines, j))
        || (exists j :: 0 <= j < |lines| && Collects(lines, j) && ':' !in lines[j])
  {
    var lines := Lines(output);
    CollectErr(lines, |lines|);
    if Collect(lines, |lines|).Ok? {
      CollectEmpty(lines, |lines|);
    }
  }

  /** Otherwise it returns the contribution of the first collected line. */
  lemma IpcfgFirst(output: string, j: nat)
    requires j < |Lines(output)| && Collects(Lines(output), j)
    requires forall i :: 0 <= i < j ==> !Collects(Lines(output), i)
    requires Ipcfg(output).Ok?
    ensures Ipcfg(output) == IpOf(Lines(output)[j])
  {
    CollectFirst(Lines(output), |Lines(output)|, j);
  }

  /** A `tun` line outside a skipped section starts one: it and every line up to
      the next adapter line are ignored, and the flag is still set after them. */
  lemma SkippedSection(lines: seq<string>, k: nat, m: nat)
    requires k < m <= |lines| && !Flag(lines, k) && HasTun(lines[k])
    requires forall i :: k < i < m ==> !HasAdapter(lines[i])
    ensures forall i :: k <= i < m ==> !Collects(lines, i)
    ensures Flag(lines, m)
  {
    forall i | k < i < m ensures !Collects(lines, i) {
      SkippedFlag(lines, k, i);
    }
    SkippedFlag(lines, k, m);
  }

  /** The flag stays raised from a `tun` line up to the next adapter header. */
  lemma {:induction false} SkippedFlag(lines: seq<string>, k: nat, m: nat)
    requires k < m <= |lines| && !Flag(lines, k) && HasTun(lines[k])
    requires forall i :: k < i < m ==> !HasAdapter(lines[i])
    ensures Flag(lines, m)
    decreases m
  {
    if m > k + 1 {
      SkippedFlag(lines, k, m - 1);
      assert !HasAdapter(lines[m - 1]);
      assert Flag(lines, m) == NextSkipping(true, lines[m - 1]);
    } else {
      assert Flag(lines, m) == NextSkipping(false, lines[k]);
    }
  }

  /** The adapter line that ends a skipped section is itself ignored, even when it
      also mentions `tun`, and clears the flag. */
  lemma AdapterEndsSection(lines: seq<string>, k: nat)
    requires k < |lines| && Flag(lines, k) && HasAdapter(lines[k])
    ensures !Collects(lines, k) && !Flag(lines, k + 1)
  {
  }

  // ---------------------------------------------------------------------------
  // `_start_server`

  const CertFile: string := "cert.pem"
  const KeyFile: string := "key.pem"

  /** The room code `_start_server` derives: the address from `getIpcfg` (whose
      error propagates), then the rule of server.py. */
  function StartCode(output: string, r: Digit): (code: Result<string>)
    ensures Ipcfg(output).Err? ==> code == Err(Ipcfg(output).error)
    ensures Ipcfg(output) == Ok("") ==> code == Ok(Sentinel)
  {
    match Ipcfg(output)
    case Err(e) => Err(e)
    case Ok(ip) => RoomCode(Some(ip), r)
  }

  /** An address with a four-field, digit-terminated shape gives the server.py port. */
  lemma StartPort(output: string, r: Digit, ip: string)
    requires Ipcfg(output) == Ok(ip)
    requires |SplitOn(ip, ".")| >= 4 && Field(LastField(ip))
    ensures StartCode(output, r).Ok?
    ensures Port(StartCode(output, r).value) == Ok(10000 + 10 * Value(LastField(ip)) + r)
    ensures 10000 <= 10000 + 10 * Value(LastField(ip)) + r <= 19999
  {
    ServerPort(ip, r);
  }

  /** An empty address keeps the sentinel, and the port conversion fails. */
  lemma StartEmpty(output: string, r: Digit)
    requires Ipcfg(output) == Ok("")
    ensures StartCode(output, r) == Ok(Sentinel) && Port(Sentinel) == Err(ValueError)
  {
    SentinelPort();
  }

  /** The attributes `_start_server` assigns; `None` is an attribute not yet set. */
  class Server {
    var host: Option<string>
    var port: Option<int>
    var certFile: Option<string>
    var keyFile: Option<string>

    /** A server none of whose attributes is set yet. */
    constructor ()
      ensures host.None? && port.None? && certFile.None? && keyFile.None?
    {
      host, port, certFile, keyFile := None, None, None, None;
    }

    /** `_start_server`. An error from `getIpcfg` or from indexing the fourth field
        leaves every attribute as it was. Otherwise `HOST` is set before `int()`
        runs, so a `ValueError` leaves `HOST` set and the rest as they were. */
    method StartServer(output: string, r: Digit) returns (outcome: Result<()>)
      modifies this
      ensures StartCode(output, r).Err? ==>
        && outcome == Err(StartCode(output, r).error)
        && host == old(host) && port == old(port)
        && certFile == old(certFile) && keyFile == old(keyFile)
      ensures StartCode(output, r).Ok? && Port(StartCode(output, r).value).Err? ==>
        && outcome == Err(ValueError) && host == Some(ListenHost)
        && port == old(port) && certFile == old(certFile) && keyFile == old(keyFile)
      ensures StartCode(output, r).Ok? && Port(StartCode(output, r).value).Ok? ==>
        && outcome == Ok(()) && host == Some(ListenHost)
        && port == Some(Port(StartCode(output, r).value).value)
        && certFile == Some(CertFile) && keyFile == Some(KeyFile)
    {
      var ipAddress := GetIpcfg(output);
      if ipAddress.Err? {
        return Err(ipAddress.error);
      }
      var pairCode := RoomCode(Some(ipAddress.value), r);
      if pairCode.Err? {
        return Err(pairCode.error);
      }
      host := Some(ListenHost);
      var p := Port(pairCode.value);
      if p.Err? {
        return Err(p.error);
      }
      port := Some(p.value);
      certFile := Some(CertFile);
      keyFile := Some(KeyFile);
      outcome := Ok(());
    }
  }
}
