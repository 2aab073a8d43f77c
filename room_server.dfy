/**
 * server.py, after the address lookup: the room code and the listen port.
 * The code is the fourth dotted field of the local address, padded with '0' to
 * three characters, followed by one random digit; the port is `int("1" + code)`.
 * The random digit is the parameter `r`.
 */
module RoomServer {
  import opened PyStr
  import opened AddressExtract

  /** What `random.randint(0, 9)` can return. */
  type Digit = d: nat | d <= 9

  /** The room code that stays in place when no address was found. */
  const Sentinel: string := "获取失败！"

  /** The server listens on all interfaces. */
  const ListenHost: string := "0.0.0.0"

  /** The room code for a local address; `None` and the empty string are both
      falsy, so both leave the sentinel. Indexing the fourth field fails on an
      address with fewer than four fields. */
  function RoomCode(address: Option<string>, r: Digit): (code: Result<string>)
    ensures code.Err? <==> address.Some? && address.value != "" && |SplitOn(address.value, ".")| < 4
    ensures code.Err? ==> code.error == IndexError
    ensures address.None? || address.value == "" ==> code == Ok(Sentinel)
    ensures address.Some? && address.value != "" && |SplitOn(address.value, ".")| >= 4 ==>
      code == Ok(ZFill(SplitOn(address.value, ".")[3], 3) + [DigitChar(r)])
  {
    if address.None? || address.value == "" then Ok(Sentinel)
    else
      var parts := SplitOn(address.value, ".");
      if |parts| < 4 then Err(IndexError)
      else Ok(ZFill(parts[3], 3) + [DigitChar(r)])
  }

  /** The port for a room code, `int("1" + code)`; client.py computes the same.
      A four-digit code gives a five-digit port starting with 1. */
  function Port(code: string): (port: Result<int>)
    ensures port.Err? ==> port.error == ValueError
    ensures |code| == 4 && AllDigits(code) ==> port.Ok? && 10000 <= port.value <= 19999
  {
    if |code| == 4 && AllDigits(code) then
      ParseLeadingOne(code);
      assert Pow10(4) == 10000;
      ParseInt("1" + code)
    else
      ParseInt("1" + code)
  }

  /** What the server module sets up: the code it shows, the host and the port. */
  datatype Rendezvous = Rendezvous(code: string, host: string, port: int)

  /** The module-level derivation of server.py, from the text of the address
      command (or `None` when the command could not be run). */
  function ServerRendezvous(output: Option<string>, isWord: char -> bool, r: Digit): (rv: Result<Rendezvous>)
    ensures LocalAddress(output, isWord).None? ==> rv == Err(ValueError)
    ensures rv.Ok? ==> rv.value.host == ListenHost && Port(rv.value.code) == Ok(rv.value.port)
  {
    SentinelPort();
    match RoomCode(LocalAddress(output, isWord), r)
    case Err(e) => Err(e)
    case Ok(code) =>
      match Port(code)
      case Err(e) => Err(e)
      case Ok(port) => Ok(Rendezvous(code, ListenHost, port))
  }

  /** The fourth dotted field of an address. */
  function LastField(a: string): string
    requires |SplitOn(a, ".")| >= 4
  {
    SplitOn(a, ".")[3]
  }

  // ---------------------------------------------------------------------------

  /** The code of a well-formed address is four digits: the fourth field padded to
      three characters without changing its value (a three-digit field unchanged),
      then the random digit. */
  lemma RoomCodeShape(a: string, r: Digit)
    requires WellFormed(a)
    ensures RoomCode(Some(a), r).Ok?
    ensures var code := RoomCode(Some(a), r).value; var f := LastField(a);
      |code| == 4 && AllDigits(code)
      && code[..3] == ZFill(f, 3) && code[3 - |f|..3] == f
      && (forall j :: 0 <= j < 3 - |f| ==> code[j] == '0')
      && (|f| == 3 ==> code[..3] == f)
      && Value(code[..3]) == Value(f)
      && code[3] == DigitChar(r)
  {
    var f := LastField(a);
    assert Field(f);
    assert Contains(a, ".");
    ZFillDigits(f, 3);
    var code := RoomCode(Some(a), r).value;
    assert code == ZFill(f, 3) + [DigitChar(r)];
    assert code[..3] == ZFill(f, 3);
    assert AllDigits(code) by {
      forall j | 0 <= j < 4 ensures IsDigit(code[j]) {
        if j < 3 { assert code[j] == ZFill(f, 3)[j]; }
      }
    }
  }

  /** `int("1" + code)` of a four-digit code is 10000 plus the code's value. */
  lemma PortOfDigits(code: string, v: nat)
    requires |code| == 4 && AllDigits(code) && Value(code) == v
    ensures Port(code) == Ok(10000 + v)
    ensures 10000 <= 10000 + v <= 19999
  {
    ParseFourDigits(code, v);
  }

  lemma ParseFourDigits(code: string, v: nat)
    requires |code| == 4 && AllDigits(code) && Value(code) == v
    ensures ParseInt("1" + code) == Ok(10000 + v)
  {
    ParseLeadingOne(code);
    assert Pow10(|code|) == 10000 by { assert Pow10(4) == 10000; }
  }

  /** A digit code of `MaxStrDigits` digits or more makes `int("1" + code)` exceed
      the digit limit and raise `ValueError`. */
  lemma PortTooLong(code: string)
    requires AllDigits(code) && |code| >= MaxStrDigits
    ensures Port(code) == Err(ValueError)
  {
    var t := "1" + code;
    assert AllDigits(t) by {
      forall i | 0 <= i < |t| ensures IsDigit(t[i]) {
        if i > 0 { assert t[i] == code[i - 1]; }
      }
    }
  }

  /** A field padded to three digits and followed by `r` is a four-digit code
      worth ten times the field plus `r`. */
  lemma CodeOfField(f: string, r: Digit, code: string)
    requires Field(f) && code == ZFill(f, 3) + [DigitChar(r)]
    ensures |code| == 4 && AllDigits(code)
    ensures Value(code) == 10 * Value(f) + r
  {
    ZFillDigits(f, 3);
    ValueSnoc(ZFill(f, 3), DigitChar(r));
  }

  /** The code of an address with at least four fields, spelled out. */
  lemma RoomCodeOf(a: string, r: Digit)
    requires |SplitOn(a, ".")| >= 4
    ensures RoomCode(Some(a), r) == Ok(ZFill(LastField(a), 3) + [DigitChar(r)])
  {
    assert Contains(a, ".");
  }

  /** The port of an address whose fourth field is one to three digits (as in
      every well-formed address) is 10000 + 10 * (fourth field) + r. */
  lemma ServerPort(a: string, r: Digit)
    requires |SplitOn(a, ".")| >= 4 && Field(LastField(a))
    ensures RoomCode(Some(a), r).Ok?
    ensures Port(RoomCode(Some(a), r).value) == Ok(10000 + 10 * Value(LastField(a)) + r)
    ensures 10000 <= 10000 + 10 * Value(LastField(a)) + r <= 19999
  {
    RoomCodeOf(a, r);
    var f, code := LastField(a), RoomCode(Some(a), r).value;
    CodeOfField(f, r, code);
    PortOfDigits(code, 10 * Value(f) + r);
  }

  /** With no address the sentinel stays, and `int()` of "1" + sentinel fails. */
  lemma NoAddress(output: Option<string>, isWord: char -> bool, r: Digit)
    requires LocalAddress(output, isWord).None?
    ensures RoomCode(LocalAddress(output, isWord), r) == Ok(Sentinel)
    ensures ServerRendezvous(output, isWord, r) == Err(ValueError)
  {
    SentinelPort();
  }

  /** `int("1" + sentinel)` is a `ValueError`. */
  lemma SentinelPort()
    ensures Port(Sentinel) == Err(ValueError)
  {
    var text := "1" + Sentinel;
    assert text[1] == '获';
    ParseRejects(text, 1);
  }

  /** server.py end to end: when the command's text holds an address, the room code
      is four digits ending in `r`, the host is 0.0.0.0, and the port is
      10000 + 10 * (fourth field) + r, within [10000, 19999]. */
  lemma ServerRendezvousFound(output: Option<string>, isWord: char -> bool, r: Digit)
    requires LocalAddress(output, isWord).Some?
    ensures var a := LocalAddress(output, isWord).value;
      WellFormed(a)
      && ServerRendezvous(output, isWord, r).Ok?
      && var rv := ServerRendezvous(output, isWord, r).value;
      |rv.code| == 4 && AllDigits(rv.code) && rv.code[3] == DigitChar(r)
      && rv.host == ListenHost
      && rv.port == 10000 + 10 * Value(LastField(a)) + r
      && 10000 <= rv.port <= 19999
  {
    var a := LocalAddress(output, isWord).value;
    RoomCodeShape(a, r);
    assert Field(LastField(a));
    ServerPort(a, r);
  }
}
