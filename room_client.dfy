/**
 * client.py, after the address lookup: from its own local address and the room
 * code the user types, the client rebuilds the server's address and port. The
 * subnet prefix is its address without the last dotted field; the server's last
 * field is the code's first three characters without their leading '0's; the
 * port is `int("1" + code)`, the same formula as the server's.
 * The lines the user types are the sequence `inputs`; running out of them is
 * end of file.
 */
module RoomClient {
  import opened PyStr
  import opened AddressExtract
  import opened RoomServer

  // ---------------------------------------------------------------------------
  // Subnet prefix: `parts = a.split('.'); parts.pop(); '.'.join(parts)`

  /** The address with its last dotted field removed, rejoined with dots: the
      address up to its last '.', or the empty text when it has no '.'. */
  function SubnetPrefixOf(a: string): (p: string)
    ensures '.' !in a ==> p == ""
    ensures '.' in a ==> |p| < |a| && a[..|p|] == p && a[|p|] == '.' && '.' !in a[|p| + 1..]
  {
    var parts := SplitOn(a, ".");
    var p := Join(parts[..|parts| - 1], ".");
    LastDot(a);
    if '.' in a then
      var last := parts[|parts| - 1];
      assert a == p + "." + last;
      assert a[|p| + 1..] == last;
      p
    else
      p
  }

  /** The pieces of a split on '.' without the last one, rejoined, are the text
      before the last '.'. */
  lemma LastDot(a: string)
    ensures var parts := SplitOn(a, "."); var p := Join(parts[..|parts| - 1], ".");
      ('.' !in a ==> p == "")
      && ('.' in a ==> a == p + "." + parts[|parts| - 1] && '.' !in parts[|parts| - 1])
  {
    var parts := SplitOn(a, ".");
    ContainsChar(a, '.');
    if '.' in a {
      JoinSplit(a, ".");
      JoinSnoc(parts, ".");
      SplitPiecesFree(a, '.');
    }
  }

  /** The computation as written: split, pop the last piece, join. */
  method SubnetPrefix(a: string) returns (prefix: string)
    ensures prefix == SubnetPrefixOf(a)
  {
    var parts := SplitOn(a, ".");
    parts := parts[..|parts| - 1];
    prefix := Join(parts, ".");
  }

  /** For a four-field address the prefix drops exactly the fourth field. */
  lemma WellFormedPrefix(a: string)
    requires |SplitOn(a, ".")| == 4
    ensures a == SubnetPrefixOf(a) + "." + LastField(a)
  {
    var parts := SplitOn(a, ".");
    JoinSplit(a, ".");
    JoinSnoc(parts, ".");
  }

  // ---------------------------------------------------------------------------
  // The prompt: `while True: code = input(); if len(code) == 4: break`

  /** The position of the first line of length 4, if any. */
  function FirstCodeAt(inputs: seq<string>): (r: Option<nat>)
    ensures r.Some? ==> r.value < |inputs| && |inputs[r.value]| == 4
    ensures r.Some? ==> forall j :: 0 <= j < r.value ==> |inputs[j]| != 4
    ensures r.None? ==> forall j :: 0 <= j < |inputs| ==> |inputs[j]| != 4
  {
    if inputs == [] then None
    else if |inputs[0]| == 4 then Some(0)
    else
      match FirstCodeAt(inputs[1..])
      case None => None
      case Some(k) => Some(k + 1)
  }

  /** The code the prompt loop accepts, if the input holds one: a line of the
      input with four characters, and there is none exactly when no line has four. */
  function FirstCode(inputs: seq<string>): (c: Option<string>)
    ensures c.Some? ==> |c.value| == 4 && c.value in inputs
    ensures c.None? <==> forall j :: 0 <= j < |inputs| ==> |inputs[j]| != 4
  {
    match FirstCodeAt(inputs)
    case None => None
    case Some(k) => Some(inputs[k])
  }

  /** Reads lines until one has exactly four characters; only the length is
      checked. Reading past the last line is an `EOFError`. `consumed` is the
      number of lines read. */
  method PromptCode(inputs: seq<string>) returns (code: Result<string>, consumed: nat)
    ensures code.Ok? <==> exists j :: 0 <= j < |inputs| && |inputs[j]| == 4
    ensures code.Ok? ==>
      && 0 < consumed <= |inputs| && code.value == inputs[consumed - 1] && |code.value| == 4
      && (forall j :: 0 <= j < consumed - 1 ==> |inputs[j]| != 4)
    ensures code.Err? ==> code.error == EOFError && consumed == |inputs|
    ensures code.Ok? <==> FirstCode(inputs).Some?
    ensures code.Ok? ==> FirstCode(inputs) == Some(code.value)
  {
    consumed := 0;
    while true
      invariant consumed <= |inputs|
      invariant forall j :: 0 <= j < consumed ==> |inputs[j]| != 4
      decreases |inputs| - consumed
    {
      if consumed == |inputs| {
        code := Err(EOFError);
        return;
      }
      var line := inputs[consumed];
      consumed := consumed + 1;
      if |line| == 4 {
        code := Ok(line);
        return;
      }
    }
  }

  // ---------------------------------------------------------------------------
  // The server's last field: `ip3 = code[:-1]`, then leading '0's removed

  /** Python's `s[:-1]`: everything but the last character; empty stays empty. */
  function DropLast(s: string): (r: string)
    ensures |s| > 0 ==> |r| == |s| - 1 && s == r + [s[|s| - 1]]
    ensures |s| == 0 ==> r == ""
  {
    if |s| == 0 then "" else s[..|s| - 1]
  }

  /** `s` without its leading '0' characters. */
  function TrimZeros(s: string): (r: string)
    ensures |r| <= |s| && r == s[|s| - |r|..]
    ensures forall j :: 0 <= j < |s| - |r| ==> s[j] == '0'
    ensures r == [] || r[0] != '0'
  {
    if s != [] && s[0] == '0' then TrimZeros(s[1..]) else s
  }

  /** The loop as written: walking the original characters, each '0' drops the
      first character of the current text; the first other character ends it. */
  method StripLeadingZeros(s: string) returns (r: string)
    ensures r == TrimZeros(s)
  {
    r := s;
    for k := 0 to |s|
      invariant r == s[k..]
      invariant TrimZeros(r) == TrimZeros(s)
    {
      if s[k] == '0' {
        r := r[1..];
      } else {
        break;
      }
    }
  }

  /** Zeros in front change nothing once trimmed. */
  lemma {:induction false} TrimZerosPadded(z: string, s: string)
    requires forall i :: 0 <= i < |z| ==> z[i] == '0'
    ensures TrimZeros(z + s) == TrimZeros(s)
    decreases |z|
  {
    if z != [] {
      var u := z[1..] + s;
      assert z + s == ['0'] + u;
      TrimZerosCons(u);
      assert forall i :: 0 <= i < |z| - 1 ==> z[1..][i] == z[i + 1];
      TrimZerosPadded(z[1..], s);
    } else {
      assert z + s == s;
    }
  }

  /** One leading '0' is dropped. */
  lemma TrimZerosCons(u: string)
    ensures TrimZeros(['0'] + u) == TrimZeros(u)
  {
    assert (['0'] + u)[1..] == u;
  }

  /** Text that does not start with '0' is kept whole. */
  lemma TrimZerosCanonical(s: string)
    requires s == [] || s[0] != '0'
    ensures TrimZeros(s) == s
  {
  }

  /** Trimming a digit string keeps its value. */
  lemma TrimZerosValue(s: string)
    requires AllDigits(s)
    ensures AllDigits(TrimZeros(s)) && Value(TrimZeros(s)) == Value(s)
  {
    var r := TrimZeros(s);
    var n := |s| - |r|;
    var z := s[..n];
    assert z == Zeros(n) by {
      forall j | 0 <= j < n ensures z[j] == Zeros(n)[j] { }
    }
    assert AllDigits(r) by {
      forall j | 0 <= j < |r| ensures IsDigit(r[j]) { assert r[j] == s[n + j]; }
    }
    assert s == z + r;
    ValueAppend(z, r);
    ZerosValue(n);
  }

  /** Trimming leaves nothing exactly when every character is '0'. */
  lemma TrimZerosEmpty(s: string)
    ensures TrimZeros(s) == "" <==> forall j :: 0 <= j < |s| ==> s[j] == '0'
  {
    var r := TrimZeros(s);
    if r != [] {
      assert r[0] == s[|s| - |r|];
    }
  }

  // ---------------------------------------------------------------------------
  // Host and port

  /** Where the client connects. */
  datatype Target = Target(host: string, port: int)

  /** The last field of the server's address as rebuilt from a code: the code's
      first three characters of a four-character code, without leading '0's. */
  function HostSuffix(code: string): (r: string)
    ensures |code| == 4 ==> r == TrimZeros(code[..3])
    ensures code != [] ==> |r| < |code|
    ensures r == [] || r[0] != '0'
  {
    TrimZeros(DropLast(code))
  }

  /** client.py's module-level derivation. With no local address, `split` on `None`
      is an `AttributeError`; without an acceptable line of input, `EOFError`;
      a code `int()` rejects, `ValueError`. */
  function ClientTarget(output: Option<string>, isWord: char -> bool, inputs: seq<string>): (t: Result<Target>)
    ensures t.Ok? ==> LocalAddress(output, isWord).Some? && FirstCode(inputs).Some?
    ensures LocalAddress(output, isWord).None? ==> t == Err(AttributeError)
    ensures LocalAddress(output, isWord).Some? && FirstCode(inputs).None? ==> t == Err(EOFError)
  {
    TargetOf(LocalAddress(output, isWord), FirstCode(inputs))
  }

  /** The target from the local address found and the code typed, if any: the
      errors come in the program's order, and a target is the prefix, a dot and
      the rebuilt field, on the code's port. */
  function TargetOf(address: Option<string>, code: Option<string>): (t: Result<Target>)
    ensures address.None? ==> t == Err(AttributeError)
    ensures address.Some? && code.None? ==> t == Err(EOFError)
    ensures address.Some? && code.Some? && Port(code.value).Err? ==> t == Err(ValueError)
    ensures address.Some? && code.Some? && Port(code.value).Ok? ==>
      t == Ok(Target(SubnetPrefixOf(address.value) + "." + HostSuffix(code.value), Port(code.value).value))
  {
    match address
    case None => Err(AttributeError)
    case Some(a) =>
      var prefix := SubnetPrefixOf(a);
      match code
      case None => Err(EOFError)
      case Some(c) =>
        match Port(c)
        case Err(e) => Err(e)
        case Ok(port) => Ok(Target(prefix + "." + HostSuffix(c), port))
  }

  /** The module body as written, step by step. */
  method ClientSetup(output: Option<string>, isWord: char -> bool, inputs: seq<string>) returns (t: Result<Target>)
    ensures t == ClientTarget(output, isWord, inputs)
  {
    var address := LocalAddress(output, isWord);
    if address.None? {
      return Err(AttributeError);
    }
    var prefix := SubnetPrefix(address.value);
    var code, _ := PromptCode(inputs);
    if code.Err? {
      return Err(code.error);
    }
    var ip3 := StripLeadingZeros(DropLast(code.value));
    var port := Port(code.value);
    if port.Err? {
      return Err(port.error);
    }
    t := Ok(Target(prefix + "." + ip3, port.value));
  }

  // ---------------------------------------------------------------------------
  // Properties of the client's code handling

  /** With an address found and a code of four digits, the client targets its own
      subnet prefix (`WellFormedPrefix`: the address minus its fourth field) with
      the rebuilt last field, on port 10000 plus the code's value: a five-digit
      port starting with 1. */
  lemma ClientTargetDigits(output: Option<string>, isWord: char -> bool, inputs: seq<string>,
                           a: string, code: string, v: nat)
    requires LocalAddress(output, isWord) == Some(a)
    requires FirstCode(inputs) == Some(code) && AllDigits(code) && Value(code) == v
    ensures ClientTarget(output, isWord, inputs)
         == Ok(Target(SubnetPrefixOf(a) + "." + HostSuffix(code), 10000 + v))
    ensures 10000 <= 10000 + v <= 19999
  {
    PortOfDigits(code, v);
    TargetOfPort(a, code, 10000 + v);
    ClientTargetIs(output, isWord, inputs, Some(a), Some(code));
  }

  /** The target of an address and a code with a port. */
  lemma TargetOfPort(a: string, code: string, port: int)
    requires Port(code) == Ok(port)
    ensures TargetOf(Some(a), Some(code)) == Ok(Target(SubnetPrefixOf(a) + "." + HostSuffix(code), port))
  {
  }

  /** The target from what the address search and the prompt found. */
  lemma ClientTargetIs(output: Option<string>, isWord: char -> bool, inputs: seq<string>,
                       address: Option<string>, code: Option<string>)
    requires LocalAddress(output, isWord) == address && FirstCode(inputs) == code
    ensures ClientTarget(output, isWord, inputs) == TargetOf(address, code)
  {
  }

  /** A code starting "000" rebuilds an empty last field: the host is the prefix
      followed by a bare dot. */
  lemma ZeroCode(output: Option<string>, isWord: char -> bool, inputs: seq<string>)
    requires FirstCode(inputs).Some? && FirstCode(inputs).value[..3] == "000"
    requires ClientTarget(output, isWord, inputs).Ok?
    ensures HostSuffix(FirstCode(inputs).value) == ""
    ensures ClientTarget(output, isWord, inputs).value.host
      == SubnetPrefixOf(LocalAddress(output, isWord).value) + "."
  {
    var code := FirstCode(inputs).value;
    assert DropLast(code) == code[..3];
    TrimZerosEmpty(code[..3]);
  }

  /** A code holding a character that is not a digit, an underscore or white space
      to `int()`, in ASCII or among the CJK ideographs, cannot be turned into a port. */
  lemma NonNumericCode(code: string, i: nat)
    requires i < |code| && !IsDigit(code[i]) && code[i] != '_' && !IntSpace(code[i])
    requires code[i] as int < 128 || 0x4E00 <= code[i] as int <= 0x9FFF
    ensures Port(code) == Err(ValueError)
  {
    var text := "1" + code;
    assert text[0] == '1';
    assert text[i + 1] == code[i];
    ParseRejects(text, i + 1);
  }

  lemma Value1123()
    ensures Value("1123") == 1123
  {
    assert "1"[..0] == "";
    assert "11"[..1] == "1";
    assert "112"[..2] == "11";
    assert "1123"[..3] == "112";
  }

  /** Only the length of a line is checked, and `int()` accepts an underscore
      between digits: the code "12_3" is taken and gives port 1123. */
  lemma UnderscoreCode()
    ensures FirstCode(["12_3"]) == Some("12_3")
    ensures Port("12_3") == Ok(1123)
  {
    var t := "112_3";
    assert "1" + "12_3" == t;
    assert RStrip(LStrip(t, IntSpace), IntSpace) == t;
    assert IntBody(t);
    assert DigitsOf(t) == "1123";
    Value1123();
  }

  /** Trailing white space is ignored by `int()`: "123 " gives port 1123. */
  lemma SpacedCode()
    ensures FirstCode(["123 "]) == Some("123 ")
    ensures Port("123 ") == Ok(1123)
  {
    var t := "1123 ";
    assert "1" + "123 " == t;
    assert RStrip(LStrip(t, IntSpace), IntSpace) == "1123";
    PlainDigits("1123");
    Value1123();
  }

  /** The control character U+001F is white space to `str.isspace()` but not to
      `int()`: the code "123\U{1F}" passes the length check and its port conversion
      fails. */
  lemma UnitSeparatorCode()
    ensures FirstCode(["123\U{1F}"]) == Some("123\U{1F}")
    ensures Port("123\U{1F}") == Err(ValueError)
  {
    NonNumericCode("123\U{1F}", 3);
  }
}
