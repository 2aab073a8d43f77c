/**
 * The rendezvous as a whole: the server turns the last field of its address into
 * a room code and a port; a client in the same subnet, given that code, rebuilds
 * the server's address and the same port.
 */
module RoundTrip {
  import opened PyStr
  import opened AddressExtract
  import opened RoomServer
  import opened RoomClient

  /** The client's rebuilt last field from a server code is the server's field
      without its leading '0's. */
  lemma SuffixOfServerCode(f: string, r: Digit)
    requires Field(f)
    ensures HostSuffix(ZFill(f, 3) + [DigitChar(r)]) == TrimZeros(f)
  {
    var z := ZFill(f, 3);
    var code := z + [DigitChar(r)];
    assert DropLast(code) == z;
    ZFillDigits(f, 3);
    if |f| < 3 {
      TrimZerosPadded(Zeros(3 - |f|), f);
    }
  }

  /** Whatever the server's last field, the client rebuilds it up to leading
      zeros, with the same value, and reaches the server's port. */
  lemma ClientMeetsServer(sOut: Option<string>, cOut: Option<string>, isWord: char -> bool,
                          r: Digit, rv: Rendezvous, inputs: seq<string>)
    requires ServerRendezvous(sOut, isWord, r) == Ok(rv)
    requires LocalAddress(sOut, isWord).Some? && LocalAddress(cOut, isWord).Some?
    requires SubnetPrefixOf(LocalAddress(cOut, isWord).value) == SubnetPrefixOf(LocalAddress(sOut, isWord).value)
    requires FirstCode(inputs) == Some(rv.code)
    ensures var sa := LocalAddress(sOut, isWord).value;
      WellFormed(sa)
      && ClientTarget(cOut, isWord, inputs)
         == Ok(Target(SubnetPrefixOf(sa) + "." + TrimZeros(LastField(sa)), rv.port))
      && AllDigits(TrimZeros(LastField(sa)))
      && Value(TrimZeros(LastField(sa))) == Value(LastField(sa))
  {
    var sa := LocalAddress(sOut, isWord).value;
    var f := LastField(sa);
    assert Field(f);
    RoomCodeOf(sa, r);
    assert rv.code == ZFill(f, 3) + [DigitChar(r)];
    SuffixOfServerCode(f, r);
    TrimZerosValue(f);
  }

  /** The round trip: when the server's last field has no leading zero, the
      client's host is exactly the server's address, and its port the server's. */
  lemma RoundTripExact(sOut: Option<string>, cOut: Option<string>, isWord: char -> bool,
                       r: Digit, rv: Rendezvous, inputs: seq<string>)
    requires ServerRendezvous(sOut, isWord, r) == Ok(rv)
    requires LocalAddress(sOut, isWord).Some? && LocalAddress(cOut, isWord).Some?
    requires SubnetPrefixOf(LocalAddress(cOut, isWord).value) == SubnetPrefixOf(LocalAddress(sOut, isWord).value)
    requires FirstCode(inputs) == Some(rv.code)
    requires WellFormed(LocalAddress(sOut, isWord).value)
    requires LastField(LocalAddress(sOut, isWord).value)[0] != '0'
    ensures ClientTarget(cOut, isWord, inputs) == Ok(Target(LocalAddress(sOut, isWord).value, rv.port))
    ensures 10000 <= rv.port <= 19999
  {
    var sa := LocalAddress(sOut, isWord).value;
    ClientMeetsServer(sOut, cOut, isWord, r, rv, inputs);
    TrimZerosCanonical(LastField(sa));
    WellFormedPrefix(sa);
    ServerRendezvousFound(sOut, isWord, r);
  }

  /** The edge case: a last field worth 0 ("0", "00" or "000") rebuilds as the
      empty text, so the client's host is the prefix and a bare dot, which is not
      the server's address. */
  lemma ZeroOctet(sOut: Option<string>, cOut: Option<string>, isWord: char -> bool,
                  r: Digit, rv: Rendezvous, inputs: seq<string>)
    requires ServerRendezvous(sOut, isWord, r) == Ok(rv)
    requires LocalAddress(sOut, isWord).Some? && LocalAddress(cOut, isWord).Some?
    requires SubnetPrefixOf(LocalAddress(cOut, isWord).value) == SubnetPrefixOf(LocalAddress(sOut, isWord).value)
    requires FirstCode(inputs) == Some(rv.code)
    requires WellFormed(LocalAddress(sOut, isWord).value)
    requires Value(LastField(LocalAddress(sOut, isWord).value)) == 0
    ensures var sa := LocalAddress(sOut, isWord).value;
      ClientTarget(cOut, isWord, inputs).Ok?
      && ClientTarget(cOut, isWord, inputs).value.host == SubnetPrefixOf(sa) + "."
      && ClientTarget(cOut, isWord, inputs).value.host != sa
  {
    var sa := LocalAddress(sOut, isWord).value;
    ClientMeetsServer(sOut, cOut, isWord, r, rv, inputs);
    var f := LastField(sa);
    assert Field(f);
    ValueZero(f);
    TrimZerosEmpty(f);
    var prefix := SubnetPrefixOf(sa);
    var host := ClientTarget(cOut, isWord, inputs).value.host;
    assert host == prefix + "." + "";
    assert prefix + "." + "" == prefix + ".";
    WellFormedPrefix(sa);
    assert |sa| == |prefix| + 1 + |f| > |host|;
  }
}
