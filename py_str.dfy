/**
 * The few Python string and integer built-ins that the rendezvous code relies on,
 * written out with Python's semantics: `in` on strings, `str.split(sep)`,
 * `sep.join(parts)`, `str.strip()`, `str.zfill(width)` and `int(text)` in base 10.
 * Errors the built-ins raise are values of `PyError`.
 */
module PyStr {

  datatype Option<+T> = None | Some(value: T)

  /** The Python exceptions the modelled code can raise. */
  datatype PyError = IndexError | ValueError | AttributeError | EOFError

  datatype Result<+T> = Ok(value: T) | Err(error: PyError)

  // ---------------------------------------------------------------------------
  // Decimal digits

  predicate IsDigit(c: char) { '0' <= c <= '9' }

  predicate AllDigits(s: string) { forall i :: 0 <= i < |s| ==> IsDigit(s[i]) }

  function DigitValue(c: char): (d: nat)
    requires IsDigit(c)
    ensures d <= 9
  {
    (c as int) - ('0' as int)
  }

  /** The character `str(d)` for a single decimal digit `d`. */
  function DigitChar(d: nat): (c: char)
    requires d <= 9
    ensures IsDigit(c) && DigitValue(c) == d
  {
    (('0' as int) + d) as char
  }

  function Pow10(n: nat): (p: nat)
    ensures p >= 1
  {
    if n == 0 then 1 else 10 * Pow10(n - 1)
  }

  /** The value of a string of decimal digits, read most significant digit first. */
  function Value(s: string): (v: nat)
    requires AllDigits(s)
    ensures v < Pow10(|s|)
  {
    if s == [] then 0 else 10 * Value(s[..|s| - 1]) + DigitValue(s[|s| - 1])
  }

  /** Appending one digit shifts the value one place left. */
  lemma ValueSnoc(z: string, c: char)
    requires AllDigits(z) && IsDigit(c)
    ensures AllDigits(z + [c])
    ensures Value(z + [c]) == 10 * Value(z) + DigitValue(c)
  {
    var s := z + [c];
    assert s[..|s| - 1] == z;
    assert AllDigits(s) by {
      forall i | 0 <= i < |s| ensures IsDigit(s[i]) {
        if i < |z| { assert s[i] == z[i]; }
      }
    }
  }

  lemma {:induction false} ValueAppend(a: string, b: string)
    requires AllDigits(a) && AllDigits(b)
    ensures AllDigits(a + b)
    ensures Value(a + b) == Value(a) * Pow10(|b|) + Value(b)
    decreases |b|
  {
    if b == [] {
      assert a + b == a;
    } else {
      var b', c := b[..|b| - 1], b[|b| - 1];
      assert b == b' + [c];
      assert a + b == (a + b') + [c];
      ValueAppend(a, b');
      ValueSnoc(a + b', c);
      ValueSnoc(b', c);
      ShiftDigit(Value(a), Pow10(|b'|), Value(b'), DigitValue(c));
    }
  }

  /** The arithmetic step of ValueAppend. */
  lemma ShiftDigit(va: int, p: int, vb: int, d: int)
    ensures 10 * (va * p + vb) + d == va * (10 * p) + (10 * vb + d)
  {
    assert 10 * (va * p) == va * (10 * p);
  }

  /** Only a string of '0's is worth 0. */
  lemma {:induction false} ValueZero(s: string)
    requires AllDigits(s) && Value(s) == 0
    ensures forall j :: 0 <= j < |s| ==> s[j] == '0'
  {
    if s != [] {
      var p := s[..|s| - 1];
      ValueZero(p);
      forall j | 0 <= j < |s| ensures s[j] == '0' {
        if j < |s| - 1 { assert s[j] == p[j]; }
      }
    }
  }

  /** `n` copies of the character '0'. */
  function Zeros(n: nat): (z: string)
    ensures |z| == n && AllDigits(z)
    ensures forall i :: 0 <= i < n ==> z[i] == '0'
  {
    if n == 0 then "" else "0" + Zeros(n - 1)
  }

  lemma {:induction false} ZerosValue(n: nat)
    ensures Value(Zeros(n)) == 0
  {
    if n > 0 {
      ZerosValue(n - 1);
      ValueAppend("0", Zeros(n - 1));
    }
  }

  // ---------------------------------------------------------------------------
  // Substring search: `sep in s` and `s.find(sep)`

  predicate OccursAt(s: string, sep: string, k: nat)
  {
    k + |sep| <= |s| && s[k..k + |sep|] == sep
  }

  /** The index of the leftmost occurrence of `sep` in `s`, if any. */
  function Find(s: string, sep: string): (r: Option<nat>)
    ensures r.Some? ==> OccursAt(s, sep, r.value)
    ensures r.Some? ==> forall j :: 0 <= j < r.value ==> !OccursAt(s, sep, j)
    ensures r.None? ==> forall j :: 0 <= j <= |s| ==> !OccursAt(s, sep, j)
    decreases |s|
  {
    if |s| < |sep| then None
    else if s[..|sep|] == sep then Some(0)
    else
      var rest := Find(s[1..], sep);
      assert forall j :: 1 <= j <= |s| ==> (OccursAt(s, sep, j) <==> OccursAt(s[1..], sep, j - 1)) by {
        forall j | 1 <= j <= |s| ensures OccursAt(s, sep, j) <==> OccursAt(s[1..], sep, j - 1) {
          if j + |sep| <= |s| { assert s[1..][j - 1..j - 1 + |sep|] == s[j..j + |sep|]; }
        }
      }
      assert !OccursAt(s, sep, 0) by { assert s[0..|sep|] == s[..|sep|]; }
      match rest
      case None => None
      case Some(k) => Some(k + 1)
  }

  /** Python's `sep in s`. */
  predicate Contains(s: string, sep: string)
  {
    Find(s, sep).Some?
  }

  lemma ContainsChar(s: string, c: char)
    ensures Contains(s, [c]) <==> c in s
  {
    if c in s {
      var k :| 0 <= k < |s| && s[k] == c;
      assert OccursAt(s, [c], k);
    }
    if Contains(s, [c]) {
      var k := Find(s, [c]).value;
      assert s[k..k + 1][0] == s[k];
    }
  }

  // ---------------------------------------------------------------------------
  // `s.split(sep)` and `sep.join(parts)`

  /** Python's `s.split(sep)` for a non-empty separator: the pieces between
      the leftmost non-overlapping occurrences of `sep`, in order. */
  function SplitOn(s: string, sep: string): (parts: seq<string>)
    requires sep != []
    ensures |parts| >= 1
    ensures |parts| > 1 <==> Contains(s, sep)
    decreases |s|
  {
    match Find(s, sep)
    case None => [s]
    case Some(k) => [s[..k]] + SplitOn(s[k + |sep|..], sep)
  }

  /** Python's `sep.join(parts)`: the text starts with the first piece. */
  function Join(parts: seq<string>, sep: string): (r: string)
    ensures |parts| >= 1 ==> parts[0] <= r
  {
    if |parts| == 0 then ""
    else if |parts| == 1 then parts[0]
    else parts[0] + sep + Join(parts[1..], sep)
  }

  /** Joining the pieces of a split with the same separator gives back the text. */
  lemma {:induction false} JoinSplit(s: string, sep: string)
    requires sep != []
    ensures Join(SplitOn(s, sep), sep) == s
    decreases |s|
  {
    match Find(s, sep)
    case None =>
    case Some(k) =>
      var rest := s[k + |sep|..];
      JoinSplit(rest, sep);
      SplitStep(s, sep, k);
      OccursSplit(s, sep, k);
      JoinCons(s[..k], SplitOn(rest, sep), sep);
  }

  /** One step of the split: the piece before the leftmost separator, then the rest. */
  lemma SplitStep(s: string, sep: string, k: nat)
    requires sep != [] && Find(s, sep) == Some(k)
    ensures SplitOn(s, sep) == [s[..k]] + SplitOn(s[k + |sep|..], sep)
  {
  }

  /** Text around an occurrence of `sep` is the text before, `sep`, and the text after. */
  lemma OccursSplit(s: string, sep: string, k: nat)
    requires OccursAt(s, sep, k)
    ensures s == s[..k] + sep + s[k + |sep|..]
  {
    assert s[k..k + |sep|] == sep;
  }

  lemma JoinCons(head: string, tail: seq<string>, sep: string)
    requires |tail| >= 1
    ensures Join([head] + tail, sep) == head + sep + Join(tail, sep)
  {
    assert ([head] + tail)[1..] == tail;
  }

  /** Dropping the last piece, as `list.pop()` does before a join. */
  lemma {:induction false} JoinSnoc(parts: seq<string>, sep: string)
    requires |parts| >= 2
    ensures Join(parts, sep) == Join(parts[..|parts| - 1], sep) + sep + parts[|parts| - 1]
    decreases |parts|
  {
    if |parts| > 2 {
      JoinSnoc(parts[1..], sep);
      assert parts[1..][..|parts| - 2] == parts[..|parts| - 1][1..];
    }
  }

  /** With a one-character separator every piece is free of that character. */
  lemma {:induction false} SplitPiecesFree(s: string, c: char)
    ensures forall t :: 0 <= t < |SplitOn(s, [c])| ==> c !in SplitOn(s, [c])[t]
    decreases |s|
  {
    match Find(s, [c])
    case None =>
      forall i | 0 <= i < |s| ensures s[i] != c { assert !OccursAt(s, [c], i); }
    case Some(k) =>
      SplitPiecesFree(s[k + 1..], c);
      forall i | 0 <= i < k ensures s[i] != c { assert !OccursAt(s, [c], i); }
  }

  lemma SplitNoSep(a: string, c: char)
    requires c !in a
    ensures SplitOn(a, [c]) == [a]
  {
    ContainsChar(a, c);
  }

  /** Splitting `a + c + b` on `c` where `a` has no `c` peels off `a`. */
  lemma SplitFirst(a: string, c: char, b: string)
    requires c !in a
    ensures SplitOn(a + [c] + b, [c]) == [a] + SplitOn(b, [c])
  {
    var s := a + [c] + b;
    assert OccursAt(s, [c], |a|) by { assert s[|a|..|a| + 1] == [c]; }
    forall j | 0 <= j < |a| ensures !OccursAt(s, [c], j) {
      assert s[j..j + 1][0] == a[j];
    }
    var k := Find(s, [c]).value;
    assert k == |a|;
    assert s[..k] == a;
    assert s[k + 1..] == b;
  }

  // ---------------------------------------------------------------------------
  // `str.strip()`, and the white space `int()` ignores

  /** `str.isspace()` for one character: exactly the characters CPython treats as
      white space (Unicode bidirectional classes WS, B, S and category Zs). */
  predicate IsSpace(c: char)
  {
    var n := c as int;
    (9 <= n <= 13) || (28 <= n <= 32) || n == 0x85 || n == 0xA0 || n == 0x1680
    || (0x2000 <= n <= 0x200A) || n == 0x2028 || n == 0x2029 || n == 0x202F
    || n == 0x205F || n == 0x3000
  }

  /** The white space `int()` skips around a number. CPython keeps every character
      below 127 as it is and then skips only ' ', '\t', '\n', '\v', '\f' and '\r';
      a character from 127 on that `str.isspace()` accepts becomes a space first.
      So U+001C to U+001F, white space to `strip()`, are not white space to `int()`. */
  predicate IntSpace(c: char)
  {
    c == ' ' || ('\t' <= c <= '\r') || (c as int >= 127 && IsSpace(c))
  }

  /** `s` without its leading characters in `space`. */
  function LStrip(s: string, space: char -> bool): string
  {
    if s != [] && space(s[0]) then LStrip(s[1..], space) else s
  }

  /** `s` without its trailing characters in `space`. */
  function RStrip(s: string, space: char -> bool): string
  {
    if s != [] && space(s[|s| - 1]) then RStrip(s[..|s| - 1], space) else s
  }

  /** Left stripping removes exactly the leading run of `space` characters. */
  lemma {:induction false} LStripShape(s: string, space: char -> bool)
    ensures var r := LStrip(s, space);
      |r| <= |s| && r == s[|s| - |r|..]
      && (forall i :: 0 <= i < |s| - |r| ==> space(s[i]))
      && (r == [] || !space(r[0]))
  {
    if s != [] && space(s[0]) {
      LStripShape(s[1..], space);
      var r := LStrip(s, space);
      forall i | 1 <= i < |s| - |r| ensures space(s[i]) { assert s[i] == s[1..][i - 1]; }
    }
  }

  /** Right stripping removes exactly the trailing run of `space` characters. */
  lemma {:induction false} RStripShape(s: string, space: char -> bool)
    ensures var r := RStrip(s, space);
      |r| <= |s| && r == s[..|r|]
      && (forall i :: |r| <= i < |s| ==> space(s[i]))
      && (r == [] || !space(r[|r| - 1]))
  {
    if s != [] && space(s[|s| - 1]) {
      RStripShape(s[..|s| - 1], space);
      var r := RStrip(s, space);
      forall i | |r| <= i < |s| - 1 ensures space(s[i]) { assert s[i] == s[..|s| - 1][i]; }
    }
  }

  /** Python's `s.strip()`: white space removed from both ends. The result occurs
      in `s`, neither starts nor ends with white space, and is empty exactly when
      `s` is all white space. */
  function Strip(s: string): (r: string)
    ensures Contains(s, r)
    ensures r == [] || (!IsSpace(r[0]) && !IsSpace(r[|r| - 1]))
    ensures r == [] <==> forall i :: 0 <= i < |s| ==> IsSpace(s[i])
  {
    var l := LStrip(s, IsSpace);
    LStripShape(s, IsSpace);
    RStripShape(l, IsSpace);
    var r := RStrip(l, IsSpace);
    var k := |s| - |l|;
    assert OccursAt(s, r, k) by { assert r == s[k..k + |r|]; }
    assert r == [] ==> l == [];
    r
  }

  /** Stripping text that has no white space at either end changes nothing. */
  lemma StripKeeps(s: string, space: char -> bool)
    requires s != [] && !space(s[0]) && !space(s[|s| - 1])
    ensures RStrip(LStrip(s, space), space) == s
  {
  }

  // ---------------------------------------------------------------------------
  // `str.zfill(width)`

  /** Python's `s.zfill(width)`: left-pads with '0' to `width` characters; a leading
      sign stays in front of the padding; a string already that long is unchanged. */
  function ZFill(s: string, width: nat): (r: string)
    ensures |r| == if |s| >= width then |s| else width
    ensures |s| >= width ==> r == s
  {
    if |s| >= width then s
    else if |s| > 0 && (s[0] == '+' || s[0] == '-') then [s[0]] + Zeros(width - |s|) + s[1..]
    else Zeros(width - |s|) + s
  }

  /** Padding a digit string adds only leading zeros: the result ends with the
      original text, and its value is unchanged. */
  lemma ZFillDigits(s: string, width: nat)
    requires AllDigits(s)
    ensures AllDigits(ZFill(s, width))
    ensures |s| < width ==> ZFill(s, width) == Zeros(width - |s|) + s
    ensures ZFill(s, width)[|ZFill(s, width)| - |s|..] == s
    ensures Value(ZFill(s, width)) == Value(s)
  {
    if |s| < width {
      var z := Zeros(width - |s|);
      assert s == [] || IsDigit(s[0]);
      assert ZFill(s, width) == z + s;
      ZerosValue(width - |s|);
      PadDigits(z, s);
    }
  }

  /** Digits worth nothing, put in front, keep the value. */
  lemma PadDigits(z: string, s: string)
    requires AllDigits(z) && AllDigits(s) && Value(z) == 0
    ensures AllDigits(z + s) && (z + s)[|z|..] == s && Value(z + s) == Value(s)
  {
    ValueAppend(z, s);
    assert (z + s)[|z|..] == s;
  }

  // ---------------------------------------------------------------------------
  // `int(text)` in base 10

  /** Digits with single underscores between them: what `int()` accepts after the sign. */
  predicate IntBody(b: string)
  {
    |b| > 0 && IsDigit(b[0]) && IntTail(b[1..])
  }

  predicate IntTail(b: string)
    decreases |b|
  {
    b == []
    || (IsDigit(b[0]) && IntTail(b[1..]))
    || (b[0] == '_' && |b| > 1 && IsDigit(b[1]) && IntTail(b[1..]))
  }

  /** The digits of `b` in order, with every other character dropped. */
  function DigitsOf(b: string): (d: string)
    ensures AllDigits(d) && |d| <= |b|
  {
    if b == [] then ""
    else if IsDigit(b[0]) then [b[0]] + DigitsOf(b[1..])
    else DigitsOf(b[1..])
  }

  /** The default limit on the number of digits `int()` converts from a string
      (`sys.get_int_max_str_digits()`). */
  const MaxStrDigits: nat := 4300

  /** Python's `int(text)`: white space in the sense of `IntSpace` around the
      number is ignored, one optional sign, then ASCII digits with single
      underscores allowed between them; anything else, and more than
      `MaxStrDigits` digits, is a `ValueError`. A plain digit string within the
      limit gives its decimal value. */
  function ParseInt(text: string): (r: Result<int>)
    ensures r.Err? ==> r.error == ValueError
    ensures text != [] && AllDigits(text) && |text| <= MaxStrDigits ==> r == Ok(Value(text))
    ensures AllDigits(text) && |text| > MaxStrDigits ==> r == Err(ValueError)
  {
    PlainDigits(text);
    var t := RStrip(LStrip(text, IntSpace), IntSpace);
    var signed := |t| > 0 && (t[0] == '+' || t[0] == '-');
    var body := if signed then t[1..] else t;
    if !IntBody(body) then Err(ValueError)
    else if |DigitsOf(body)| > MaxStrDigits then Err(ValueError)
    else
      var magnitude: int := Value(DigitsOf(body));
      Ok(if signed && t[0] == '-' then -magnitude else magnitude)
  }

  /** A plain digit string has nothing to strip, no sign, and is a valid body
      whose digits are itself. */
  lemma PlainDigits(d: string)
    ensures d != [] && AllDigits(d) ==>
      RStrip(LStrip(d, IntSpace), IntSpace) == d && IntBody(d) && DigitsOf(d) == d
  {
    if d != [] && AllDigits(d) {
      StripKeeps(d, IntSpace);
      DigitsIntTail(d[1..]);
      DigitsIntTail(d);
    }
  }

  lemma {:induction false} IntTailChars(b: string)
    requires IntTail(b)
    ensures forall i :: 0 <= i < |b| ==> IsDigit(b[i]) || b[i] == '_'
    decreases |b|
  {
    if b != [] {
      IntTailChars(b[1..]);
      assert forall i :: 1 <= i < |b| ==> b[i] == b[1..][i - 1];
    }
  }

  lemma {:induction false} DigitsIntTail(d: string)
    requires AllDigits(d)
    ensures IntTail(d) && DigitsOf(d) == d
    decreases |d|
  {
    if d != [] {
      DigitsIntTail(d[1..]);
      assert [d[0]] + d[1..] == d;
    }
  }

  /** A one-digit prefix worth 1 adds 10^|d| to the value of `d`. */
  lemma ValueLeadingOne(one: string, d: string)
    requires AllDigits(one) && AllDigits(d) && Value(one) == 1
    ensures AllDigits(one + d) && Value(one + d) == Pow10(|d|) + Value(d)
  {
    ValueAppend(one, d);
  }

  /** `int("1" + d)` of a digit string `d` is 10^|d| plus the value of `d`. */
  lemma ParseLeadingOne(d: string)
    requires AllDigits(d) && |d| < MaxStrDigits
    ensures ParseInt("1" + d) == Ok(Pow10(|d|) + Value(d))
  {
    assert Value("1") == 1 by { assert "1"[..0] == ""; }
    ValueLeadingOne("1", d);
  }

  /** A character that `int()` cannot read, anywhere after a leading digit, makes
      it fail: one that is not an ASCII digit, not an underscore, not white space
      to `int()`, and lies in ASCII or in the CJK ideographs U+4E00 to U+9FFF
      (neither range holds a Unicode decimal digit other than '0' to '9'). */
  lemma ParseRejects(text: string, i: nat)
    requires text != [] && IsDigit(text[0])
    requires i < |text| && !IsDigit(text[i]) && text[i] != '_' && !IntSpace(text[i])
    requires text[i] as int < 128 || 0x4E00 <= text[i] as int <= 0x9FFF
    ensures ParseInt(text) == Err(ValueError)
  {
    var l := LStrip(text, IntSpace);
    assert l == text;
    var t := RStrip(l, IntSpace);
    RStripShape(l, IntSpace);
    assert i < |t|;
    assert t[i] == text[i];
    if IntBody(t) {
      IntTailChars(t[1..]);
    }
  }
}
