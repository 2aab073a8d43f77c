/**
 * Finding the local address in the text a network-configuration command prints
 * (`get_local_ip_via_os_command`, identical in server.py and client.py). The code
 * searches the text with the regular expression
 *
 *   \b(192\.\d{1,3}\.\d{1,3}\.\d{1,3}|10\.\d{1,3}\.\d{1,3}\.\d{1,3})\b
 *
 * and returns the first match. The model follows the regular-expression engine's
 * backtracking order: at each start position, left to right, `\b` is tested, then
 * the alternative `192.` and after it `10.`, and every `\d{1,3}` tries three digits,
 * then two, then one. Which characters count as word characters for `\b` is a
 * parameter `isWord`.
 */
module AddressExtract {
  import opened PyStr

  /** `\b` at position `i` of `s`: exactly one of the characters around `i` is a
      word character (a position outside the text counts as a non-word one). */
  predicate WordBoundary(s: string, i: nat, isWord: char -> bool)
    requires i <= |s|
  {
    (i > 0 && isWord(s[i - 1])) != (i < |s| && isWord(s[i]))
  }

  /** The empty text has no boundary; at either end of the text there is one
      exactly when the character there is a word character. */
  lemma WordBoundaryEnds(s: string, i: nat, isWord: char -> bool)
    requires i <= |s|
    ensures WordBoundary(s, i, isWord) ==> s != []
    ensures i == 0 ==> (WordBoundary(s, i, isWord) <==> s != [] && isWord(s[0]))
    ensures i == |s| ==> (WordBoundary(s, i, isWord) <==> s != [] && isWord(s[|s| - 1]))
  {
  }

  /** The first alternative that succeeds, as a regular-expression engine tries them. */
  function Or(a: Option<nat>, b: Option<nat>): Option<nat>
  {
    if a.Some? then a else b
  }

  /** `\d{1,3}` (followed by `\.` and `n - 1` more groups, or by `\b` when `n == 1`)
      at position `p`, trying 3, then 2, then 1 digits; the end of the match, if any. */
  function Groups(s: string, p: nat, n: nat, isWord: char -> bool): (e: Option<nat>)
    requires n >= 1
    ensures e.Some? ==> p < e.value <= |s|
    decreases n, 1
  {
    Or(TryGroup(s, p, 3, n, isWord), Or(TryGroup(s, p, 2, n, isWord), TryGroup(s, p, 1, n, isWord)))
  }

  /** One choice of `k` digits for the current `\d{1,3}`, then the rest of the pattern. */
  function TryGroup(s: string, p: nat, k: nat, n: nat, isWord: char -> bool): (e: Option<nat>)
    requires n >= 1 && k >= 1
    ensures e.Some? ==> p + k <= e.value <= |s|
    decreases n, 0
  {
    if p + k > |s| || !AllDigits(s[p..p + k]) then None
    else if n == 1 then (if WordBoundary(s, p + k, isWord) then Some(p + k) else None)
    else if p + k < |s| && s[p + k] == '.' then Groups(s, p + k + 1, n - 1, isWord)
    else None
  }

  predicate LiteralAt(s: string, i: nat, lit: string)
  {
    i + |lit| <= |s| && s[i..i + |lit|] == lit
  }

  /** The whole pattern anchored at position `i`; the end of the match, if any. */
  function MatchAt(s: string, i: nat, isWord: char -> bool): (e: Option<nat>)
    requires i <= |s|
    ensures e.Some? ==> i < e.value <= |s|
  {
    if !WordBoundary(s, i, isWord) then None
    else Or(if LiteralAt(s, i, "192.") then Groups(s, i + 4, 3, isWord) else None,
            if LiteralAt(s, i, "10.") then Groups(s, i + 3, 3, isWord) else None)
  }

  /** The leftmost position at or after `from` where the pattern matches. */
  function LeftmostMatch(s: string, from: nat, isWord: char -> bool): (r: Option<nat>)
    requires from <= |s|
    ensures r.Some? ==> from <= r.value <= |s| && MatchAt(s, r.value, isWord).Some?
    decreases |s| - from
  {
    if MatchAt(s, from, isWord).Some? then Some(from)
    else if from == |s| then None
    else LeftmostMatch(s, from + 1, isWord)
  }

  /** The search finds the leftmost match: no position between `from` and the one
      it returns matches. */
  lemma {:induction false} NoMatchBefore(s: string, from: nat, j: nat, isWord: char -> bool)
    requires from <= j <= |s|
    requires LeftmostMatch(s, from, isWord).Some? && j < LeftmostMatch(s, from, isWord).value
    ensures MatchAt(s, j, isWord).None?
    decreases j - from
  {
    if j > from {
      NoMatchBefore(s, from + 1, j, isWord);
    }
  }

  /** When the search returns nothing, no position from `from` on matches. */
  lemma {:induction false} NoMatchAnywhere(s: string, from: nat, j: nat, isWord: char -> bool)
    requires from <= j <= |s| && LeftmostMatch(s, from, isWord).None?
    ensures MatchAt(s, j, isWord).None?
    decreases j - from
  {
    if j > from {
      NoMatchAnywhere(s, from + 1, j, isWord);
    }
  }

  /** `get_local_ip_via_os_command`: `output` is the command's text, or `None` when
      the command could not be run (unsupported system, failing or missing command);
      the result is the first match, or `None`. Whatever it returns is four
      dot-separated fields of 1 to 3 digits, the first "192" or "10", and is a
      piece of the text. */
  function LocalAddress(output: Option<string>, isWord: char -> bool): (r: Option<string>)
    ensures output.None? ==> r.None?
    ensures r.Some? ==> WellFormed(r.value) && Contains(output.value, r.value)
  {
    if output.None? then None
    else
      var s := output.value;
      match LeftmostMatch(s, 0, isWord)
      case None => None
      case Some(i) =>
        var e := MatchAt(s, i, isWord).value;
        MatchShape(s, i, e, isWord);
        assert OccursAt(s, s[i..e], i);
        Some(s[i..e])
  }

  // ---------------------------------------------------------------------------
  // What a match looks like

  /** One field of a dotted address as the pattern admits it: 1 to 3 digits. */
  predicate Field(f: string)
  {
    1 <= |f| <= 3 && AllDigits(f)
  }

  predicate Fields(parts: seq<string>)
  {
    forall t :: 0 <= t < |parts| ==> Field(parts[t])
  }

  lemma FieldsCons(f: string, rest: seq<string>)
    requires Field(f) && Fields(rest)
    ensures Fields([f] + rest)
  {
    forall t | 0 <= t < |rest| + 1 ensures Field(([f] + rest)[t]) {
      if t > 0 { assert ([f] + rest)[t] == rest[t - 1]; }
    }
  }

  /** `s[i..e]` is `s[i..m]`, the character at `m`, and `s[m + 1..e]`. */
  lemma SliceAround(s: string, i: nat, m: nat, e: nat)
    requires i <= m < e <= |s|
    ensures s[i..e] == s[i..m] + [s[m]] + s[m + 1..e]
  {
  }

  /** An address the extractor can return: four dot-separated fields of 1 to 3
      digits, the first of them "192" or "10". */
  predicate WellFormed(a: string)
  {
    var parts := SplitOn(a, ".");
    |parts| == 4 && Fields(parts) && (parts[0] == "192" || parts[0] == "10")
  }

  lemma DigitsNoDot(f: string)
    requires AllDigits(f)
    ensures '.' !in f
  {
    forall i | 0 <= i < |f| ensures f[i] != '.' {
      assert IsDigit(f[i]);
    }
  }

  /** A successful `Groups(s, p, n)` spans `n` dot-separated fields and ends at a `\b`. */
  lemma {:induction false} GroupsShape(s: string, p: nat, n: nat, e: nat, isWord: char -> bool)
    requires n >= 1 && Groups(s, p, n, isWord) == Some(e)
    ensures e <= |s| && p <= e
    ensures |SplitOn(s[p..e], ".")| == n && Fields(SplitOn(s[p..e], "."))
    ensures WordBoundary(s, e, isWord)
    decreases n, 1
  {
    if TryGroup(s, p, 3, n, isWord).Some? {
      TryGroupShape(s, p, 3, n, e, isWord);
    } else if TryGroup(s, p, 2, n, isWord).Some? {
      TryGroupShape(s, p, 2, n, e, isWord);
    } else {
      TryGroupShape(s, p, 1, n, e, isWord);
    }
  }

  lemma {:induction false} TryGroupShape(s: string, p: nat, k: nat, n: nat, e: nat, isWord: char -> bool)
    requires 1 <= k <= 3 && n >= 1 && TryGroup(s, p, k, n, isWord) == Some(e)
    ensures p + k <= e <= |s|
    ensures |SplitOn(s[p..e], ".")| == n && Fields(SplitOn(s[p..e], "."))
    ensures WordBoundary(s, e, isWord)
    decreases n, 0
  {
    if n == 1 {
      LastGroupShape(s, p, k, e, isWord);
    } else {
      InnerGroupStep(s, p, k, n, e, isWord);
      GroupsShape(s, p + k + 1, n - 1, e, isWord);
      InnerGroupShape(s, p, k, e, SplitOn(s[p + k + 1..e], "."));
    }
  }

  /** An inner group that succeeds is `k` digits and a dot, then the remaining groups. */
  lemma InnerGroupStep(s: string, p: nat, k: nat, n: nat, e: nat, isWord: char -> bool)
    requires 1 <= k <= 3 && n >= 2 && TryGroup(s, p, k, n, isWord) == Some(e)
    ensures p + k < |s| && AllDigits(s[p..p + k]) && s[p + k] == '.'
    ensures Groups(s, p + k + 1, n - 1, isWord) == Some(e)
  {
  }

  /** The last group is one field, followed by a `\b`. */
  lemma LastGroupShape(s: string, p: nat, k: nat, e: nat, isWord: char -> bool)
    requires 1 <= k <= 3 && TryGroup(s, p, k, 1, isWord) == Some(e)
    ensures e == p + k <= |s| && WordBoundary(s, e, isWord)
    ensures SplitOn(s[p..e], ".") == [s[p..e]] && Fields([s[p..e]])
  {
    var f := s[p..p + k];
    assert Field(f);
    DigitsNoDot(f);
    SplitNoSep(f, '.');
    FieldsCons(f, []);
    assert [f] + [] == [f];
  }

  /** An inner group: one field, a dot, and the fields of the groups after it. */
  lemma InnerGroupShape(s: string, p: nat, k: nat, e: nat, rest: seq<string>)
    requires 1 <= k <= 3 && p + k < e <= |s| && AllDigits(s[p..p + k]) && s[p + k] == '.'
    requires rest == SplitOn(s[p + k + 1..e], ".") && Fields(rest)
    ensures SplitOn(s[p..e], ".") == [s[p..p + k]] + rest && Fields([s[p..p + k]] + rest)
  {
    SplitField(s, p, k, e);
    FieldsCons(s[p..p + k], rest);
  }

  /** A field of digits and a dot at the front of `s[p..e]` split off as the
      first piece. */
  lemma SplitField(s: string, p: nat, k: nat, e: nat)
    requires p + k < e <= |s| && AllDigits(s[p..p + k]) && s[p + k] == '.'
    ensures SplitOn(s[p..e], ".") == [s[p..p + k]] + SplitOn(s[p + k + 1..e], ".")
  {
    var f, rest := s[p..p + k], s[p + k + 1..e];
    DigitsNoDot(f);
    SliceAround(s, p, p + k, e);
    assert s[p..e] == f + ['.'] + rest;
    SplitFirst(f, '.', rest);
  }

  /** A text starting with `lit.` splits into `lit` and the pieces after the dot. */
  lemma LiteralSplit(s: string, i: nat, lit: string, e: nat)
    requires '.' !in lit
    requires LiteralAt(s, i, lit + ".") && i + |lit| + 1 <= e <= |s|
    ensures SplitOn(s[i..e], ".") == [lit] + SplitOn(s[i + |lit| + 1..e], ".")
  {
    var p := i + |lit| + 1;
    SliceAround(s, i, p - 1, e);
    assert s[i..p - 1] == lit by {
      assert s[i..p - 1] == s[i..i + |lit| + 1][..|lit|];
    }
    assert s[p - 1] == '.' by {
      assert s[p - 1] == s[i..i + |lit| + 1][|lit|];
    }
    SplitFirst(lit, '.', s[p..e]);
  }

  /** The alternative `lit.` followed by `n` groups, matched from `i` to `e`. */
  lemma BranchShape(s: string, i: nat, lit: string, n: nat, e: nat, isWord: char -> bool)
    requires n >= 1 && Field(lit)
    requires LiteralAt(s, i, lit + ".") && Groups(s, i + |lit| + 1, n, isWord) == Some(e)
    ensures i + |lit| + 1 <= e <= |s|
    ensures var parts := SplitOn(s[i..e], ".");
      |parts| == n + 1 && Fields(parts) && parts[0] == lit
    ensures WordBoundary(s, e, isWord)
  {
    var p := i + |lit| + 1;
    GroupsShape(s, p, n, e, isWord);
    DigitsNoDot(lit);
    LiteralSplit(s, i, lit, e);
    FieldsCons(lit, SplitOn(s[p..e], "."));
  }

  /** Every match is a well-formed address delimited by `\b` on both sides. */
  lemma MatchShape(s: string, i: nat, e: nat, isWord: char -> bool)
    requires i <= |s| && MatchAt(s, i, isWord) == Some(e)
    ensures i <= e <= |s|
    ensures WellFormed(s[i..e]) && WordBoundary(s, i, isWord) && WordBoundary(s, e, isWord)
  {
    if LiteralAt(s, i, "192.") && Groups(s, i + 4, 3, isWord).Some? {
      assert Groups(s, i + 4, 3, isWord) == Some(e);
      assert "192" + "." == "192.";
      BranchShape(s, i, "192", 3, e, isWord);
    } else {
      assert LiteralAt(s, i, "10.") && Groups(s, i + 3, 3, isWord) == Some(e);
      assert "10" + "." == "10.";
      BranchShape(s, i, "10", 3, e, isWord);
    }
  }

  // ---------------------------------------------------------------------------
  // Every address in the text is found: the converse of MatchShape

  /** If the text from `p` to `e` is `n` fields joined by dots and ends at a `\b`,
      the backtracking search of `Groups` succeeds (perhaps with other lengths). */
  lemma {:induction false} GroupsComplete(s: string, p: nat, parts: seq<string>, e: nat, isWord: char -> bool)
    requires |parts| >= 1 && Fields(parts)
    requires p <= e <= |s| && s[p..e] == Join(parts, ".") && WordBoundary(s, e, isWord)
    ensures Groups(s, p, |parts|, isWord).Some?
    decreases |parts|
  {
    var f := parts[0];
    var k := |f|;
    var n := |parts|;
    assert Field(f);
    if n == 1 {
      assert s[p..e] == f;
      TryGroupLast(s, p, k, isWord);
    } else {
      var rest := parts[1..];
      FieldsTail(parts);
      assert Join(parts, ".") == f + "." + Join(rest, ".");
      SliceHalves(s, p, e, f + ".", Join(rest, "."));
      assert s[p..p + k + 1] == f + ".";
      assert s[p..p + k] == f && s[p + k] == '.' by {
        assert s[p..p + k] == s[p..p + k + 1][..k];
        assert s[p + k] == s[p..p + k + 1][k];
      }
      GroupsComplete(s, p + k + 1, rest, e, isWord);
      TryGroupNext(s, p, k, n, isWord);
    }
    GroupsFromTry(s, p, k, n, isWord);
  }

  /** One successful choice of digit count makes the whole search succeed. */
  lemma GroupsFromTry(s: string, p: nat, k: nat, n: nat, isWord: char -> bool)
    requires n >= 1 && 1 <= k <= 3 && TryGroup(s, p, k, n, isWord).Some?
    ensures Groups(s, p, n, isWord).Some?
  {
  }

  /** The last group: `k` digits followed by a `\b`. */
  lemma TryGroupLast(s: string, p: nat, k: nat, isWord: char -> bool)
    requires k >= 1 && p + k <= |s| && AllDigits(s[p..p + k]) && WordBoundary(s, p + k, isWord)
    ensures TryGroup(s, p, k, 1, isWord).Some?
  {
  }

  /** An inner group: `k` digits, a dot, and the remaining groups. */
  lemma TryGroupNext(s: string, p: nat, k: nat, n: nat, isWord: char -> bool)
    requires n >= 2 && k >= 1 && p + k < |s| && AllDigits(s[p..p + k]) && s[p + k] == '.'
    requires Groups(s, p + k + 1, n - 1, isWord).Some?
    ensures TryGroup(s, p, k, n, isWord).Some?
  {
  }

  /** A text with a dot is its first piece, a dot, and the rest rejoined. */
  lemma SplitHead(t: string)
    requires |SplitOn(t, ".")| >= 2
    ensures t == SplitOn(t, ".")[0] + "." + Join(SplitOn(t, ".")[1..], ".")
  {
    JoinSplit(t, ".");
  }

  /** The two halves of a slice that is a concatenation. */
  lemma SliceHalves(s: string, i: nat, e: nat, head: string, tail: string)
    requires i <= e <= |s| && s[i..e] == head + tail
    ensures i + |head| <= e
    ensures s[i..i + |head|] == head && s[i + |head|..e] == tail
  {
    assert s[i..i + |head|] == s[i..e][..|head|];
    assert s[i + |head|..e] == s[i..e][|head|..];
  }

  lemma FieldsTail(parts: seq<string>)
    requires |parts| >= 1 && Fields(parts)
    ensures Fields(parts[1..])
  {
    forall k | 0 <= k < |parts| - 1 ensures Field(parts[1..][k]) { assert parts[1..][k] == parts[k + 1]; }
  }

  /** `lit.` followed by three fields and a `\b`, where `lit` is "192" or "10"
      and `i` is a `\b`: the pattern matches at `i`. */
  lemma HeadMatches(s: string, i: nat, e: nat, lit: string, rest: seq<string>, isWord: char -> bool)
    requires i <= e <= |s| && WordBoundary(s, i, isWord) && WordBoundary(s, e, isWord)
    requires lit == "192" || lit == "10"
    requires |rest| == 3 && Fields(rest) && s[i..e] == lit + "." + Join(rest, ".")
    ensures MatchAt(s, i, isWord).Some?
  {
    var tail := Join(rest, ".");
    var p := i + |lit| + 1;
    LiteralThen(s, i, e, lit, tail);
    GroupsComplete(s, p, rest, e, isWord);
    if lit == "192" {
      assert lit + "." == "192.";
    } else {
      assert lit + "." == "10.";
    }
  }

  /** A text that is `lit.` followed by `tail` starts with the literal. */
  lemma LiteralThen(s: string, i: nat, e: nat, lit: string, tail: string)
    requires i <= e <= |s| && s[i..e] == lit + "." + tail
    ensures LiteralAt(s, i, lit + ".") && i + |lit| + 1 <= e && s[i + |lit| + 1..e] == tail
  {
    assert lit + "." + tail == (lit + ".") + tail;
    SliceHalves(s, i, e, lit + ".", tail);
  }

  /** A well-formed address between two `\b` positions is matched where it starts. */
  lemma MatchComplete(s: string, i: nat, e: nat, isWord: char -> bool)
    requires i <= e <= |s| && WellFormed(s[i..e])
    requires WordBoundary(s, i, isWord) && WordBoundary(s, e, isWord)
    ensures MatchAt(s, i, isWord).Some?
  {
    var parts := SplitOn(s[i..e], ".");
    SplitHead(s[i..e]);
    FieldsTail(parts);
    HeadMatches(s, i, e, parts[0], parts[1..], isWord);
  }

  /** The extractor finds an address whenever the text holds one between two `\b`
      positions, and what it returns starts no later than that one. */
  lemma LocalAddressComplete(s: string, i: nat, e: nat, isWord: char -> bool)
    requires i <= e <= |s| && WellFormed(s[i..e])
    requires WordBoundary(s, i, isWord) && WordBoundary(s, e, isWord)
    ensures LocalAddress(Some(s), isWord).Some?
    ensures LeftmostMatch(s, 0, isWord).Some? && LeftmostMatch(s, 0, isWord).value <= i
  {
    MatchComplete(s, i, e, isWord);
    if LeftmostMatch(s, 0, isWord).None? {
      NoMatchAnywhere(s, 0, i, isWord);
    } else if i < LeftmostMatch(s, 0, isWord).value {
      NoMatchBefore(s, 0, i, isWord);
    }
  }
}
