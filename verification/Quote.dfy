/** Percent quoting and its in-place inverse, onion/codecs.c. */
module Quote {
  import opened Wrappers
  import opened CText

  /** `isalnum` in the C locale */
  predicate IsAlnum(c: char) {
    '0' <= c <= '9' || 'A' <= c <= 'Z' || 'a' <= c <= 'z'
  }

  /** C strings of 8-bit characters */
  predicate Bytes(s: string) {
    forall i :: 0 <= i < |s| ==> s[i] != NUL && s[i] as int < 256
  }

  function QuoteChar(c: char): (q: string)
    ensures 1 <= |q| <= 3
  {
    if IsAlnum(c) then [c] else ['%', HexDigit(c as nat / 16 % 16), HexDigit(c as nat % 16)]
  }

  /** Section 2.1 of RFC 3986, everything but letters and digits escaped. */
  function Quoted(s: string): (q: string)
    ensures |s| <= |q| <= 3 * |s|
  {
    if s == [] then [] else Quoted(s[..|s| - 1]) + QuoteChar(s[|s| - 1])
  }

  // ------------------------------------------------------------------ quoting

  /** Where `onion_quote` stops: it compares the limit with what it has read, not with what it has written. */
  function Cut(s: string, i: nat, max: int): (k: nat)
    requires i <= |s|
    ensures i <= k <= |s|
    decreases |s| - i
  {
    if i == |s| || i >= max || (!IsAlnum(s[i]) && i + 2 >= max) then i else Cut(s, i + 1, max)
  }

  lemma {:induction false} QuotedGrows(s: string, a: nat, b: nat)
    requires a <= b <= |s|
    ensures |Quoted(s[..a])| + (b - a) <= |Quoted(s[..b])|
    decreases b - a
  {
    if a == b {
    } else {
      QuotedGrows(s, a, b - 1);
      assert s[..b][..b - 1] == s[..b - 1];
    }
  }

  lemma QuotedStep(s: string, i: nat)
    requires i < |s|
    ensures Quoted(s[..i + 1]) == Quoted(s[..i]) + QuoteChar(s[i])
  {
    assert s[..i + 1][..i] == s[..i];
  }

  /** `onion_quote`, given room for what it writes. */
  method QuoteInto(str: string, res: array<char>, max: int) returns (nl: nat)
    requires |Quoted(str[..Cut(str, 0, max)])| < res.Length
    modifies res
    ensures nl == |Quoted(str[..Cut(str, 0, max)])|
    ensures res[..nl] == Quoted(str[..Cut(str, 0, max)]) && res[nl] == NUL
    ensures forall j :: nl < j < res.Length ==> res[j] == old(res[j])
  {
    hide Quoted, QuoteChar, IsAlnum;
    nl := 0;
    var i := 0;
    ghost var k := Cut(str, 0, max);
    assert Quoted(str[..0]) == [] by { QuotedNothing(str); }
    while i < |str|
      invariant i <= k && Cut(str, i, max) == k
      invariant nl == |Quoted(str[..i])| && nl < res.Length && res[..nl] == Quoted(str[..i])
      invariant forall j :: nl <= j < res.Length ==> res[j] == old(res[j])
    {
      if i >= max {
        break;
      }
      var c := str[i];
      if !IsAlnum(c) && i + 2 >= max {
        break;
      }
      QuotedGrows(str, i + 1, k);
      QuotedStep(str, i);
      QuoteCharIs(c);
      if IsAlnum(c) {
        res[nl] := c;
        nl := nl + 1;
      } else {
        res[nl] := '%';
        res[nl + 1] := HexDigit(c as nat / 16 % 16);
        res[nl + 2] := HexDigit(c as nat % 16);
        nl := nl + 3;
      }
      i := i + 1;
    }
    res[nl] := NUL;
  }

  lemma QuotedNothing(s: string)
    ensures Quoted(s[..0]) == []
  {
  }

  lemma QuoteCharIs(c: char)
    ensures QuoteChar(c) ==
      if IsAlnum(c) then [c] else ['%', HexDigit(c as nat / 16 % 16), HexDigit(c as nat % 16)]
  {
  }

  lemma {:induction false} NoCut(s: string, i: nat, max: int)
    requires i <= |s| && |Quoted(s)| < max
    ensures Cut(s, i, max) == |s|
    decreases |s| - i
  {
    hide Quoted, QuoteChar, IsAlnum;
    if i == |s| {
    } else {
      QuotedGrows(s, 0, i);
      QuotedStep(s, i);
      QuoteCharIs(s[i]);
      QuotedGrows(s, i + 1, |s|);
      assert s[..|s|] == s;
      NoCut(s, i + 1, max);
    }
  }

  /** `onion_quote_new`: what it allocates is exactly what it fills. */
  method QuoteNew(str: string) returns (ret: array<char>)
    ensures fresh(ret) && ret[..] == Quoted(str) + [NUL]
  {
    hide Quoted, IsAlnum, QuoteChar;
    var nl := 1;
    assert Quoted(str[..0]) == [] by { QuotedNothing(str); }
    for i := 0 to |str|
      invariant nl == |Quoted(str[..i])| + 1
    {
      QuotedStep(str, i);
      QuoteCharIs(str[i]);
      nl := nl + if IsAlnum(str[i]) then 1 else 3;
    }
    assert str[..|str|] == str;
    ret := new char[nl];
    NoCut(str, 0, nl);
    var n := QuoteInto(str, ret, nl);
    assert ret[..] == ret[..n] + [ret[n]];
  }

  predicate AllAlnum(s: string) {
    forall i :: 0 <= i < |s| ==> IsAlnum(s[i])
  }

  lemma {:induction false} AlnumQuoted(s: string)
    ensures |Quoted(s)| == |s| <==> AllAlnum(s)
    ensures |Quoted(s)| != |s| ==> |Quoted(s)| >= |s| + 2
  {
    if s == [] {
    } else {
      var n := |s| - 1;
      AlnumQuoted(s[..n]);
      assert AllAlnum(s) <==> AllAlnum(s[..n]) && IsAlnum(s[n]);
    }
  }

  lemma {:induction false} CutIs(s: string, i: nat, max: int)
    requires i <= |s|
    ensures var k := Cut(s, i, max); k == |s| || k >= max || (!IsAlnum(s[k]) && k + 2 >= max)
    decreases |s| - i
  {
    if i == |s| || i >= max || (!IsAlnum(s[i]) && i + 2 >= max) {
    } else {
      CutIs(s, i + 1, max);
    }
  }

  lemma {:induction false} CutBelow(s: string, i: nat, max: int)
    requires i <= |s| && i <= max
    ensures Cut(s, i, max) <= max
    decreases |s| - i
  {
    if i == |s| || i >= max || (!IsAlnum(s[i]) && i + 2 >= max) {
    } else {
      CutBelow(s, i + 1, max);
    }
  }

  /** Where the first character that needs an escape stands. */
  function FirstEscape(s: string): (p: nat)
    ensures p <= |s| && AllAlnum(s[..p]) && (p < |s| ==> !IsAlnum(s[p]))
  {
    if s == [] || !IsAlnum(s[0]) then 0
    else
      var p := FirstEscape(s[1..]);
      assert forall i :: 0 < i < p + 1 ==> s[i] == s[1..][..p][i - 1];
      p + 1
  }

  lemma {:induction false} CutAtEscape(s: string, i: nat, max: int)
    requires i <= FirstEscape(s) < |s| && FirstEscape(s) < max <= FirstEscape(s) + 2
    ensures Cut(s, i, max) == FirstEscape(s)
    decreases |s| - i
  {
    if i == FirstEscape(s) {
    } else {
      assert s[i] == s[..FirstEscape(s)][i];
      CutAtEscape(s, i + 1, max);
    }
  }

  /**
   What `onion_quote` writes, its NUL included, stays inside a limit exactly when the quoted
   string fits, or the limit ends within two bytes behind the place where the first escape
   would go.
   */
  lemma QuoteStaysInside(s: string, max: nat)
    ensures var p := FirstEscape(s);
      |Quoted(s[..Cut(s, 0, max)])| < max <==> |Quoted(s)| < max || (p < |s| && p < max <= p + 2)
  {
    hide Quoted, IsAlnum, Cut;
    var p, k := FirstEscape(s), Cut(s, 0, max);
    CutIs(s, 0, max);
    CutBelow(s, 0, max);
    AlnumQuoted(s[..k]);
    if |Quoted(s)| < max {
      NoCut(s, 0, max);
    }
    if k == |s| {
      assert s[..k] == s;
    }
    if p < |s| && p < max <= p + 2 {
      CutAtEscape(s, 0, max);
    } else if AllAlnum(s[..k]) && k < |s| {
      assert k < p ==> s[..p][k] == s[k];
    }
  }

  lemma QuoteCanOverrun()
    ensures |Quoted("&&&"[..Cut("&&&", 0, 5)])| == 9
  {
    assert Cut("&&&", 0, 5) == Cut("&&&", 1, 5) == Cut("&&&", 2, 5) == Cut("&&&", 3, 5) == 3;
    assert "&&&"[..3] == "&&&";
    var s := "&&&";
    assert s[..2] == "&&" && s[..2][..1] == "&" && s[..2][..1][..0] == [];
    assert |Quoted("&")| == 3 && |Quoted("&&")| == 6;
  }

  // ------------------------------------------------------------------ unquoting

  /** `strtol(tmp, NULL, 16)` on a string of two characters; no 0x prefix fits it. */
  function StrTol2(a: char, b: char): int {
    if HexValue(a).Some? then
      if HexValue(b).Some? then HexValue(a).value * 16 + HexValue(b).value else HexValue(a).value
    else if HexValue(b).None? then 0
    else if a == '-' then -(HexValue(b).value as int)
    else if a == '+' || IsSpace(a) then HexValue(b).value
    else 0
  }

  /** Stored in a `char`. */
  function CharOf(x: int): char {
    (x % 256) as char
  }

  /** Every percent sign has two characters behind it; past the end of others the code reads on. */
  predicate WellFormed(s: string) {
    s == [] || (if s[0] == '%' then |s| >= 3 && WellFormed(s[3..]) else WellFormed(s[1..]))
  }

  function Unquote(s: string): (u: string)
    requires WellFormed(s)
    ensures |u| <= |s|
  {
    if s == [] then []
    else if s[0] == '%' then [CharOf(StrTol2(s[1], s[2]))] + Unquote(s[3..])
    else [if s[0] == '+' then ' ' else s[0]] + Unquote(s[1..])
  }

  lemma CharBack(c: char)
    requires c as int < 256
    ensures CharOf(StrTol2(HexDigit(c as nat / 16 % 16), HexDigit(c as nat % 16))) == c
  {
    DigitBack(c as nat / 16 % 16);
    DigitBack(c as nat % 16);
  }

  /** What the characters at `i` stand for. */
  function Meaning(s: string, i: nat): char
    requires i < |s| && (s[i] == '%' ==> i + 3 <= |s|)
  {
    if s[i] == '%' then CharOf(StrTol2(s[i + 1], s[i + 2])) else if s[i] == '+' then ' ' else s[i]
  }

  /** How many characters stand for the first. */
  function Width(s: string): (n: nat)
    requires s != []
    ensures 1 <= n <= 3
  {
    if s[0] == '%' then 3 else 1
  }

  lemma UnquoteHead(s: string)
    requires s != [] && Width(s) <= |s| && WellFormed(s[Width(s)..])
    ensures WellFormed(s) && Unquote(s) == [Meaning(s, 0)] + Unquote(s[Width(s)..])
  {
    hide StrTol2, CharOf;
  }

  /** A first character set apart. */
  lemma UnquoteJoin(s: string, t: string, n: nat)
    requires s != [] && n == Width(s) <= |s| && WellFormed(s[n..]) && WellFormed(t) && WellFormed(s[n..] + t)
    requires Unquote(s[n..] + t) == Unquote(s[n..]) + Unquote(t)
    ensures WellFormed(s + t) && Unquote(s + t) == Unquote(s) + Unquote(t)
  {
    hide Unquote, WellFormed, StrTol2, CharOf;
    TailJoins(s, t, n);
    UnquoteHead(s);
    UnquoteHead(s + t);
    Associates([Meaning(s, 0)], Unquote(s[n..]), Unquote(t));
  }

  lemma TailJoins(s: string, t: string, n: nat)
    requires n <= |s|
    ensures (s + t)[n..] == s[n..] + t
  {
  }

  lemma Associates(a: string, b: string, c: string)
    ensures a + (b + c) == a + b + c
  {
  }

  lemma {:induction false} WellFormedJoin(s: string, t: string)
    requires WellFormed(s) && WellFormed(t)
    ensures WellFormed(s + t) && Unquote(s + t) == Unquote(s) + Unquote(t)
    decreases |s|
  {
    hide Unquote;
    if s == [] {
      assert s + t == t;
      UnquoteNothing(s);
      assert [] + Unquote(t) == Unquote(t);
    } else if s[0] == '%' {
      WellFormedJoin(s[3..], t);
      UnquoteJoin(s, t, 3);
    } else {
      WellFormedJoin(s[1..], t);
      UnquoteJoin(s, t, 1);
    }
  }

  lemma UnquoteChar(c: char)
    requires c as int < 256
    ensures WellFormed(QuoteChar(c)) && Unquote(QuoteChar(c)) == [c]
  {
    CharBack(c);
    var q := QuoteChar(c);
    if IsAlnum(c) {
      assert q[1..] == [];
    } else {
      assert q[3..] == [];
    }
  }

  /** Unquoting inverts quoting. */
  lemma {:induction false} UnquoteQuoted(s: string)
    requires Bytes(s)
    ensures WellFormed(Quoted(s)) && Unquote(Quoted(s)) == s
  {
    if s == [] {
    } else {
      var n := |s| - 1;
      UnquoteQuoted(s[..n]);
      UnquoteChar(s[n]);
      WellFormedJoin(Quoted(s[..n]), QuoteChar(s[n]));
    }
  }

  /** Quoting leaves only letters, digits and percent signs. */
  lemma {:induction false} QuotedIsPlain(s: string)
    ensures forall i :: 0 <= i < |Quoted(s)| ==> IsAlnum(Quoted(s)[i]) || Quoted(s)[i] == '%'
  {
    if s == [] {
    } else {
      QuotedIsPlain(s[..|s| - 1]);
      var c := s[|s| - 1];
      assert forall d: nat :: d < 16 ==> IsAlnum(HexDigit(d));
    }
  }

  lemma {:induction false} CStringEnds(s: string)
    ensures |CString(s)| <= |s| && NulFree(CString(s)) && CString(s) == s[..|CString(s)|]
    ensures |CString(s)| < |s| ==> s[|CString(s)|] == NUL
  {
    if s == [] || s[0] == NUL {
    } else {
      CStringEnds(s[1..]);
    }
  }

  lemma UnquoteAt(s: string, i: nat, done: string)
    requires i < |s| && WellFormed(s[i..])
    ensures s[i] == '%' ==> i + 3 <= |s|
    ensures var j := if s[i] == '%' then i + 3 else i + 1;
      WellFormed(s[j..]) && done + Unquote(s[i..]) == done + [Meaning(s, i)] + Unquote(s[j..])
  {
    hide StrTol2, CharOf;
    var t := s[i..];
    if s[i] == '%' {
      assert t[3..] == s[i + 3..];
    } else {
      assert t[1..] == s[i + 1..];
    }
    assert Unquote(t) == [Meaning(s, i)] + Unquote(t[if s[i] == '%' then 3 else 1..]);
    hide Unquote;
    assert done + ([Meaning(s, i)] + Unquote(t[if s[i] == '%' then 3 else 1..])) ==
           done + [Meaning(s, i)] + Unquote(t[if s[i] == '%' then 3 else 1..]);
  }

  /** `onion_unquote_inplace` on the C string of length `n` at `at`: the write cursor stays behind the read cursor. */
  method UnquoteInPlace(a: array<char>, at: nat, ghost n: nat)
    requires at + n < a.Length && a[at + n] == NUL && NulFree(a[at..at + n]) && WellFormed(a[at..at + n])
    modifies a
    ensures var u := old(Unquote(a[at..at + n])); a[at..at + |u|] == u && a[at + |u|] == NUL
    ensures forall i :: 0 <= i < at || at + n < i < a.Length ==> a[i] == old(a[i])
  {
    hide StrTol2, CharOf, Unquote, WellFormed;
    var r, w := at, at;
    ghost var s := a[at..at + n];
    ghost var done := [];
    assert s[0..] == s && [] + Unquote(s) == Unquote(s);
    while a[r] != NUL
      invariant at <= w <= r <= at + n && WellFormed(s[r - at..])
      invariant forall i :: r <= i < a.Length ==> a[i] == old(a[i])
      invariant forall i :: 0 <= i < at ==> a[i] == old(a[i])
      invariant |done| == w - at && (forall j :: 0 <= j < |done| ==> a[at + j] == done[j])
      invariant done + Unquote(s[r - at..]) == Unquote(s)
      decreases at + n - r
    {
      assert r < at + n && s[r - at] == a[r];
      UnquoteAt(s, r - at, done);
      done := done + [Meaning(s, r - at)];
      if a[r] == '%' {
        r := r + 2;
        a[w] := CharOf(StrTol2(a[r - 1], a[r]));
      } else if a[r] == '+' {
        a[w] := ' ';
      } else {
        a[w] := a[r];
      }
      r := r + 1;
      w := w + 1;
    }
    assert r == at + n;
    UnquoteNothing(s[n..]);
    a[w] := NUL;
    assert a[at..w] == done == Unquote(s);
  }

  lemma UnquoteNothing(s: string)
    requires s == []
    ensures WellFormed(s) && Unquote(s) == []
  {
  }
}
