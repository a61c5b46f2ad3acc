/** C quoting of onion/codecs.c, used for JSON. */
module CQuote {
  import opened CText

  const LF := '\n'
  const CR := '\r'
  const TAB := '\t'
  const QUOTE := '"'
  const BACKSLASH := '\\'

  function Octal(d: nat): char {
    (48 + d % 8) as char
  }

  /** What stands for a character; a line feed also ends the literal and opens another one on the next line. */
  function QuotedChar(c: char): (q: string)
    ensures 1 <= |q| <= Cost(c)
  {
    if c == LF then [BACKSLASH, 'n', QUOTE, LF, QUOTE]
    else if c == CR then [BACKSLASH, 'n']
    else if c == QUOTE then [BACKSLASH, QUOTE]
    else if c == BACKSLASH then [BACKSLASH, BACKSLASH]
    else if c == TAB then [BACKSLASH, 't']
    else if c as int > 127 then
      [BACKSLASH, (48 + c as nat / 64 % 4) as char, Octal(c as nat / 8), Octal(c as nat)]
    else [c]
  }

  /** What `onion_c_quote_new` counts for it. */
  function Cost(c: char): (n: nat)
    ensures 1 <= n <= 5
  {
    if c == CR || c == QUOTE || c == BACKSLASH || c == TAB then 2
    else if c == LF || c as int > 127 then 5
    else 1
  }

  function Inside(s: string): (q: string)
    ensures |s| <= |q| <= 5 * |s|
  {
    if s == [] then [] else Inside(s[..|s| - 1]) + QuotedChar(s[|s| - 1])
  }

  function Costs(s: string): (n: nat)
    ensures |s| <= n
  {
    if s == [] then 0 else Costs(s[..|s| - 1]) + Cost(s[|s| - 1])
  }

  /** The literal. */
  function Literal(s: string): string {
    [QUOTE] + Inside(s) + [QUOTE]
  }

  // ------------------------------------------------------------------ quoting

  /** How far `onion_c_quote` gets when its counter stands at `l`: it takes one off for each character it reads. */
  datatype Stop = Stop(at: nat, bare: bool)

  function StopAt(s: string, i: nat, l: int): (r: Stop)
    requires i <= |s|
    ensures i <= r.at <= |s|
    decreases |s| - i
  {
    if i == |s| then Stop(i, false)
    else if s[i] as int > 127 && l < 4 then Stop(i, true)
    else if l - 1 <= 0 then Stop(i + 1, false)
    else StopAt(s, i + 1, l - 1)
  }

  /** All it writes. */
  function Output(s: string, l: int): string {
    var r := StopAt(s, 0, l - 3);
    [QUOTE] + Inside(s[..r.at]) + if r.bare then [NUL] else [QUOTE, NUL]
  }

  lemma InsideStep(s: string, i: nat)
    requires i < |s|
    ensures Inside(s[..i + 1]) == Inside(s[..i]) + QuotedChar(s[i])
    ensures Costs(s[..i + 1]) == Costs(s[..i]) + Cost(s[i])
  {
    assert s[..i + 1][..i] == s[..i];
  }

  lemma {:induction false} InsideGrows(s: string, a: nat, b: nat)
    requires a <= b <= |s|
    ensures |Inside(s[..a])| <= |Inside(s[..b])| && Costs(s[..a]) + (b - a) <= Costs(s[..b])
    decreases b - a
  {
    hide Inside, Costs;
    if a == b {
    } else {
      InsideGrows(s, a, b - 1);
      InsideStep(s, b - 1);
    }
  }

  lemma {:induction false} InsideFits(s: string)
    ensures |Inside(s)| <= Costs(s)
  {
    if s == [] {
    } else {
      InsideFits(s[..|s| - 1]);
    }
  }

  method PutTwo(ret: array<char>, r: nat, x: char, y: char) returns (r': nat)
    requires r + 2 <= ret.Length
    modifies ret
    ensures r' == r + 2 && ret[..r'] == old(ret[..r]) + [x, y]
  {
    ret[r] := x;
    ret[r + 1] := y;
    r' := r + 2;
  }

  /** One character of `onion_c_quote`, written at `r`. */
  method QuoteChar(c: char, ret: array<char>, r: nat) returns (r': nat)
    requires r + |QuotedChar(c)| <= ret.Length
    modifies ret
    ensures r' == r + |QuotedChar(c)| && ret[..r'] == old(ret[..r]) + QuotedChar(c)
  {
    ghost var before := ret[..r];
    if c == LF {
      r' := PutTwo(ret, r, BACKSLASH, 'n');
      r' := PutTwo(ret, r', QUOTE, LF);
      ret[r'] := QUOTE;
      r' := r' + 1;
      assert ret[..r'] == before + [BACKSLASH, 'n'] + [QUOTE, LF] + [QUOTE];
    } else if c == CR {
      r' := PutTwo(ret, r, BACKSLASH, 'n');
    } else if c == QUOTE {
      r' := PutTwo(ret, r, BACKSLASH, QUOTE);
    } else if c == BACKSLASH {
      r' := PutTwo(ret, r, BACKSLASH, BACKSLASH);
    } else if c == TAB {
      r' := PutTwo(ret, r, BACKSLASH, 't');
    } else if c as int > 127 {
      var x, y, z := (48 + c as nat / 64 % 4) as char, Octal(c as nat / 8), Octal(c as nat);
      hide Octal;
      r' := PutTwo(ret, r, BACKSLASH, x);
      r' := PutTwo(ret, r', y, z);
      assert ret[..r'] == before + [BACKSLASH, x] + [y, z];
      assert QuotedChar(c) == [BACKSLASH, x, y, z];
    } else {
      ret[r] := c;
      r' := r + 1;
    }
  }

  /** `onion_c_quote`, given room for what it writes. */
  method QuoteInto(str: string, ret: array<char>, l: int) returns (n: nat)
    requires |Output(str, l)| <= ret.Length
    modifies ret
    ensures n == |Output(str, l)| && ret[..n] == Output(str, l)
  {
    hide Inside, QuotedChar, Costs;
    ghost var stop := StopAt(str, 0, l - 3);
    ret[0] := QUOTE;
    var r, left, i := 1, l - 3, 0;
    InsideNothing(str);
    assert ret[..1] == [QUOTE] + [];
    while i < |str|
      invariant i <= stop.at && StopAt(str, i, left) == stop
      invariant 1 <= r == 1 + |Inside(str[..i])| < ret.Length && ret[..r] == [QUOTE] + Inside(str[..i])
      decreases |str| - i
    {
      if str[i] as int > 127 && left < 4 {
        ret[r] := NUL;
        assert ret[..r + 1] == ret[..r] + [NUL];
        return r + 1;
      }
      InsideStep(str, i);
      InsideGrows(str, i + 1, stop.at);
      r := QuoteChar(str[i], ret, r);
      assert [QUOTE] + (Inside(str[..i]) + QuotedChar(str[i])) == [QUOTE] + Inside(str[..i]) + QuotedChar(str[i]);
      i := i + 1;
      left := left - 1;
      if left <= 0 {
        ret[r] := NUL;
        assert ret[..r] == [QUOTE] + Inside(str[..i]);
        break;
      }
    }
    r := PutTwo(ret, r, QUOTE, NUL);
    n := r;
  }

  lemma InsideNothing(s: string)
    ensures Inside(s[..0]) == [] && Costs(s[..0]) == 0
  {
  }

  /** With the counted size, nothing is cut off and nothing overruns. */
  lemma {:induction false} NeverStops(s: string, i: nat, l: int)
    requires i <= |s| && Costs(s) - Costs(s[..i]) <= l
    ensures StopAt(s, i, l) == Stop(|s|, false)
    decreases |s| - i
  {
    if i == |s| {
    } else {
      InsideStep(s, i);
      InsideGrows(s, i + 1, |s|);
      assert s[..|s|] == s;
      if i + 1 < |s| || l > 1 {
        NeverStops(s, i + 1, l - 1);
      }
    }
  }

  // ------------------------------------------------------------------ staying inside a limit

  predicate High(c: char) {
    c as int > 127
  }

  /** The first character above 127 from `i` on. */
  function FirstHigh(s: string, i: nat): (j: nat)
    ensures i <= |s| ==> i <= j
    ensures j <= |s| && (j < |s| ==> High(s[j]))
    ensures forall k :: i <= k < j ==> !High(s[k])
    decreases |s| - i
  {
    if i >= |s| then |s| else if High(s[i]) then i else FirstHigh(s, i + 1)
  }

  /** Every character stands for itself. */
  predicate AllPlain(s: string) {
    forall i :: 0 <= i < |s| ==> |QuotedChar(s[i])| == 1
  }

  function Larger(a: int, b: int): int {
    if a < b then b else a
  }

  /**
   Where the quoting that reached `i` stops: in front of a high character near the end of its room,
   or at that end.
   */
  lemma {:induction false} StopIs(s: string, i: nat, left: int)
    requires i < |s|
    ensures var room := i + left; var j := FirstHigh(s, Larger(i, room - 3));
      StopAt(s, i, left) ==
        if j < |s| && j < Larger(i + 1, room) then Stop(j, true)
        else Stop(if |s| < Larger(i + 1, room) then |s| else Larger(i + 1, room), false)
    decreases |s| - i
  {
    var room := i + left;
    if High(s[i]) && left < 4 {
      assert FirstHigh(s, Larger(i, room - 3)) == i;
    } else if left - 1 <= 0 {
      assert FirstHigh(s, Larger(i, room - 3)) >= i + 1;
    } else if i + 1 < |s| {
      StopIs(s, i + 1, left - 1);
      assert left < 4 ==> FirstHigh(s, i) == FirstHigh(s, i + 1);
    } else {
      assert StopAt(s, i + 1, left - 1) == Stop(|s|, false);
      assert left < 4 ==> FirstHigh(s, i) == |s|;
    }
  }

  lemma {:induction false} PlainInside(s: string)
    ensures |Inside(s)| == |s| <==> AllPlain(s)
  {
    hide QuotedChar;
    if s == [] {
    } else {
      var n := |s| - 1;
      PlainInside(s[..n]);
      assert AllPlain(s) <==> AllPlain(s[..n]) && |QuotedChar(s[n])| == 1;
    }
  }

  /** A high character that the counter leaves out would not have fitted. */
  lemma HighNeedsFour(s: string, j: nat)
    requires j < |s| && High(s[j])
    ensures |Inside(s)| >= j + 4
  {
    hide Inside;
    InsideStep(s, j);
    InsideGrows(s, j + 1, |s|);
    assert s[..|s|] == s && |Inside(s[..j])| >= j;
  }

  /**
   What `onion_c_quote` writes stays inside `l` bytes exactly when the whole literal fits, or
   the part its counter lets through needs no escapes, or it gives up in front of a character
   above 127 with what precedes that escaped and fitting.
   */
  lemma QuoteStaysInside(s: string, l: int)
    ensures var j := FirstHigh(s, Larger(0, l - 6));
      |Output(s, l)| <= l <==>
        || |Inside(s)| + 3 <= l
        || (4 <= l < |s| + 3 && AllPlain(s[..l - 3]))
        || (j < |s| && (j == 0 || j < l - 3) && |Inside(s[..j])| + 2 <= l)
  {
    hide Inside, QuotedChar;
    var room := l - 3;
    if s == [] {
      InsideNothing(s);
      assert s[..0] == s;
    } else {
      StopIs(s, 0, room);
      var r := StopAt(s, 0, room);
      assert s[..|s|] == s;
      if r.bare {
        HighNeedsFour(s, r.at);
        HighIsNotPlain(s[r.at]);
        assert r.at < room < |s| ==> s[..room][r.at] == s[r.at];
      } else if 1 <= room < |s| {
        PlainInside(s[..room]);
      }
    }
  }

  lemma HighIsNotPlain(c: char)
    requires High(c)
    ensures |QuotedChar(c)| == 4
  {
  }

  /** Two tabs and room for five bytes: seven are written. */
  lemma QuoteCanOverrun()
    ensures |Output([TAB, TAB], 5)| == 7
  {
    var s := [TAB, TAB];
    assert StopAt(s, 0, 2) == StopAt(s, 1, 1) == Stop(2, false);
    assert s[..2] == s && s[..1] == [TAB] && s[..1][..0] == [];
    assert Inside([]) == [] && |Inside(s[..1])| == 2;
  }

  // ------------------------------------------------------------------ the allocating form

  /** `onion_c_quote_new` */
  method QuoteNew(str: string) returns (ret: array<char>, ghost n: nat)
    ensures fresh(ret) && n < ret.Length && ret[..n] == Literal(str) && ret[n] == NUL
  {
    hide Inside, QuotedChar;
    var l := 3;
    InsideNothing(str);
    for i := 0 to |str|
      invariant l == 3 + Costs(str[..i])
    {
      InsideStep(str, i);
      var c := str[i];
      if c == CR || c == QUOTE || c == BACKSLASH || c == TAB {
        l := l + 1;
      } else if c == LF {
        l := l + 4;
      } else if c as int > 127 {
        l := l + 4;
      }
      l := l + 1;
    }
    assert str[..|str|] == str;
    ret := new char[l];
    InsideFits(str);
    NeverStops(str, 0, l - 3);
    var m := QuoteInto(str, ret, l);
    n := m - 1;
    assert ret[..m][..n] == ret[..n] && ret[..m][n] == ret[n];
    assert Output(str, l) == Literal(str) + [NUL];
  }
}
