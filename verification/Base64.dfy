/**
 `onion_base64_encode` and `onion_base64_decode` (onion/codecs.c), with their exact buffer
 sizes.  Bytes and characters are their codes; a C `char` sextet computation masks its
 operands, so it does not depend on the signedness of `char`.
 */
module Base64 {
  import opened Wrappers

  type Sextet = x: int | 0 <= x < 64

  const NL := 10
  const CR := 13
  const PAD := 61

  /** The coding table cb64. */
  function Letter(v: Sextet): (c: int) {
    if v < 26 then 65 + v          // A-Z
    else if v < 52 then 71 + v     // a-z
    else if v < 62 then v - 4      // 0-9
    else if v == 62 then 43 else 47 // + and /
  }

  predicate InAlphabet(c: int) {
    65 <= c <= 90 || 97 <= c <= 122 || 48 <= c <= 57 || c == 43 || c == 47
  }

  /** The decoding table db64, where it is below 64. */
  function Value(c: int): (v: Sextet)
    requires InAlphabet(c)
    ensures Letter(v) == c
  {
    if 65 <= c <= 90 then c - 65
    else if 97 <= c <= 122 then c - 71
    else if 48 <= c <= 57 then c + 4
    else if c == 43 then 62 else 63
  }

  lemma ValueOfLetter(v: Sextet)
    ensures InAlphabet(Letter(v)) && Value(Letter(v)) == v
  {
  }

  // ------------------------------------------------------------------ the standard

  function First(a: Byte): Sextet { a / 4 }
  function Second(a: Byte, b: Byte): Sextet { a % 4 * 16 + b / 16 }
  function Third(b: Byte, c: Byte): Sextet { b % 16 * 4 + c / 64 }
  function Fourth(c: Byte): Sextet { c % 64 }

  /** The sextets of a byte string: four for every three bytes, two or three for a rest of one or two. */
  function Split6(x: seq<Byte>): seq<Sextet> {
    if |x| == 0 then []
    else if |x| == 1 then [First(x[0]), Second(x[0], 0)]
    else if |x| == 2 then [First(x[0]), Second(x[0], x[1]), Third(x[1], 0)]
    else [First(x[0]), Second(x[0], x[1]), Third(x[1], x[2]), Fourth(x[2])] + Split6(x[3..])
  }

  function Byte0(p: int, q: int): int { p * 4 + q / 16 }
  function Byte1(q: int, r: int): int { q % 16 * 16 + r / 4 }
  function Byte2(r: int, s: int): int { r % 4 * 64 + s }

  /** The bytes of a sextet string. */
  function Join8(v: seq<Sextet>): seq<Byte> {
    if |v| < 2 then []
    else if |v| == 2 then [Byte0(v[0], v[1])]
    else if |v| == 3 then [Byte0(v[0], v[1]), Byte1(v[1], v[2])]
    else [Byte0(v[0], v[1]), Byte1(v[1], v[2]), Byte2(v[2], v[3])] + Join8(v[4..])
  }

  function Letters(v: seq<Sextet>): (r: seq<int>)
    ensures |r| == |v|
  {
    seq(|v|, i requires 0 <= i < |v| => Letter(v[i]))
  }

  function Padding(n: nat): seq<int> {
    if n % 3 == 1 then [PAD, PAD] else if n % 3 == 2 then [PAD] else []
  }

  /** Section 4 of RFC 4648. */
  function Groups(x: seq<Byte>): seq<int> {
    Letters(Split6(x)) + Padding(|x|)
  }

  /** Section 6.8 of RFC 2045: lines of 76 characters (57 bytes), each ended by a newline. */
  function Lines(x: seq<Byte>): seq<int> {
    if |x| == 0 then []
    else if |x| <= 57 then Groups(x) + [NL]
    else Groups(x[..57]) + [NL] + Lines(x[57..])
  }

  /** The sextets of a text; everything outside the alphabet is skipped. */
  function Sextets(s: seq<int>): (r: seq<Sextet>)
    ensures |r| <= |s|
  {
    if s == [] then []
    else Sextets(s[..|s| - 1]) + if InAlphabet(s[|s| - 1]) then [Value(s[|s| - 1])] else []
  }

  // ------------------------------------------------------------------ round trip

  lemma {:induction false} SextetsAdd(a: seq<int>, b: seq<int>)
    ensures Sextets(a + b) == Sextets(a) + Sextets(b)
  {
    if b == [] {
      assert a + b == a;
    } else {
      assert (a + b)[..|a + b| - 1] == a + b[..|b| - 1];
      SextetsAdd(a, b[..|b| - 1]);
    }
  }

  lemma {:induction false} SextetsOfLetters(v: seq<Sextet>)
    ensures Sextets(Letters(v)) == v
  {
    if v == [] {
    } else {
      var p := v[..|v| - 1];
      assert Letters(v)[..|v| - 1] == Letters(p);
      SextetsOfLetters(p);
      ValueOfLetter(v[|v| - 1]);
    }
  }

  lemma {:induction false} NoSextets(s: seq<int>)
    requires forall i :: 0 <= i < |s| ==> !InAlphabet(s[i])
    ensures Sextets(s) == []
  {
    if s == [] {
    } else {
      NoSextets(s[..|s| - 1]);
    }
  }

  lemma SplitJoins(a: Byte, b: Byte, c: Byte)
    ensures Byte0(First(a), Second(a, b)) == a
    ensures Byte1(Second(a, b), Third(b, c)) == b
    ensures Byte2(Third(b, c), Fourth(c)) == c
  {
    assert Second(a, b) / 16 == a % 4 && Second(a, b) % 16 == b / 16;
    assert Third(b, c) / 4 == b % 16 && Third(b, c) % 4 == c / 64;
  }

  lemma Join8OfQuad(p: Sextet, q: Sextet, r: Sextet, t: Sextet, rest: seq<Sextet>)
    ensures Join8([p, q, r, t] + rest) == [Byte0(p, q), Byte1(q, r), Byte2(r, t)] + Join8(rest)
  {
    hide Byte0, Byte1, Byte2;
    assert ([p, q, r, t] + rest)[4..] == rest;
  }

  lemma Split6Unfolds(x: seq<Byte>)
    requires |x| >= 3
    ensures Split6(x) == [First(x[0]), Second(x[0], x[1]), Third(x[1], x[2]), Fourth(x[2])] + Split6(x[3..])
  {
  }

  lemma JoinNothing()
    ensures Split6([]) == [] && Join8([]) == []
  {
  }

  lemma JoinOne(a: Byte)
    ensures Split6([a]) == [First(a), Second(a, 0)] && Join8([First(a), Second(a, 0)]) == [a]
  {
    var b: Byte := 0;
    var p, q := First(a), Second(a, b);
    assert Byte0(p, q) == a by { SplitJoins(a, b, b); }
    hide First, Second, Byte0;
    assert Join8([p, q]) == [Byte0(p, q)];
  }

  lemma JoinTwo(a: Byte, b: Byte)
    ensures Split6([a, b]) == [First(a), Second(a, b), Third(b, 0)]
    ensures Join8([First(a), Second(a, b), Third(b, 0)]) == [a, b]
  {
    SplitJoins(a, b, 0);
    hide First, Second, Third, Byte0, Byte1;
  }

  /** Regrouping into sextets and back loses nothing. */
  lemma {:induction false} Join8OfSplit6(x: seq<Byte>)
    ensures Join8(Split6(x)) == x
  {
    hide Split6, Join8;
    if |x| == 0 {
      JoinNothing();
    } else if |x| == 1 {
      JoinOne(x[0]);
      assert x == [x[0]];
    } else if |x| == 2 {
      JoinTwo(x[0], x[1]);
      assert x == [x[0], x[1]];
    } else {
      JoinThree(x);
      Join8OfSplit6(x[3..]);
      assert x == [x[0], x[1], x[2]] + x[3..];
    }
  }

  lemma JoinThree(x: seq<Byte>)
    requires |x| >= 3
    ensures Join8(Split6(x)) == [x[0], x[1], x[2]] + Join8(Split6(x[3..]))
  {
    SplitJoins(x[0], x[1], x[2]);
    Split6Unfolds(x);
    Join8OfQuad(First(x[0]), Second(x[0], x[1]), Third(x[1], x[2]), Fourth(x[2]), Split6(x[3..]));
    hide First, Second, Third, Fourth, Byte0, Byte1, Byte2, Split6, Join8;
  }

  lemma {:induction false} Split6Adds(x: seq<Byte>, y: seq<Byte>)
    requires |x| % 3 == 0
    ensures Split6(x + y) == Split6(x) + Split6(y)
  {
    hide First, Second, Third, Fourth;
    if |x| == 0 {
      assert x + y == y;
    } else {
      assert (x + y)[3..] == x[3..] + y;
      Split6Adds(x[3..], y);
    }
  }

  lemma SextetsOfLine(x: seq<Byte>, rest: seq<int>)
    ensures Sextets(Groups(x) + [NL] + rest) == Split6(x) + Sextets(rest)
  {
    hide Sextets, Split6;
    SextetsAdd(Groups(x) + [NL], rest);
    SextetsAdd(Groups(x), [NL]);
    SextetsAdd(Letters(Split6(x)), Padding(|x|));
    NoSextets([NL]);
    NoSextets(Padding(|x|));
    SextetsOfLetters(Split6(x));
  }

  lemma {:induction false} SextetsOfLines(x: seq<Byte>)
    ensures Sextets(Lines(x)) == Split6(x)
  {
    hide Groups, Split6;
    if |x| == 0 {
      assert Split6(x) == [] by { EmptySplit(); }
    } else if |x| <= 57 {
      SextetsOfLine(x, []);
      assert Groups(x) + [NL] + [] == Lines(x);
    } else {
      var a, b := x[..57], x[57..];
      assert x == a + b;
      SextetsOfLine(a, Lines(b));
      SextetsOfLines(b);
      Split6Adds(a, b);
    }
  }

  lemma EmptySplit()
    ensures Split6([]) == []
  {
  }

  /** Skipping the line breaks and padding of an encoding gives back the bytes. */
  lemma DecodingInverts(x: seq<Byte>)
    ensures Join8(Sextets(Lines(x))) == x
  {
    SextetsOfLines(x);
    Join8OfSplit6(x);
  }

  // ------------------------------------------------------------------ sizes

  /** The size the encoder allocates. */
  function Allocated(length: nat): nat {
    length * 4 / 3 + length / 57 + 2 + 3
  }

  lemma {:induction false} Split6Length(x: seq<Byte>)
    ensures |Split6(x)| == |x| / 3 * 4 + (if |x| % 3 == 0 then 0 else |x| % 3 + 1)
  {
    hide First, Second, Third, Fourth;
    if |x| < 3 {
    } else {
      Split6Length(x[3..]);
    }
  }

  lemma GroupsLength(x: seq<Byte>)
    ensures |Groups(x)| == (|x| + 2) / 3 * 4
  {
    Split6Length(x);
  }

  lemma OneLineLess(n: nat)
    ensures (n + 57 + 2) / 3 == (n + 2) / 3 + 19 && (n + 57 + 56) / 57 == (n + 56) / 57 + 1
  {
  }

  lemma {:induction false} LinesLength(x: seq<Byte>)
    ensures |Lines(x)| == (|x| + 2) / 3 * 4 + (|x| + 56) / 57
  {
    hide Groups;
    if |x| > 57 {
      GroupsLength(x[..57]);
      LinesLength(x[57..]);
      OneLineLess(|x| - 57);
    } else {
      GroupsLength(x);
    }
  }

  lemma ThirdsSplit(a: nat, b: nat, r: nat)
    requires b < 19 && r < 3
    ensures (57 * a + 3 * b + r) * 4 / 3 == 76 * a + 4 * b + r * 4 / 3
    ensures (57 * a + 3 * b + r + 2) / 3 == 19 * a + b + (r + 2) / 3
    ensures (57 * a + 3 * b + r) % 3 == r
  {
    var q := 19 * a + b;
    assert 57 * a + 3 * b + r == 3 * q + r && (3 * q + r) * 4 == 3 * (4 * q) + r * 4;
    WholeThirds(4 * q, r * 4);
    WholeThirds(q, r + 2);
    WholeThirds(q, r);
  }

  lemma WholeThirds(q: nat, n: nat)
    ensures (3 * q + n) / 3 == q + n / 3 && (3 * q + n) % 3 == n % 3
  {
  }

  lemma LinesSplit(a: nat, b: nat, r: nat)
    requires b < 19 && r < 3
    ensures (57 * a + 3 * b + r + 56) / 57 == a + (if 3 * b + r > 0 then 1 else 0)
  {
  }

  /** The text and its NUL fit the allocation, with not a byte to spare exactly when length mod 3 is 1. */
  lemma EncodingFits(x: seq<Byte>)
    ensures |Lines(x)| + 1 <= Allocated(|x|)
    ensures |Lines(x)| + 1 == Allocated(|x|) <==> |x| % 3 == 1
  {
    hide Lines;
    LinesLength(x);
    var a, b, r := |x| / 57, |x| % 57 / 3, |x| % 57 % 3;
    ThirdsSplit(a, b, r);
    LinesSplit(a, b, r);
  }

  // ------------------------------------------------------------------ the encoder

  lemma Split6Snoc(x: seq<Byte>, a: Byte, b: Byte, c: Byte)
    requires |x| % 3 == 0
    ensures Split6(x + [a, b, c]) == Split6(x) + [First(a), Second(a, b), Third(b, c), Fourth(c)]
  {
    hide First, Second, Third, Fourth;
    Split6Adds(x, [a, b, c]);
    EmptySplit();
  }

  /** The inner loop that turns `n` bytes into sextets. */
  method PutSextets(orig: seq<Byte>, from: nat, n: nat, ret: array<int>, at: nat)
    requires n % 3 == 0 && from + n <= |orig| && at + n / 3 * 4 <= ret.Length
    modifies ret
    ensures ret[at..at + n / 3 * 4] == Split6(orig[from..from + n])
    ensures ret[..at] == old(ret[..at])
  {
    hide First, Second, Third, Fourth, Split6;
    EmptySplit();
    assert orig[from..from] == [];
    var i, j := 0, 0;
    while i < n
      invariant 0 <= i <= n && i % 3 == 0 && j == i / 3 * 4
      invariant ret[at..at + j] == Split6(orig[from..from + i])
      invariant ret[..at] == old(ret[..at])
    {
      var a, b, c := orig[from + i], orig[from + i + 1], orig[from + i + 2];
      Split6Snoc(orig[from..from + i], a, b, c);
      assert orig[from..from + i] + [a, b, c] == orig[from..from + i + 3];
      PutFour(ret, at, j, First(a), Second(a, b), Third(b, c), Fourth(c));
      i := i + 3;
      j := j + 4;
    }
  }

  method PutFour(ret: array<int>, at: nat, j: nat, w: int, x: int, y: int, z: int)
    requires at + j + 4 <= ret.Length
    modifies ret
    ensures ret[at..at + j + 4] == old(ret[at..at + j]) + [w, x, y, z]
    ensures ret[..at] == old(ret[..at])
  {
    ret[at + j] := w;
    ret[at + j + 1] := x;
    ret[at + j + 2] := y;
    ret[at + j + 3] := z;
  }

  /** The inner loop that turns sextets into letters. */
  method MapLetters(ret: array<int>, at: nat, n: nat, ghost v: seq<Sextet>)
    requires at + n <= ret.Length && ret[at..at + n] == v
    modifies ret
    ensures ret[at..at + n] == Letters(v)
    ensures ret[..at] == old(ret[..at])
  {
    hide Letter;
    var i := 0;
    while i < n
      invariant 0 <= i <= n
      invariant forall k :: 0 <= k < i ==> ret[at + k] == Letter(v[k])
      invariant forall k :: i <= k < n ==> ret[at + k] == v[k]
      invariant ret[..at] == old(ret[..at])
    {
      assert ret[at + i] == v[i];
      ret[at + i] := Letter(ret[at + i]);
      i := i + 1;
    }
  }

  /** The four sextets of the last one to three bytes, missing ones read as zero. */
  function LastQuad(tail: seq<Byte>): (q: seq<Sextet>)
    requires 1 <= |tail| <= 3
    ensures |q| == 4
  {
    var b: Byte := if |tail| > 1 then tail[1] else 0;
    var c: Byte := if |tail| > 2 then tail[2] else 0;
    [First(tail[0]), Second(tail[0], b), Third(b, c), Fourth(c)]
  }

  lemma LastQuadPrefix(tail: seq<Byte>)
    requires 1 <= |tail| <= 3
    ensures Split6(tail) == LastQuad(tail)[..|tail| + 1]
  {
    hide First, Second, Third, Fourth;
    EmptySplit();
    assert |tail| == 3 ==> tail[3..] == [];
  }

  lemma LettersPrefix(a: seq<Sextet>, n: nat)
    requires n <= |a|
    ensures Letters(a)[..n] == Letters(a[..n])
  {
    hide Letter;
  }

  /** What the last line becomes once its last group is padded. */
  lemma LastGroup(x: seq<Byte>, tail: seq<Byte>)
    requires |x| % 3 == 0 && 1 <= |tail| <= 3
    ensures Letters(Split6(x) + LastQuad(tail))[..|Split6(x)| + |tail| + 1] + Padding(|tail|) == Groups(x + tail)
  {
    hide Split6, LastQuad, Letters;
    var q := LastQuad(tail);
    Split6Adds(x, tail);
    LastQuadPrefix(tail);
    LettersPrefix(Split6(x) + q, |Split6(x)| + |tail| + 1);
    assert (Split6(x) + q)[..|Split6(x)| + |tail| + 1] == Split6(x) + q[..|tail| + 1];
    assert Padding(|x + tail|) == Padding(|tail|);
  }

  /** One full line of 57 bytes. */
  method EncodeLine(orig: seq<Byte>, from: nat, ret: array<int>, at: nat)
    requires from + 57 <= |orig| && at + 77 < ret.Length
    modifies ret
    ensures ret[..at + 77] == old(ret[..at]) + Groups(orig[from..from + 57]) + [NL]
  {
    hide Split6, Letters;
    ghost var x, was := orig[from..from + 57], ret[..at];
    GroupsLength(x);
    PutSextets(orig, from, 57, ret, at);
    MapLetters(ret, at, 76, Split6(x));
    assert ret[at..at + 76] == Groups(x);
    ret[at + 76] := NL;
    ret[at + 77] := 0;
    assert ret[..at + 77] == ret[..at] + ret[at..at + 76] + [NL];
  }

  method Encode(orig: seq<Byte>) returns (ret: array<int>)
    ensures fresh(ret) && ret.Length == Allocated(|orig|)
    ensures |Lines(orig)| < ret.Length && ret[..|Lines(orig)|] == Lines(orig) && ret[|Lines(orig)|] == 0
  {
    hide Groups, Allocated;
    EncodingFits(orig);
    ret := new int[Allocated(|orig|)];
    if |orig| == 0 {
      ret[0] := 0;
      return;
    }
    var from, at := 0, 0;
    assert orig[0..] == orig;
    while from < |orig| - 57
      invariant 0 <= from < |orig| && from % 3 == 0 && 0 <= at
      invariant at <= ret.Length && Lines(orig) == ret[..at] + Lines(orig[from..])
    {
      ghost var rest := orig[from..];
      assert rest[..57] == orig[from..from + 57] && rest[57..] == orig[from + 57..];
      GroupsLength(rest[..57]);
      EncodeLine(orig, from, ret, at);
      from := from + 57;
      at := at + 77;
    }
    EncodeLastLine(orig, from, ret, at);
  }

  /** Where the last, possibly short, group of `n` bytes starts. */
  function LastStart(n: nat): (i: nat)
    requires n >= 1
    ensures i % 3 == 0 && 1 <= n - i <= 3
  {
    (n - 1) / 3 * 3
  }

  method EncodeLastLine(orig: seq<Byte>, from: nat, ret: array<int>, at: nat)
    requires from < |orig| <= from + 57 && from % 3 == 0 && at <= ret.Length
    requires Lines(orig) == ret[..at] + Lines(orig[from..]) && |Lines(orig)| < ret.Length
    modifies ret
    ensures ret[..|Lines(orig)|] == Lines(orig) && ret[|Lines(orig)|] == 0
  {
    hide Split6, Letters, Groups, LastQuad, LastStart, Padding, Lines;
    ghost var was, rest := ret[..at], orig[from..];
    var i := LastStart(|orig| - from);
    LastLineLetters(orig, from, i);
    var j := LastLetters(orig, from, i, ret, at);
    FinishLine(ret, at, j, |orig|, Split6(orig[from..from + i]) + LastQuad(orig[from + i..]));
    Pasted(ret[..], at, j + 1, was, Lines(rest));
  }

  /** The letters of the last line, its padding and its newline are what is left to write. */
  lemma LastLineLetters(orig: seq<Byte>, from: nat, i: nat)
    requires from < |orig| <= from + 57 && from % 3 == 0 && i % 3 == 0 && 1 <= |orig| - from - i <= 3
    ensures var v, p := Split6(orig[from..from + i]) + LastQuad(orig[from + i..]), Padding(|orig|);
      && |v| == i / 3 * 4 + 4 && |p| < 3 && |Lines(orig[from..])| == |v| + 1
      && Letters(v)[..|v| - |p|] + p + [NL] == Lines(orig[from..])
  {
    hide Split6, Letters, Groups, LastQuad, Padding, Lines;
    var x, tail := orig[from..from + i], orig[from + i..];
    assert x + tail == orig[from..];
    Split6Length(x);
    OneLine(orig[from..]);
    LastGroup(x, tail);
    SamePadding(|orig|, |tail|);
  }

  lemma OneLine(rest: seq<Byte>)
    requires 1 <= |rest| <= 57
    ensures Lines(rest) == Groups(rest) + [NL]
  {
    hide Groups;
  }

  lemma Pasted(s: seq<int>, at: nat, n: nat, before: seq<int>, line: seq<int>)
    requires at + n <= |s| && s[..at] == before && s[at..at + n] == line
    ensures s[..at + n] == before + line
  {
  }

  lemma SamePadding(n: nat, m: nat)
    requires n % 3 == m % 3
    ensures Padding(n) == Padding(m)
    ensures 1 <= m <= 3 ==> |Padding(m)| == 3 - m
  {
  }

  /** The letters of the whole last line, its last group still unpadded. */
  method LastLetters(orig: seq<Byte>, from: nat, i: nat, ret: array<int>, at: nat) returns (j: nat)
    requires i % 3 == 0 && from + i < |orig| <= from + i + 3 && at + i / 3 * 4 + 4 <= ret.Length
    modifies ret
    ensures j == i / 3 * 4 + 4 == |Split6(orig[from..from + i])| + 4
    ensures ret[..at] == old(ret[..at])
    ensures ret[at..at + j] == Letters(Split6(orig[from..from + i]) + LastQuad(orig[from + i..]))
  {
    hide Split6, Letters, LastQuad;
    j := i / 3 * 4;
    Split6Length(orig[from..from + i]);
    PutSextets(orig, from, i, ret, at);
    ghost var done := ret[at..at + j];
    PutLastQuad(orig, from + i, ret, at + j);
    assert ret[at..at + j] == ret[..at + j][at..] == done;
    assert ret[at..at + j + 4] == done + ret[at + j..at + j + 4];
    j := j + 4;
    MapLetters(ret, at, j, Split6(orig[from..from + i]) + LastQuad(orig[from + i..]));
  }

  method PutLastQuad(orig: seq<Byte>, from: nat, ret: array<int>, at: nat)
    requires from < |orig| <= from + 3 && at + 4 <= ret.Length
    modifies ret
    ensures ret[at..at + 4] == LastQuad(orig[from..]) && ret[..at] == old(ret[..at])
  {
    hide First, Second, Third, Fourth;
    var a := orig[from];
    var b := if from + 1 < |orig| then orig[from + 1] else 0;
    var c := if from + 2 < |orig| then orig[from + 2] else 0;
    ret[at] := First(a);
    ret[at + 1] := Second(a, b);
    ret[at + 2] := Third(b, c);
    ret[at + 3] := Fourth(c);
  }

  /** Overwrite the letters that stand for no byte, then end the line and the string. */
  method FinishLine(ret: array<int>, at: nat, n: nat, length: nat, ghost v: seq<Sextet>)
    requires n >= 4 && |v| == n && at + n + 1 < ret.Length && ret[at..at + n] == Letters(v)
    modifies ret
    ensures ret[..at] == old(ret[..at]) && ret[at + n + 1] == 0
    ensures ret[at..at + n + 1] == Letters(v)[..n - |Padding(length)|] + Padding(length) + [NL]
  {
    if length % 3 == 1 {
      ret[at + n - 1] := PAD;
      ret[at + n - 2] := PAD;
    }
    if length % 3 == 2 {
      ret[at + n - 1] := PAD;
    }
    ret[at + n] := NL;
    ret[at + n + 1] := 0;
  }

  // ------------------------------------------------------------------ the decoder

  predicate IsLineEnd(c: int) {
    c == NL || c == CR || c == 0
  }

  /** Where the text ends once trailing line ends are dropped; the first three characters stay. */
  function TrimmedLength(s: seq<int>): (n: nat)
    ensures n <= |s|
  {
    if |s| >= 4 && IsLineEnd(s[|s| - 1]) then TrimmedLength(s[..|s| - 1]) else |s|
  }

  function Trimmed(s: seq<int>): seq<int> {
    s[..TrimmedLength(s)]
  }

  function PadCount(t: seq<int>): (n: nat)
    requires |t| >= 2
  {
    if t[|t| - 2] == PAD then 2 else if t[|t| - 1] == PAD then 1 else 0
  }

  /** How many groups of four the decoder reads: what is left behind the last whole one counts as one. */
  function GroupsRead(t: seq<int>): nat
    requires t != []
  {
    |Sextets(t)| / 4 + if |Sextets(t)| % 4 == 0 && InAlphabet(t[|t| - 1]) then 0 else 1
  }

  /**
   The groups that are read, and the NUL unless it replaces the last byte of them, fit the
   allocation; the code writes past its end for any other text.
   */
  predicate InBounds(t: seq<int>)
    requires t != []
  {
    3 * GroupsRead(t) <= |t| * 3 / 4 + if t[|t| - 1] == PAD then 1 else 0
  }

  /** Letters, mixed with anything to be skipped, that together with the final padding make whole groups. */
  predicate WholeGroups(t: seq<int>)
    requires |t| >= 4
  {
    && (|Sextets(t)| + PadCount(t)) % 4 == 0
    && (PadCount(t) == 0 ==> InAlphabet(t[|t| - 1]))
  }

  lemma {:induction false} Join8Length(v: seq<Sextet>)
    ensures |Join8(v)| == |v| / 4 * 3 + if |v| % 4 == 0 then 0 else |v| % 4 - 1
  {
    hide Byte0, Byte1, Byte2;
    if |v| < 4 {
    } else {
      Join8Length(v[4..]);
    }
  }

  /** The length the decoder answers is right exactly for texts of whole groups. */
  lemma LengthIsRight(t: seq<int>)
    requires |t| >= 4
    ensures 3 * GroupsRead(t) - PadCount(t) == |Join8(Sextets(t))| <==> WholeGroups(t)
    ensures |Join8(Sextets(t))| <= 3 * GroupsRead(t) - if InAlphabet(t[|t| - 1]) then 0 else 1
  {
    Join8Length(Sextets(t));
    hide Sextets, Join8, InAlphabet;
    var n := |Sextets(t)|;
    assert n == n / 4 * 4 + n % 4;
    WholeBy(n, PadCount(t));
  }

  lemma WholeBy(n: nat, p: nat)
    requires p <= 2
    ensures (n + p) % 4 == 0 <==> n % 4 == (if p == 0 then 0 else 4 - p)
  {
  }

  /** Whole groups that end in a letter, or in padding and skipped bytes, fit. */
  lemma WholeGroupsFit(t: seq<int>)
    requires |t| >= 4 && WholeGroups(t) && (PadCount(t) > 0 ==> !InAlphabet(t[|t| - 1]))
    ensures InBounds(t)
  {
    PaddingIsSkipped(t, PadCount(t));
    hide Sextets, InAlphabet;
    WholeBy(|Sextets(t)|, PadCount(t));
    ThreeQuarters(|t|, GroupsRead(t));
  }

  lemma PaddingIsSkipped(t: seq<int>, k: nat)
    requires k <= |t| && forall i :: |t| - k <= i < |t| ==> !InAlphabet(t[i])
    ensures |Sextets(t)| + k <= |t|
  {
    hide InAlphabet, Sextets;
    assert t == t[..|t| - k] + t[|t| - k..];
    SextetsAdd(t[..|t| - k], t[|t| - k..]);
    NoSextets(t[|t| - k..]);
  }

  lemma ThreeQuarters(n: nat, g: nat)
    ensures 3 * g <= n * 3 / 4 <==> 4 * g <= n
  {
  }

  /** Letters alone that make no whole groups do not fit. */
  lemma UnpaddedOverruns(v: seq<Sextet>)
    requires |v| % 4 != 0
    ensures !InBounds(Letters(v))
  {
    SextetsOfLetters(v);
    ValueOfLetter(v[|v| - 1]);
    hide Sextets, Letter;
    ThreeQuarters(|v|, GroupsRead(Letters(v)));
  }

  lemma {:induction false} Join8Adds(v: seq<Sextet>, w: seq<Sextet>)
    requires |v| % 4 == 0
    ensures Join8(v + w) == Join8(v) + Join8(w)
  {
    if |v| == 0 {
      assert v + w == w;
    } else {
      hide Byte0, Byte1, Byte2;
      assert (v + w)[4..] == v[4..] + w;
      Join8Adds(v[4..], w);
    }
  }

  function Stored0(p: int, q: int): int { p % 64 * 4 + q / 16 % 4 }
  function Stored1(q: int, r: int): int { q % 16 * 16 + r / 4 % 16 }
  function Stored2(r: int, t: int): int { (r % 4 * 64 + t) % 256 }

  /** The three bytes the decoder stores for four table values, in the alphabet or not. */
  function Stored(o: seq<int>): (b: seq<int>)
    requires |o| == 4
    ensures |b| == 3
  {
    [Stored0(o[0], o[1]), Stored1(o[1], o[2]), Stored2(o[2], o[3])]
  }

  lemma StoredSextets(p: Sextet, q: Sextet, r: Sextet, t: Sextet)
    ensures Stored0(p, q) == Byte0(p, q) && Stored1(q, r) == Byte1(q, r) && Stored2(r, t) == Byte2(r, t)
  {
  }

  lemma StoredBytes(o: seq<int>, v: seq<Sextet>)
    requires |o| == 4 && 2 <= |v| <= 4 && o[..|v|] == v
    ensures Stored(o)[..|v| - 1] == Join8(v)
  {
    assert o[0] == v[0] && o[1] == v[1] && (|v| > 2 ==> o[2] == v[2]) && (|v| > 3 ==> o[3] == v[3]);
    StoredSextets(v[0], v[1], if |v| > 2 then v[2] else 0, if |v| > 3 then v[3] else 0);
    JoinNothing();
    hide Stored0, Stored1, Stored2, Byte0, Byte1, Byte2;
    if |v| == 4 {
      Join8OfQuad(v[0], v[1], v[2], v[3], []);
      assert v == [v[0], v[1], v[2], v[3]] + [];
    }
  }

  lemma StoredPrefix(o: seq<int>, v: seq<Sextet>)
    requires |o| == 4 && |v| <= 4 && o[..|v|] == v
    ensures Join8(v) <= Stored(o)
  {
    hide Stored;
    if |v| < 2 {
    } else {
      StoredBytes(o, v);
      hide Join8;
    }
  }

  /** Skip to the next character of the alphabet, counting the skips in `i`. */
  method NextLetter(t: seq<int>, i: nat, k: nat, last: int) returns (i': nat, c: int)
    requires 0 <= last < 256
    ensures i <= i' && 0 <= c < 256
    ensures i + k <= |t| ==> i' + k <= |t| && Sextets(t[i + k..i' + k]) == []
    ensures i + k > |t| ==> i' == i
    ensures i' + k < |t| ==> InAlphabet(t[i' + k]) && c == Value(t[i' + k])
  {
    i', c := i, last;
    while i' + k < |t|
      invariant i <= i' && 0 <= c < 256
      invariant i + k <= |t| ==> i' + k <= |t| && forall p :: i + k <= p < i' + k ==> !InAlphabet(t[p])
      invariant i + k > |t| ==> i' == i
    {
      c := if InAlphabet(t[i' + k]) then Value(t[i' + k]) else 255;
      if InAlphabet(t[i' + k]) {
        break;
      }
      i' := i' + 1;
    }
    if i + k <= |t| {
      NoSextets(t[i + k..i' + k]);
    }
  }

  lemma SextetsSkip(t: seq<int>, a: nat, p: nat, q: nat)
    requires a <= p <= q <= |t| && Sextets(t[p..q]) == []
    ensures Sextets(t[a..q]) == Sextets(t[a..p])
  {
    assert t[a..q] == t[a..p] + t[p..q];
    SextetsAdd(t[a..p], t[p..q]);
  }

  lemma SextetsTake(t: seq<int>, a: nat, p: nat)
    requires a <= p < |t| && InAlphabet(t[p])
    ensures Sextets(t[a..p + 1]) == Sextets(t[a..p]) + [Value(t[p])]
  {
    assert t[a..p + 1][..p - a] == t[a..p];
  }

  /** After `k` of the four reads: `m` sextets found, the rest past the end. */
  ghost predicate Reading(t: seq<int>, from: nat, i: nat, m: nat, k: nat, o: seq<int>) {
    && |o| == k && m <= k && from <= i + m <= |t|
    && (m < k ==> i + m == |t|)
    && (0 < m == k ==> InAlphabet(t[i + m - 1]))
    && Sextets(t[from..i + m]) == o[..m]
  }

  lemma ReadingStep(t: seq<int>, from: nat, i: nat, m: nat, k: nat, o: seq<int>, i': nat, c: int)
    requires Reading(t, from, i, m, k, o) && i <= i'
    requires i + k <= |t| ==> i' + k <= |t| && Sextets(t[i + k..i' + k]) == []
    requires i + k > |t| ==> i' == i
    requires i' + k < |t| ==> InAlphabet(t[i' + k]) && c == Value(t[i' + k])
    ensures Reading(t, from, i', if i' + k < |t| then k + 1 else m, k + 1, o + [c])
  {
    hide Sextets, Value, InAlphabet;
    if i + k <= |t| {
      SextetsSkip(t, from, i + k, i' + k);
      if i' + k < |t| {
        SextetsTake(t, from, i' + k);
      }
    }
  }

  /** Read four values; `m` of them are sextets, the rest lie past the end of the text. */
  method ReadGroup(t: seq<int>, from: nat, last: int) returns (o: seq<int>, i: nat, c: int, ghost m: nat)
    requires from <= |t| && 0 <= last < 256
    ensures |o| == 4 && m <= 4 && 0 <= c < 256
    ensures from <= i + m <= |t|
    ensures m < 4 ==> i + m == |t|
    ensures m == 4 ==> InAlphabet(t[i + 3])
    ensures Sextets(t[from..i + m]) == o[..m]
  {
    i, c, o, m := from, last, [], 0;
    assert t[from..from] == [];
    var k := 0;
    while k < 4
      invariant 0 <= k <= 4 && 0 <= c < 256 && Reading(t, from, i, m, k, o)
    {
      hide Reading, Sextets;
      var i', c' := NextLetter(t, i, k, c);
      ReadingStep(t, from, i, m, k, o, i', c');
      m := if i' + k < |t| then k + 1 else m;
      i, c, o, k := i', c', o + [c'], k + 1;
    }
  }

  /** Up to `i`, past `g` whole groups: something is left exactly if another group is read. */
  lemma MoreToRead(t: seq<int>, i: nat, g: nat)
    requires i < |t| && |Sextets(t[..i])| == 4 * g
    ensures g < GroupsRead(t)
    ensures |Sextets(t[i..])| < 4 ==> GroupsRead(t) == g + 1
    ensures |Sextets(t)| == 4 * g + |Sextets(t[i..])|
  {
    hide Sextets, Value, InAlphabet;
    assert t == t[..i] + t[i..];
    SextetsAdd(t[..i], t[i..]);
    if InAlphabet(t[|t| - 1]) {
      SextetsTake(t, i, |t| - 1);
      assert t[i..|t|] == t[i..];
    }
  }

  lemma SomethingIsRead(t: seq<int>)
    requires t != []
    ensures GroupsRead(t) > 0
  {
    assert t[..0] == [];
    MoreToRead(t, 0, 0);
  }

  /** A read of `m` sextets that ends at `e` took a whole group or all there were. */
  lemma ReadAll(t: seq<int>, i: nat, e: nat, m: nat)
    requires i <= e <= |t| && |Sextets(t[i..e])| == m && (m < 4 ==> e == |t|)
    ensures m < 4 ==> |Sextets(t[i..])| == m
  {
    hide Sextets;
    if m < 4 { assert t[i..e] == t[i..]; }
  }

  /** The decoder's progress: `g` groups up to `i`, or everything once `i` is past the end. */
  ghost predicate Progress(t: seq<int>, i: nat, b: seq<int>, g: nat)
    requires t != []
  {
    |b| == 3 * g &&
    if i <= |t| then
      |Sextets(t[..i])| == 4 * g && b == Join8(Sextets(t[..i])) && (i > 0 ==> InAlphabet(t[i - 1]))
    else g == GroupsRead(t) && Join8(Sextets(t)) <= b
  }

  /** A group of `m` sextets has been read up to `e`, and `u` is what has been stored for it. */
  lemma Progresses(t: seq<int>, i: nat, b: seq<int>, g: nat, u: seq<int>, e: nat, m: nat)
    requires i < |t| && Progress(t, i, b, g)
    requires |u| == 3 && m <= 4 && i <= e <= |t| && (m < 4 ==> e == |t|) && e + 4 >= m
    requires m == 4 ==> e > 0 && InAlphabet(t[e - 1])
    requires |Sextets(t[i..e])| == m && Join8(Sextets(t[i..e])) <= u
    ensures Progress(t, e + 4 - m, b + u, g + 1)
  {
    hide Join8, Sextets, GroupsRead, InAlphabet;
    MoreToRead(t, i, g);
    ReadAll(t, i, e, m);
    assert t[..e] == t[..i] + t[i..e];
    SextetsAdd(t[..i], t[i..e]);
    Join8Adds(Sextets(t[..i]), Sextets(t[i..e]));
    if m == 4 {
      Join8Length(Sextets(t[i..e]));
    } else {
      assert t[..e] == t;
    }
  }

  lemma NothingYet(t: seq<int>)
    requires t != []
    ensures Progress(t, 0, [], 0)
  {
    JoinNothing();
    assert t[..0] == [];
  }

  lemma Finished(t: seq<int>, i: nat, b: seq<int>, g: nat)
    requires t != [] && i >= |t| && Progress(t, i, b, g)
    ensures g == GroupsRead(t) && Join8(Sextets(t)) <= b
  {
    hide Join8, Sextets, InAlphabet;
    if i == |t| {
      assert t[..i] == t;
    }
  }

  method Trim(orig: seq<int>) returns (ol: int)
    ensures ol == TrimmedLength(orig)
  {
    ol := |orig| - 1;
    assert orig[..ol + 1] == orig;
    while ol >= 3 && IsLineEnd(orig[ol])
      invariant -1 <= ol < |orig|
      invariant TrimmedLength(orig[..ol + 1]) == TrimmedLength(orig)
    {
      ol := ol - 1;
      assert orig[..ol + 2][..ol + 1] == orig[..ol + 1];
    }
    ol := ol + 1;
  }

  /** The decoding loop. */
  method DecodeGroups(t: seq<int>, ret: array<int>) returns (j: nat)
    requires t != [] && 3 * GroupsRead(t) <= ret.Length
    modifies ret
    ensures j == 3 * GroupsRead(t) && Join8(Sextets(t)) <= ret[..j]
  {
    hide Join8, Sextets, GroupsRead, InAlphabet, Stored, Progress;
    var i, c := 0, 0;
    j := 0;
    ghost var g, b := 0, [];
    NothingYet(t);
    while i < |t|
      invariant 0 <= i && j == 3 * g && 0 <= c < 256
      invariant 0 <= j <= ret.Length && b == ret[..j] && Progress(t, i, b, g)
    {
      assert i <= |t| && |Sextets(t[..i])| == 4 * g by { GroupsSoFar(t, i, b, g); }
      MoreToRead(t, i, g);
      var o, i', c', m := ReadGroup(t, i, c);
      StoredPrefix(o, Sextets(t[i..i' + m]));
      Progresses(t, i, b, g, Stored(o), i' + m, m);
      ret[j] := Stored(o)[0];
      ret[j + 1] := Stored(o)[1];
      ret[j + 2] := Stored(o)[2];
      b, g := b + Stored(o), g + 1;
      i, j, c := i' + 4, j + 3, c';
    }
    Finished(t, i, b, g);
  }

  lemma GroupsSoFar(t: seq<int>, i: nat, b: seq<int>, g: nat)
    requires t != [] && i <= |t| && Progress(t, i, b, g)
    ensures |Sextets(t[..i])| == 4 * g
  {
  }

  /**
   The decoder.  Its result always starts with the bytes the sextets of the text carry, whatever
   characters were skipped, and the length it answers is theirs exactly for whole groups.
   */
  method Decode(orig: seq<int>) returns (ret: array<int>, length: nat)
    requires forall i :: 0 <= i < |orig| ==> 0 < orig[i] < 128
    requires |Trimmed(orig)| >= 4 ==> InBounds(Trimmed(orig))
    ensures ret.Length == |Trimmed(orig)| * 3 / 4 + 1 && length < ret.Length
    ensures var t := Trimmed(orig);
      if |t| < 4 then length == 0
      else
        && length == 3 * GroupsRead(t) - PadCount(t) && Join8(Sextets(t)) <= ret[..]
        && (ret[..length] == Join8(Sextets(t)) <==> WholeGroups(t))
  {
    hide Join8, Sextets, GroupsRead, WholeGroups;
    var ol := Trim(orig);
    var l := ol * 3 / 4;
    ret := new int[l + 1];
    if ol < 4 {
      length := 0;
      ret[0] := 0;
      return;
    }
    ghost var t := orig[..ol];
    LengthIsRight(t);
    SomethingIsRead(t);
    var j := DecodeGroups(orig[..ol], ret);
    length := j;
    if orig[ol - 2] == PAD {
      length := j - 2;
    } else if orig[ol - 1] == PAD {
      length := j - 1;
    }
    if orig[ol - 1] == PAD {
      ret[j - 1] := 0;
    } else {
      ret[j] := 0;
    }
    assert ret[..|Join8(Sextets(t))|] == Join8(Sextets(t));
  }

  // ------------------------------------------------------------------ together

  /** The last line of an encoding. */
  lemma {:induction false} LastLine(x: seq<Byte>) returns (p: seq<int>, y: seq<Byte>)
    requires x != []
    ensures Lines(x) == p + Groups(y) + [NL]
    ensures y != [] && |y| % 3 == |x| % 3
  {
    hide Groups;
    if |x| <= 57 {
      p, y := [], x;
      assert [] + Groups(x) + [NL] == Lines(x);
    } else {
      p, y := LastLine(x[57..]);
      p := Groups(x[..57]) + [NL] + p;
    }
  }

  /** How a padded group sequence ends. */
  lemma GroupsEnd(y: seq<Byte>)
    requires y != []
    ensures var g := Groups(y);
      && |g| >= 4
      && (|y| % 3 == 0 ==> InAlphabet(g[|g| - 1]) && g[|g| - 2] != PAD)
      && (|y| % 3 == 1 ==> g[|g| - 1] == PAD && g[|g| - 2] == PAD)
      && (|y| % 3 == 2 ==> g[|g| - 1] == PAD && g[|g| - 2] != PAD)
  {
    Split6Length(y);
    GroupsLength(y);
    hide Split6, Letter;
    var v := Split6(y);
    forall i | 0 <= i < |v| ensures InAlphabet(Letters(v)[i]) {
      ValueOfLetter(v[i]);
    }
  }

  lemma {:induction false} LinesAreAscii(x: seq<Byte>)
    ensures forall i :: 0 <= i < |Lines(x)| ==> 0 < Lines(x)[i] < 128
  {
    if |x| <= 57 {
      GroupsAreAscii(x);
    } else {
      GroupsAreAscii(x[..57]);
      hide Groups;
      LinesAreAscii(x[57..]);
    }
  }

  lemma GroupsAreAscii(x: seq<Byte>)
    ensures forall i :: 0 <= i < |Groups(x)| ==> 0 < Groups(x)[i] < 128
  {
  }

  lemma QuarterGroups(n: nat)
    ensures (n / 3 * 4 + (if n % 3 == 0 then 0 else n % 3 + 1) + (if n % 3 == 0 then 0 else 3 - n % 3)) % 4 == 0
  {
  }

  lemma TrimOne(t: seq<int>)
    requires |t| >= 4 && !IsLineEnd(t[|t| - 1])
    ensures Trimmed(t + [NL]) == t
  {
    var u := t + [NL];
    assert u[..|u| - 1] == t && TrimmedLength(t) == |t|;
    assert TrimmedLength(u) == |t|;
  }

  lemma GroupedText(p: seq<int>, y: seq<Byte>, n: nat)
    requires y != [] && |y| % 3 == n % 3
    requires |Sextets(p + Groups(y))| == n / 3 * 4 + (if n % 3 == 0 then 0 else n % 3 + 1)
    ensures var t := p + Groups(y);
      && |t| >= 4 && WholeGroups(t) && (PadCount(t) > 0 ==> !InAlphabet(t[|t| - 1]))
      && !IsLineEnd(t[|t| - 1])
  {
    GroupsEnd(y);
    QuarterGroups(n);
    hide Groups, Sextets;
    var g, t := Groups(y), p + Groups(y);
    assert t[|t| - 1] == g[|g| - 1] && t[|t| - 2] == g[|g| - 2];
    assert PadCount(t) == if n % 3 == 0 then 0 else 3 - n % 3;
  }

  /** What the encoder writes is a text the decoder accepts. */
  lemma EncodingIsDecodable(x: seq<Byte>)
    ensures Sextets(Trimmed(Lines(x))) == Split6(x)
    ensures x != [] ==>
              var t := Trimmed(Lines(x)); |t| >= 4 && WholeGroups(t) && InBounds(t)
  {
    SextetsOfLines(x);
    if x == [] {
      assert Trimmed(Lines(x)) == Lines(x);
    } else {
      hide Groups, Lines, Sextets, Split6, Trimmed, WholeGroups, InBounds;
      var p, y := LastLine(x);
      var t := p + Groups(y);
      Split6Length(x);
      SextetsAdd(t, [NL]);
      NoSextets([NL]);
      GroupedText(p, y, |x|);
      WholeGroupsFit(t);
      TrimOne(t);
    }
  }

  /** Encoding a byte string and decoding the text gives the byte string back, with its length. */
  method RoundTrip(x: seq<Byte>) returns (dec: array<int>, length: nat)
    ensures length == |x| && length < dec.Length && dec[..length] == x
  {
    EncodingIsDecodable(x);
    Join8OfSplit6(x);
    LinesAreAscii(x);
    JoinNothing();
    hide Lines, Sextets, Split6, Join8, Trimmed, WholeGroups, InBounds;
    assert x == [] ==> |Trimmed(Lines(x))| == 0 by { NothingToTrim(x); }
    var enc := Encode(x);
    dec, length := Decode(enc[..|Lines(x)|]);
  }

  lemma NothingToTrim(x: seq<Byte>)
    ensures x == [] ==> Trimmed(Lines(x)) == []
  {
  }
}
