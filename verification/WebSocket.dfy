/** WebSocket framing, onion/websocket.c, against sections 5.2 and 5.3 of RFC 6455. */
module WebSocket {
  import opened Wrappers

  // ------------------------------------------------------------------ masking

  /** Exclusive or, bit by bit. */
  function XorBits(a: nat, b: nat, n: nat): (r: nat)
    ensures r < Pow2(n)
  {
    if n == 0 then 0 else (a + b) % 2 + 2 * XorBits(a / 2, b / 2, n - 1)
  }

  function Xor(a: Byte, b: Byte): Byte {
    assert Pow2(8) == 256 by { Pow2Of8(); }
    XorBits(a, b, 8)
  }

  lemma Pow2Of8()
    ensures Pow2(8) == 256
  {
    assert Pow2(4) == 16;
  }

  lemma {:induction false} XorBitsTwice(a: nat, m: nat, n: nat)
    requires a < Pow2(n)
    ensures XorBits(XorBits(a, m, n), m, n) == a
  {
    if n == 0 {
    } else {
      hide XorBits, Pow2;
      var h := XorBits(a / 2, m / 2, n - 1);
      HalfFits(a, n);
      XorBitsTwice(a / 2, m / 2, n - 1);
      BitOf(a, m, h);
      BitFirst(a, m, n);
      BitFirst(XorBits(a, m, n), m, n);
    }
  }

  lemma HalfFits(a: nat, n: nat)
    requires n > 0 && a < Pow2(n)
    ensures a / 2 < Pow2(n - 1)
  {
  }

  lemma BitFirst(a: nat, m: nat, n: nat)
    requires n > 0
    ensures XorBits(a, m, n) == (a + m) % 2 + 2 * XorBits(a / 2, m / 2, n - 1)
  {
  }

  lemma BitOf(a: nat, m: nat, h: nat)
    ensures var x := (a + m) % 2 + 2 * h; x / 2 == h && (x + m) % 2 == a % 2
    ensures a % 2 + 2 * (a / 2) == a
  {
  }

  lemma XorTwice(a: Byte, m: Byte)
    ensures Xor(Xor(a, m), m) == a
  {
    Pow2Of8();
    XorBitsTwice(a, m, 8);
  }

  /** Section 5.3: byte i of the payload with byte i mod 4 of the key; `phase` bytes have gone before. */
  function Unmask(s: seq<Byte>, mask: seq<Byte>, phase: nat): (u: seq<Byte>)
    requires |mask| == 4
    ensures |u| == |s|
  {
    seq(|s|, i requires 0 <= i < |s| => Xor(s[i], mask[(phase + i) % 4]))
  }

  lemma UnmaskTwice(s: seq<Byte>, mask: seq<Byte>, phase: nat)
    requires |mask| == 4
    ensures Unmask(Unmask(s, mask, phase), mask, phase) == s
  {
    hide Xor;
    forall i | 0 <= i < |s| ensures Unmask(Unmask(s, mask, phase), mask, phase)[i] == s[i] {
      XorTwice(s[i], mask[(phase + i) % 4]);
    }
  }

  /** An `int8_t`. */
  function Int8(x: int): (r: int)
    ensures -128 <= r < 128
  {
    (x + 128) % 256 - 128
  }

  /** The counter may wrap: what is taken of it is its last two bits. */
  lemma WrapKeepsPhase(pos: int)
    ensures Int8(pos) % 4 == pos % 4
  {
    var q := (pos + 128) / 256;
    assert Int8(pos) == pos - 256 * q;
    hide Int8;
    AddFours(pos, -64 * q);
  }

  lemma AddFours(x: int, k: int)
    ensures (x + 4 * k) % 4 == x % 4
  {
    var r, q := x % 4, x / 4;
    assert x + 4 * k == 4 * (q + k) + r;
  }

  // ------------------------------------------------------------------ frames

  datatype Header = Header(fin: bool, opcode: nat, marker: nat, masked: bool, mask: seq<Byte>, length: nat, size: nat)

  function Number(s: seq<Byte>): nat {
    if s == [] then 0 else Number(s[..|s| - 1]) * 256 + s[|s| - 1]
  }

  function Extra(marker: nat): nat {
    if marker == 126 then 2 else if marker == 127 then 8 else 0
  }

  const NO_MASK: seq<Byte> := [0, 0, 0, 0]

  /** Section 5.2: the header at the start of `w`, if all of it is there. */
  function HeaderOf(w: seq<Byte>): (r: Option<Header>)
    ensures r.Some? ==> 2 <= r.value.size <= |w| && |r.value.mask| == 4
  {
    if |w| < 2 then None
    else
      var marker, masked := w[1] % 128, w[1] >= 128;
      var e := 2 + Extra(marker);
      var size := e + if masked then 4 else 0;
      if |w| < size then None
      else Some(Header(w[0] >= 128, w[0] % 16, marker, masked, if masked then w[e..e + 4] else NO_MASK,
                       if marker < 126 then marker else Number(w[2..e]), size))
  }

  datatype Frame = Frame(fin: bool, opcode: nat, payload: seq<Byte>, rest: seq<Byte>)

  function FrameOf(w: seq<Byte>): Option<Frame> {
    var h := HeaderOf(w);
    if h.None? || |w| < h.value.size + h.value.length then None
    else
      var n, end := h.value.size, h.value.size + h.value.length;
      Some(Frame(h.value.fin, h.value.opcode,
                 if h.value.masked then Unmask(w[n..end], h.value.mask, 0) else w[n..end], w[end..]))
  }

  // ------------------------------------------------------------------ writing

  /**
   What the code sends of a header; beyond 16 bits, `x` and `y` are bytes it never set and the
   length is misplaced.
   */
  function HeaderSent(opcode: nat, n: nat, x: Byte, y: Byte): seq<Byte>
    requires n < 0x8000_0000
  {
    [128 + opcode % 16] +
    if n < 126 then [n]
    else if n < 65535 then [126, n / 256, n % 256]
    else [127, x, y, 0, 0, 0, 0, n / 0x100_0000, n / 0x1_0000 % 256]
  }

  /** The payload bytes it sends: the last block is lost if it is a full one. */
  function PayloadSent(data: seq<Byte>): seq<Byte> {
    if data != [] && |data| % 1024 == 0 then data[..|data| - 1024] else data
  }

  /** The writes its payload goes out in: blocks of 1024, and what the last of them leaves modulo 1024. */
  function Blocks(data: seq<Byte>): (b: seq<seq<Byte>>)
    ensures b != []
  {
    if |data| > 1024 then [data[..1024]] + Blocks(data[1024..]) else [data[..|data| % 1024]]
  }

  function Pieces(opcode: nat, data: seq<Byte>, x: Byte, y: Byte): seq<seq<Byte>>
    requires |data| < 0x8000_0000
  {
    [HeaderSent(opcode, |data|, x, y)] + Blocks(data)
  }

  function Joined(pieces: seq<seq<Byte>>): seq<Byte> {
    if pieces == [] then [] else pieces[0] + Joined(pieces[1..])
  }

  function Prefix(s: seq<Byte>, n: nat): seq<Byte> {
    if n < |s| then s[..n] else s
  }

  /** What a connection takes of the pieces if its n-th write takes at most `room(n)` bytes. */
  function Taken(pieces: seq<seq<Byte>>, room: nat -> nat, n: nat): seq<Byte> {
    if pieces == [] then [] else Prefix(pieces[0], room(n)) + Taken(pieces[1..], room, n + 1)
  }

  predicate TakenWhole(pieces: seq<seq<Byte>>, room: nat -> nat, n: nat) {
    pieces == [] || (|pieces[0]| <= room(n) && TakenWhole(pieces[1..], room, n + 1))
  }

  class Output {
    var wire: seq<Byte>
    var calls: nat
    const room: nat -> nat

    constructor (room: nat -> nat)
      ensures wire == [] && calls == 0 && this.room == room
    {
      this.room := room;
      wire, calls := [], 0;
    }

    method Send(data: seq<Byte>) returns (w: nat)
      modifies this
      ensures wire == old(wire) + Prefix(data, room(old(calls))) && w == |Prefix(data, room(old(calls)))|
      ensures calls == old(calls) + 1
    {
      w := if room(calls) < |data| then room(calls) else |data|;
      wire := wire + data[..w];
      calls := calls + 1;
    }
  }

  /** The header part of `onion_websocket_write`. */
  method WriteHeader(out: Output, opcode: nat, len: nat) returns (ghost x: Byte, ghost y: Byte)
    requires len < 0x8000_0000
    modifies out
    ensures out.wire == old(out.wire) + Prefix(HeaderSent(opcode, len, x, y), out.room(old(out.calls)))
    ensures out.calls == old(out.calls) + 1
  {
    var header := new Byte[16];
    var hlen := 2;
    x, y := header[2], header[3];
    header[0] := 128 + opcode % 16;
    header[1] := 0;
    if len < 126 {
      header[1] := len;
    } else if len < 0xFFFF {
      header[1] := 126;
      header[2] := len / 256 % 256;
      header[3] := len % 256;
      hlen := 4;
    } else {
      header[1] := 127;
      var tlen := len;
      ghost var m := Bytes4(len);
      for i := 0 to 8
        invariant forall k :: 11 - i < k <= 11 ==> header[k] == if k > 7 then m[11 - k] else 0
        invariant header[0] == 128 + opcode % 16 && header[1] == 127 && header[2] == x && header[3] == y
        invariant out.wire == old(out.wire) && out.calls == old(out.calls)
        invariant 0 <= tlen && tlen == if i < 4 then Shifted(len, i) else 0
      {
        ShiftStep(len, i);
        header[3 + 8 - i] := tlen % 256;
        tlen := tlen / 256;
      }
      hlen := 10;
      assert header[..10] == [header[0], 127, x, y, 0, 0, 0, 0, m[3], m[2]];
    }
    var h := header[..hlen];
    assert len < 126 ==> h == [header[0], len];
    assert 126 <= len < 0xFFFF ==> h == [header[0], 126, len / 256, len % 256];
    assert h == HeaderSent(opcode, len, x, y);
    hide HeaderSent;
    var w := out.Send(h);
  }

  function Shifted(n: nat, i: nat): nat
    requires i <= 4
  {
    if i == 0 then n else Shifted(n, i - 1) / 256
  }

  function Bytes4(n: nat): (s: seq<Byte>)
    requires n < 0x8000_0000
    ensures |s| == 4
  {
    [n % 256, n / 256 % 256, n / 0x1_0000 % 256, n / 0x100_0000]
  }

  lemma ShiftStep(n: nat, i: nat)
    requires n < 0x8000_0000
    ensures i < 4 ==> Shifted(n, i) % 256 == Bytes4(n)[i]
    ensures i < 3 ==> Shifted(n, i) / 256 == Shifted(n, i + 1)
    ensures i == 3 ==> Shifted(n, i) / 256 == 0
  {
    assert Shifted(n, 1) == n / 256;
    assert Shifted(n, 2) == n / 256 / 256 == n / 0x1_0000;
    assert Shifted(n, 3) == n / 0x1_0000 / 256 == n / 0x100_0000;
  }

  /** `onion_websocket_write`: what each write took is added up, and otherwise ignored. */
  method Write(out: Output, opcode: nat, buffer: seq<Byte>) returns (ret: nat, ghost x: Byte, ghost y: Byte)
    requires |buffer| < 0x8000_0000
    modifies out
    ensures out.wire == old(out.wire) + Taken(Pieces(opcode, buffer, x, y), out.room, old(out.calls))
    ensures ret == |Taken(Blocks(buffer), out.room, old(out.calls) + 1)|
  {
    hide HeaderSent, Blocks, Prefix;
    var len := |buffer|;
    x, y := WriteHeader(out, opcode, len);
    ret := WritePayload(out, buffer);
    assert Pieces(opcode, buffer, x, y)[1..] == Blocks(buffer);
  }

  method WritePayload(out: Output, buffer: seq<Byte>) returns (ret: nat)
    modifies out
    ensures out.wire == old(out.wire) + Taken(Blocks(buffer), out.room, old(out.calls))
    ensures ret == |Taken(Blocks(buffer), out.room, old(out.calls))|
  {
    hide Blocks, Taken, Prefix;
    var len := |buffer|;
    ret := 0;
    var tout := new Byte[1024];
    var i := 0;
    ghost var all := Taken(Blocks(buffer), out.room, out.calls);
    assert buffer[0..] == buffer;
    while i < len - 1024
      invariant i % 1024 == 0 && i <= len && (i > 0 ==> i < len)
      invariant old(out.wire) + all == out.wire + Taken(Blocks(buffer[i..]), out.room, out.calls)
      invariant |all| == ret + |Taken(Blocks(buffer[i..]), out.room, out.calls)|
      decreases len - i
    {
      forall j | 0 <= j < tout.Length {
        tout[j] := buffer[i + j];
      }
      assert tout[..] == buffer[i..][..1024] && buffer[i..][1024..] == buffer[i + 1024..];
      NextBlock(buffer[i..], out.room, out.calls);
      var w := out.Send(tout[..]);
      ret := ret + w;
      i := i + 1024;
    }
    var w := WriteTail(out, buffer, i);
    ret := ret + w;
  }

  lemma NextBlock(data: seq<Byte>, room: nat -> nat, n: nat)
    ensures |data| > 1024 ==> Taken(Blocks(data), room, n) ==
                              Prefix(data[..1024], room(n)) + Taken(Blocks(data[1024..]), room, n + 1)
    ensures |data| <= 1024 ==> Taken(Blocks(data), room, n) == Prefix(data[..|data| % 1024], room(n))
  {
    hide Prefix;
    if |data| > 1024 {
      assert Blocks(data)[1..] == Blocks(data[1024..]);
    } else {
      assert Blocks(data)[1..] == [];
    }
  }

  /** The same with -1 for the length: two bytes, and then 1023 that were never set. */
  method WriteUnset(out: Output, opcode: nat) returns (ghost junk: seq<Byte>)
    modifies out
    ensures |junk| == 1023
    ensures out.wire == old(out.wire) + Taken([[128 + opcode % 16, 255], junk], out.room, old(out.calls))
  {
    var w := out.Send([128 + opcode % 16, 255]);
    var tout := new Byte[1024];
    var unset := tout[..1023];
    junk := unset;
    w := out.Send(unset);
    TwoTaken([128 + opcode % 16, 255], junk, out.room, old(out.calls));
  }

  lemma TwoTaken(a: seq<Byte>, b: seq<Byte>, room: nat -> nat, n: nat)
    ensures Taken([a, b], room, n) == Prefix(a, room(n)) + Prefix(b, room(n + 1))
  {
    hide Prefix;
    assert [a, b][1..] == [b] && [b][1..] == [];
    assert Taken([b], room, n + 1) == Prefix(b, room(n + 1));
  }

  /** What is left after the full blocks. */
  method WriteTail(out: Output, buffer: seq<Byte>, start: nat) returns (w: nat)
    requires start % 1024 == 0 && start <= |buffer| <= start + 1024
    modifies out
    ensures var t := Taken(Blocks(buffer[start..]), out.room, old(out.calls));
      out.wire == old(out.wire) + t && w == |t|
  {
    hide Blocks, Taken, Prefix;
    var len, i, tout := |buffer|, start, new Byte[1024];
    while i < len
      invariant out.wire == old(out.wire) && out.calls == old(out.calls)
      invariant start <= i <= len && forall j :: start <= j < i ==> tout[j - start] == buffer[j]
      decreases len - i
    {
      LowBits(start, i - start);
      tout[i % 1024] := buffer[i];
      i := i + 1;
    }
    SameRest(start, len);
    var last := tout[..len % 1024];
    assert last == buffer[start..][..len % 1024];
    NextBlock(buffer[start..], out.room, out.calls);
    w := out.Send(last);
  }

  lemma SameRest(start: nat, len: nat)
    requires start % 1024 == 0 && start <= len
    ensures len % 1024 == (len - start) % 1024 <= len - start
  {
  }

  lemma LowBits(start: nat, k: nat)
    requires start % 1024 == 0 && k < 1024
    ensures (start + k) % 1024 == k
  {
  }

  // ------------------------------------------------------------------ what is written is read

  lemma HeaderBack(opcode: nat, n: nat, x: Byte, y: Byte, w: seq<Byte>)
    requires opcode < 16 && n < 65535
    ensures var s := HeaderSent(opcode, n, x, y);
      HeaderOf(s + w) == Some(Header(true, opcode, if n < 126 then n else 126, false, NO_MASK, n, |s|))
  {
    var s := HeaderSent(opcode, n, x, y);
    var v := s + w;
    assert v[0] == s[0] == 128 + opcode && v[1] == s[1];
    if n >= 126 {
      assert v[2..4] == [n / 256, n % 256];
      TwoBytes(n);
    }
  }

  lemma TwoBytes(n: nat)
    requires n < 65536
    ensures Number([n / 256, n % 256]) == n
  {
    var s := [n / 256, n % 256];
    assert s[..1] == [n / 256] && s[..1][..0] == [];
    assert Number([n / 256]) == n / 256;
  }

  /** The misplaced 64-bit length is never the right one, whatever the two unset bytes are. */
  lemma LongHeaderIsWrong(opcode: nat, n: nat, x: Byte, y: Byte, w: seq<Byte>)
    requires opcode < 16 && 65535 <= n < 0x8000_0000
    ensures var h := HeaderOf(HeaderSent(opcode, n, x, y) + w); h.Some? && h.value.length != n && h.value.size == 10
  {
    var s := HeaderSent(opcode, n, x, y);
    var v := s + w;
    assert v[1] == 127;
    assert v[2..10] == [x, y, 0, 0, 0, 0, n / 0x100_0000, n / 0x1_0000 % 256];
    EightBytes(x, y, n / 0x100_0000, n / 0x1_0000 % 256);
    Misplaced(x * 256 + y, n);
  }

  lemma EightBytes(x: Byte, y: Byte, a: Byte, b: Byte)
    ensures Number([x, y, 0, 0, 0, 0, a, b]) == (x * 256 + y) * 0x1_0000_0000_0000 + a * 256 + b
  {
    var s: seq<Byte> := [x, y, 0, 0, 0, 0, a, b];
    assert s[..7][..6] == s[..6] && s[..6][..5] == s[..5] && s[..5][..4] == s[..4] && s[..4][..3] == s[..3];
    assert s[..3][..2] == s[..2] && s[..2][..1] == s[..1] && s[..1][..0] == [];
    assert s[..8] == s && s[..8][..7] == s[..7];
    assert Number(s[..1]) == x;
    assert Number(s[..2]) == x * 256 + y;
    assert Number(s[..6]) == (x * 256 + y) * 0x1_0000_0000 by {
      assert Number(s[..4]) == (x * 256 + y) * 0x1_0000;
    }
    assert Number(s[..7]) == (x * 256 + y) * 0x100_0000_0000 + a;
  }

  lemma Misplaced(k: nat, n: nat)
    requires 65535 <= n < 0x8000_0000
    ensures k * 0x1_0000_0000_0000 + n / 0x100_0000 * 256 + n / 0x1_0000 % 256 != n
  {
    assert n / 0x100_0000 * 256 + n / 0x1_0000 % 256 == n / 0x1_0000;
  }

  /**
   A written frame is recovered, and nothing behind it disturbed, exactly when it is shorter
   than 65535 bytes and not a positive multiple of 1024 bytes long.
   */
  lemma WrittenIsRead(opcode: nat, data: seq<Byte>, x: Byte, y: Byte, rest: seq<Byte>)
    requires opcode < 16 && |data| < 0x8000_0000
    ensures FrameOf(HeaderSent(opcode, |data|, x, y) + PayloadSent(data) + rest) ==
            Some(Frame(true, opcode, data, rest))
            <==> |data| < 65535 && (data == [] || |data| % 1024 != 0)
  {
    hide HeaderSent, HeaderOf;
    var s, p := HeaderSent(opcode, |data|, x, y), PayloadSent(data);
    var w := s + p + rest;
    assert w == s + (p + rest);
    if |data| < 65535 {
      HeaderBack(opcode, |data|, x, y, p + rest);
      if data == [] || |data| % 1024 != 0 {
        assert w[|s|..|s| + |data|] == data && w[|s| + |data|..] == rest;
      } else {
        assert |w| - |s| - |data| == |rest| - 1024;
      }
    } else {
      LongHeaderIsWrong(opcode, |data|, x, y, p + rest);
    }
  }

  /** Pieces are cut off exactly if fewer bytes are taken than there are. */
  lemma {:induction false} TakenLength(pieces: seq<seq<Byte>>, room: nat -> nat, n: nat)
    ensures TakenWhole(pieces, room, n) ==> Taken(pieces, room, n) == Joined(pieces)
    ensures !TakenWhole(pieces, room, n) ==> |Taken(pieces, room, n)| < |Joined(pieces)|
  {
    if pieces == [] {
    } else {
      TakenLength(pieces[1..], room, n + 1);
    }
  }

  lemma {:induction false} BlocksJoin(data: seq<Byte>)
    ensures Joined(Blocks(data)) == PayloadSent(data)
  {
    hide PayloadSent;
    if |data| > 1024 {
      BlocksJoin(data[1024..]);
      assert Blocks(data)[1..] == Blocks(data[1024..]);
      AllButTheLast(data);
    } else {
      assert Blocks(data)[1..] == [];
      OnlyBlock(data);
    }
  }

  lemma AllButTheLast(data: seq<Byte>)
    requires |data| > 1024
    ensures data[..1024] + PayloadSent(data[1024..]) == PayloadSent(data)
  {
    assert |data| % 1024 == (|data| - 1024) % 1024;
  }

  lemma OnlyBlock(data: seq<Byte>)
    requires |data| <= 1024
    ensures data[..|data| % 1024] == PayloadSent(data)
  {
    assert |data| < 1024 ==> |data| % 1024 == |data|;
  }

  /** A header of which two bytes were taken is read as being as long as it was. */
  lemma SizeIsKept(opcode: nat, n: nat, x: Byte, y: Byte, w: seq<Byte>)
    requires opcode < 16 && n < 0x8000_0000 && |w| >= 2 && w[..2] == HeaderSent(opcode, n, x, y)[..2]
    ensures HeaderOf(w).Some? ==> HeaderOf(w).value.size == |HeaderSent(opcode, n, x, y)|
  {
    assert w[1] == w[..2][1];
  }

  lemma FrameLength(w: seq<Byte>)
    ensures FrameOf(w).Some? ==>
              && HeaderOf(w).Some?
              && |w| == HeaderOf(w).value.size + |FrameOf(w).value.payload| + |FrameOf(w).value.rest|
  {
    hide HeaderOf;
  }

  /** With a byte of header or payload missing the frame cannot be made up from what follows. */
  lemma CutShort(opcode: nat, data: seq<Byte>, x: Byte, y: Byte, h: seq<Byte>, u: seq<Byte>, rest: seq<Byte>)
    requires opcode < 16 && |data| < 0x8000_0000
    requires h <= HeaderSent(opcode, |data|, x, y) && |u| <= |data|
    requires |h| + |u| < |HeaderSent(opcode, |data|, x, y)| + |data|
    ensures FrameOf(h + u + rest) != Some(Frame(true, opcode, data, rest))
  {
    var w := h + u + rest;
    FrameLength(w);
    if |h| >= 2 {
      assert w[..2] == h[..2] == HeaderSent(opcode, |data|, x, y)[..2];
      SizeIsKept(opcode, |data|, x, y, w);
    }
    hide FrameOf, HeaderSent;
  }

  /**
   Short writes included: what was taken of a frame, whatever follows it, is read as that frame
   exactly when every piece of it was taken whole and its length is one the writer gets right.
   */
  lemma ShortWritesLoseTheFrame(opcode: nat, data: seq<Byte>, x: Byte, y: Byte, room: nat -> nat, n: nat,
                                rest: seq<Byte>)
    requires opcode < 16 && |data| < 0x8000_0000
    ensures var pieces := Pieces(opcode, data, x, y);
      FrameOf(Taken(pieces, room, n) + rest) == Some(Frame(true, opcode, data, rest))
      <==> TakenWhole(pieces, room, n) && |data| < 65535 && (data == [] || |data| % 1024 != 0)
  {
    var head, pieces := HeaderSent(opcode, |data|, x, y), Pieces(opcode, data, x, y);
    BlocksJoin(data);
    assert pieces[1..] == Blocks(data);
    TakenLength(pieces, room, n);
    TakenLength(pieces[1..], room, n + 1);
    hide HeaderSent, FrameOf, Blocks, TakenWhole;
    if TakenWhole(pieces, room, n) {
      WrittenIsRead(opcode, data, x, y, rest);
      assert Joined(pieces) == head + PayloadSent(data);
    } else {
      CutShort(opcode, data, x, y, Prefix(head, room(n)), Taken(pieces[1..], room, n + 1), rest);
    }
  }

  // ------------------------------------------------------------------ reading

  const OPCODE_PING := 9
  const OPCODE_PONG := 10

  /** Frames this reader is good for: lengths of 7 or 16 bits.  (Longer ones shift an `int` by 32 and more.) */
  ghost predicate Readable(w: seq<Byte>)
    decreases |w|
  {
    && (|w| >= 2 ==> w[1] % 128 != 127)
    && (match HeaderOf(w)
        case None => true
        case Some(h) => Readable(w[End(h, w)..]))
  }

  /** Where the frame ends, or the input before it does. */
  function End(h: Header, w: seq<Byte>): (e: nat)
    requires h.size <= |w|
    ensures h.size <= e <= |w|
  {
    if h.size + h.length <= |w| then h.size + h.length else |w|
  }

  function Plain(masked: bool, s: seq<Byte>, mask: seq<Byte>, phase: nat): (u: seq<Byte>)
    requires |mask| == 4
    ensures |u| == |s|
  {
    if masked then Unmask(s, mask, phase) else s
  }

  /** What a read of up to `n` bytes takes when `w` is to come; where it may stop is up to the connection. */
  function Takes(n: nat, w: seq<Byte>, cuts: nat -> nat): (m: nat)
    ensures m <= n && m <= |w| && (n > 0 && w != [] ==> m > 0)
  {
    var m := if cuts(|w|) + 1 < n then cuts(|w|) + 1 else n;
    if m <= |w| then m else |w|
  }

  /** How much of a frame's payload is read to answer it: of a ping, what its first read takes. */
  function Swallowed(h: Header, w: seq<Byte>, cuts: nat -> nat): (m: nat)
    requires h.size <= |w|
    ensures h.size + m <= End(h, w)
  {
    if h.opcode == OPCODE_PING then Takes(h.length, w[h.size..], cuts) else 0
  }

  /** The payload bytes of all the frames in `w`, unmasked and joined, without what is swallowed of pings. */
  function Stream(w: seq<Byte>, cuts: nat -> nat): seq<Byte>
    decreases |w|
  {
    match HeaderOf(w)
    case None => []
    case Some(h) =>
      var m := Swallowed(h, w, cuts);
      Plain(h.masked, w[h.size + m..End(h, w)], h.mask, m % 4) + Stream(w[End(h, w)..], cuts)
  }

  predicate EmptyPing(h: Header) {
    h.opcode == OPCODE_PING && h.length == 0
  }

  /** The length that stays set when `v`, all there is, holds no whole header. */
  function LeftBy(v: seq<Byte>): nat {
    if |v| < 2 then 0
    else if v[1] % 128 == 126 && |v| >= 4 then v[2] as nat * 256 + v[3]
    else v[1] % 128
  }

  /** Whole frames, and then no whole header; behind an empty ping, none that leaves a length set. */
  ghost predicate WholeFrames(w: seq<Byte>)
    decreases |w|
  {
    match HeaderOf(w)
    case None => true
    case Some(h) =>
      && h.size + h.length <= |w| && WholeFrames(w[End(h, w)..])
      && (EmptyPing(h) && HeaderOf(w[End(h, w)..]).None? ==> LeftBy(w[End(h, w)..]) == 0)
  }

  lemma WholeBehindHeader(w: seq<Byte>)
    ensures HeaderOf(w).None? ==> WholeFrames(w)
    ensures HeaderOf(w).Some? ==>
      var h := HeaderOf(w).value;
      var v := w[h.size..];
      WholeFrames(w) <==>
        && h.length <= |v| && WholeFrames(v[h.length..])
        && (EmptyPing(h) && HeaderOf(v).None? ==> LeftBy(v) == 0)
  {
    hide HeaderOf;
    if HeaderOf(w).Some? {
      var h := HeaderOf(w).value;
      if h.size + h.length <= |w| {
        assert w[h.size..][h.length..] == w[End(h, w)..];
        assert w[h.size..][0..] == w[h.size..];
      }
    }
  }

  lemma StreamOfNothing(cuts: nat -> nat)
    ensures Stream([], cuts) == [] && Readable([])
  {
  }

  lemma PhaseStep(phase: nat, r: nat, i: nat)
    ensures ((phase + r) % 4 + i) % 4 == (phase + r + i) % 4
  {
    AddFours(phase + r + i, -((phase + r) / 4 as int));
  }

  lemma PlainSplits(masked: bool, s: seq<Byte>, mask: seq<Byte>, phase: nat, r: nat)
    requires |mask| == 4 && r <= |s|
    ensures Plain(masked, s, mask, phase) ==
      Plain(masked, s[..r], mask, phase) + Plain(masked, s[r..], mask, (phase + r) % 4)
  {
    hide Xor;
    if masked {
      var u, a, b := Unmask(s, mask, phase), Unmask(s[..r], mask, phase), Unmask(s[r..], mask, (phase + r) % 4);
      forall i | 0 <= i < |s| ensures u[i] == (a + b)[i] {
        if i >= r {
          PhaseStep(phase, r, i - r);
          assert s[r..][i - r] == s[i];
        }
      }
    }
  }

  /** The connection; a header comes whole if it has come at all. */
  class Input {
    var rest: seq<Byte>
    const cuts: nat -> nat

    constructor (rest: seq<Byte>, cuts: nat -> nat)
      ensures this.rest == rest && this.cuts == cuts
    {
      this.rest, this.cuts := rest, cuts;
    }

    method Take(n: nat) returns (s: seq<Byte>)
      modifies this
      ensures s == old(rest)[..Takes(n, old(rest), cuts)] && rest == old(rest)[|s|..]
    {
      var m := Takes(n, rest, cuts);
      s := rest[..m];
      rest := rest[m..];
    }

    method TakeWhole(n: nat) returns (s: seq<Byte>)
      modifies this
      ensures s == old(rest)[..if n <= |old(rest)| then n else |old(rest)|] && rest == old(rest)[|s|..]
    {
      var m := if n <= |rest| then n else |rest|;
      s := rest[..m];
      rest := rest[m..];
    }
  }

  /** Where a reader stands: how it unmasks, how much of the frame is left, the bytes to come and in what reads. */
  datatype Place = At(masked: bool, mask: seq<Byte>, phase: nat, left: nat, rest: seq<Byte>, cuts: nat -> nat)

  /** How much of the current frame is still to come. */
  function Ahead(left: nat, w: seq<Byte>): (m: nat)
    ensures m <= left && m <= |w|
  {
    if left <= |w| then left else |w|
  }

  ghost predicate Good(p: Place) {
    |p.mask| == 4 && Readable(p.rest[Ahead(p.left, p.rest)..])
  }

  ghost predicate EndsAt(p: Place) {
    p.left <= |p.rest| && WholeFrames(p.rest[p.left..])
  }

  ghost function RestOf(p: Place): seq<Byte>
    requires |p.mask| == 4
  {
    var m := Ahead(p.left, p.rest);
    Plain(p.masked, p.rest[..m], p.mask, p.phase) + Stream(p.rest[m..], p.cuts)
  }

  class Reader {
    const input: Input
    const output: Output
    var dataLeft: nat
    var mask: seq<Byte>
    var maskPos: int
    var fin: bool
    var masked: bool
    var opcode: nat

    /** What is to come, for the proofs. */
    ghost function Place(): (p: Place)
      reads this, input
    {
      At(masked, mask, maskPos % 4, dataLeft, input.rest, input.cuts)
    }

    ghost predicate Valid()
      reads this, input
    {
      |mask| == 4 && -128 <= maskPos < 128 && Good(Place())
    }

    /** The frames end with the input, and nothing but the start of a header may follow them. */
    ghost predicate EndsAtHeader()
      reads this, input
    {
      EndsAt(Place())
    }

    /** The payload bytes not yet delivered. */
    ghost function Rest(): seq<Byte>
      requires Valid()
      reads this, input
    {
      RestOf(Place())
    }

    constructor (input: Input, output: Output)
      requires Readable(input.rest)
      ensures Valid() && this.input == input && this.output == output
      ensures Rest() == Stream(input.rest, input.cuts) && dataLeft == 0
    {
      this.input, this.output := input, output;
      dataLeft, mask, maskPos, fin, masked, opcode := 0, NO_MASK, 0, false, false, 1;
      new;
      StartOfFrames(Place());
    }

    /** The first two bytes and the longer length, if there is one. */
    method ReadLength() returns (ok: bool)
      requires |input.rest| >= 2 ==> input.rest[1] % 128 != 127
      modifies this`fin, this`masked, this`opcode, this`dataLeft, input
      ensures var w := old(input.rest);
        if |w| < 2 then !ok && input.rest == [] && dataLeft == old(dataLeft)
        else if w[1] % 128 == 126 && |w| < 4 then !ok && input.rest == [] && dataLeft == 126
        else
          && ok && fin == (w[0] >= 128) && masked == (w[1] >= 128) && opcode == w[0] % 16
          && input.rest == w[if w[1] % 128 == 126 then 4 else 2..]
          && dataLeft == if w[1] % 128 == 126 then w[2] as nat * 256 + w[3] else w[1] % 128
    {
      ghost var w := input.rest;
      var tmp := input.TakeWhole(2);
      if |tmp| != 2 {
        return false;
      }
      fin, masked := tmp[0] >= 128, tmp[1] >= 128;
      opcode := tmp[0] % 16;
      dataLeft := tmp[1] % 128;
      if dataLeft == 126 {
        tmp := input.TakeWhole(2);
        if |tmp| != 2 {
          return false;
        }
        dataLeft := tmp[0] as nat * 256 + tmp[1];
      }
      ok := true;
    }

    /** The key, if the frame is masked; its counter starts again. */
    method ReadMask() returns (ok: bool)
      modifies this`mask, this`maskPos, input
      ensures var w := old(input.rest);
        if !masked then ok && input.rest == w && mask == old(mask) && maskPos == old(maskPos)
        else if |w| < 4 then !ok && input.rest == [] && mask == old(mask) && maskPos == old(maskPos)
        else ok && mask == w[..4] && maskPos == 0 && input.rest == w[4..]
    {
      if masked {
        var tmp := input.TakeWhole(4);
        if |tmp| != 4 {
          return false;
        }
        mask := tmp;
        maskPos := 0;
      }
      ok := true;
    }

    /** The header proper: flags, opcode, length and key. */
    method ReadFields() returns (ok: bool)
      requires Valid() && dataLeft == 0
      modifies this, input
      ensures Valid()
      ensures ok <==> HeaderOf(old(input.rest)).Some?
      ensures ok ==> var h := HeaderOf(old(input.rest)).value;
        && fin == h.fin && opcode == h.opcode && dataLeft == h.length < 65536
        && input.rest == old(input.rest)[h.size..] && Behind(old(Place()), h, Place())
      ensures !ok ==> old(Rest()) == [] && Rest() == [] && old(EndsAtHeader())
      ensures !ok ==> input.rest == [] && dataLeft == LeftBy(old(input.rest))
    {
      hide HeaderOf, Good, RestOf, EndsAt, Behind;
      ghost var p, w := Place(), input.rest;
      HeaderAt(p);
      ok := ReadLength();
      if !ok {
        NoHeader(p);
        NothingComes(Place());
        return;
      }
      ok := ReadMask();
      if !ok {
        NoHeader(p);
        NothingComes(Place());
        return;
      }
      HeaderTaken(p, Place());
    }

    /**
     `onion_websocket_read_packet_header`: a ping is answered with what one read gives of its
     payload.  To answer an empty one the next header is read, and its opcode is sent.
     */
    method ReadHeader() returns (ok: bool, ghost x: Byte, ghost y: Byte)
      requires Valid() && dataLeft == 0
      modifies this, input, output
      ensures Valid()
      ensures ok <==> HeaderOf(old(input.rest)).Some?
      ensures ok ==> |input.rest| < old(|input.rest|)
      ensures ok ==> Rest() == old(Rest()) && (EndsAtHeader() <==> old(EndsAtHeader()))
      ensures ok ==> var w, h := old(input.rest), HeaderOf(old(input.rest)).value;
        if h.opcode != OPCODE_PING then
          && fin == h.fin && opcode == h.opcode && dataLeft == h.length && input.rest == w[h.size..]
          && output.wire == old(output.wire) && output.calls == old(output.calls)
        else if h.length > 0 then
          && h.length < 65536 && opcode == OPCODE_PONG
          && output.wire == old(output.wire) +
             Taken(Pieces(OPCODE_PONG, AnswerTo(h, w, input.cuts), x, y), output.room, old(output.calls))
        else
          var next := HeaderOf(w[h.size..]);
          next.Some? && next.value.opcode != OPCODE_PING ==>
            && opcode == next.value.opcode
            && output.wire == old(output.wire) + Taken(Pieces(opcode, [], x, y), output.room, old(output.calls))
      ensures !ok ==> old(Rest()) == [] && Rest() == [] && old(EndsAtHeader())
      ensures !ok ==> input.rest == [] && dataLeft == LeftBy(old(input.rest))
      ensures !ok ==> output.wire == old(output.wire) && output.calls == old(output.calls)
      decreases |input.rest|, 0
    {
      hide HeaderOf, Good, RestOf, EndsAt, Behind, AnswerTo, HeaderSent, Pieces, Taken, LeftBy;
      ghost var p := Place();
      x, y := 0, 0;
      ok := ReadFields();
      if ok {
        ghost var q := Place();
        if opcode == OPCODE_PING {
          opcode := OPCODE_PONG;
          var data := new Byte[dataLeft];
          var r;
          ghost var k;
          r, k := Read(data, 0, dataLeft);
          PingRead(p, q, Place(), data[..k], r);
          if r >= 0 {
            var w;
            w, x, y := Write(output, opcode, data[..r]);
          } else {
            ghost var junk := WriteUnset(output, opcode);
          }
        } else {
          NoPing(p, q);
        }
      }
    }

    /** The unmasking loop, over the first `r` bytes at `off`. */
    method UnmaskBuffer(buffer: array<Byte>, off: nat, r: nat)
      requires off + r <= buffer.Length && |mask| == 4 && -128 <= maskPos < 128
      modifies this`maskPos, buffer
      ensures -128 <= maskPos < 128
      ensures buffer[off..off + r] == old(Plain(masked, buffer[off..off + r], mask, maskPos % 4))
      ensures masked ==> maskPos % 4 == (old(maskPos) + r) % 4
      ensures forall j :: 0 <= j < off || off + r <= j < buffer.Length ==> buffer[j] == old(buffer[j])
    {
      hide Xor, Int8;
      if masked {
        ghost var before, phase: nat := buffer[off..off + r], maskPos % 4;
        assert maskPos % 4 == (phase + 0) % 4;
        for i := 0 to r
          invariant -128 <= maskPos < 128 && maskPos % 4 == (phase + i) % 4
          invariant forall j :: 0 <= j < i ==> buffer[off + j] == Xor(before[j], mask[(phase + j) % 4])
          invariant forall j :: 0 <= j < off || off + i <= j < buffer.Length ==> buffer[j] == old(buffer[j])
        {
          buffer[off + i] := Xor(buffer[off + i], mask[maskPos % 4]);
          CounterStep(maskPos, phase, i);
          maskPos := Int8(maskPos + 1);
        }
        CounterIs(old(maskPos), r);
      }
    }

    /** One read of the current frame's bytes, unmasked where they land. */
    method ReadPart(buffer: array<Byte>, off: nat, len: nat) returns (r: nat)
      requires Valid() && len <= dataLeft && off + len <= buffer.Length
      modifies this`maskPos, this`dataLeft, input, buffer
      ensures Valid() && r <= len && dataLeft == old(dataLeft) - r && |input.rest| == old(|input.rest|) - r
      ensures r == Takes(len, old(input.rest), input.cuts)
      ensures old(Rest()) == buffer[off..off + r] + Rest()
      ensures EndsAtHeader() <==> old(EndsAtHeader())
      ensures len > 0 && old(Rest()) != [] ==> r > 0
      ensures EndsAtHeader() && dataLeft > 0 ==> Rest() != []
      ensures forall j :: 0 <= j < off || off + len <= j < buffer.Length ==> buffer[j] == old(buffer[j])
    {
      hide Good, RestOf, EndsAt, Plain;
      ghost var p := Place();
      var s := input.Take(len);
      r := |s|;
      forall j | 0 <= j < r {
        buffer[off + j] := s[j];
      }
      assert buffer[off..off + r] == s;
      UnmaskBuffer(buffer, off, r);
      dataLeft := dataLeft - r;
      PhaseMoves(old(maskPos), maskPos, r);
      PartTaken(p, Place(), s);
      NothingComes(p);
      SomethingLeft(Place());
    }

    /**
     `onion_websocket_read`: `k` payload bytes land in the buffer, across frames and short
     reads.  The answer is that number, or one less exactly if a header was asked for that the
     input does not hold: all its frames are whole and delivered, and the buffer has room for
     more (or has none, and the call started where a header is missing).
     */
    method Read(buffer: array<Byte>, off: nat, len: nat) returns (r: int, ghost k: nat)
      requires Valid() && off + len <= buffer.Length
      modifies this, input, output, buffer
      ensures Valid() && k <= len && old(Rest()) == buffer[off..off + k] + Rest()
      ensures r == k || r == k - 1
      ensures r == k - 1 <==>
        && old(EndsAtHeader()) && Rest() == []
        && (k < len || (len == 0 && old(dataLeft) == 0 && HeaderOf(old(input.rest)).None?))
      ensures len > 0 && old(Rest()) != [] ==> k > 0
      ensures 0 < len <= old(dataLeft) ==> r == k == Takes(len, old(input.rest), input.cuts)
      ensures |input.rest| <= old(|input.rest|)
      ensures r == k ==> (EndsAtHeader() <==> old(EndsAtHeader()))
      ensures r == k - 1 ==> input.rest == [] && (len == 0 ==> dataLeft == LeftBy(old(input.rest)))
      ensures 0 < len <= old(dataLeft) || (len == 0 && old(dataLeft) == 0 && !PingAhead(old(input.rest))) ==>
        output.wire == old(output.wire) && output.calls == old(output.calls)
      ensures 0 < len <= old(dataLeft) ==> opcode == old(opcode)
      ensures len == 0 && old(dataLeft) == 0 && !PingAhead(old(input.rest)) && HeaderOf(old(input.rest)).Some? ==>
        opcode == HeaderOf(old(input.rest)).value.opcode
      ensures forall j :: 0 <= j < off || off + len <= j < buffer.Length ==> buffer[j] == old(buffer[j])
      decreases |input.rest|, 1
    {
      hide Reader.Valid, Reader.Rest, Reader.EndsAtHeader, Reader.Place, HeaderOf, LeftBy, Takes;
      if dataLeft == 0 {
        var ok;
        ghost var x, y;
        ok, x, y := ReadHeader();
        if !ok {
          assert buffer[off..off] + Rest() == Rest();
          return -1, 0;
        }
      }
      var leftLen, n := 0, len;
      if len > dataLeft {
        leftLen := len - dataLeft;
        n := dataLeft;
      }
      var got := ReadPart(buffer, off, n);
      r, k := got, got;
      if leftLen > 0 && got == n {
        ghost var part := buffer[off..off + n];
        var more;
        ghost var k2;
        more, k2 := Read(buffer, off + n, leftLen);
        assert buffer[off..off + n] == part;
        Landed(buffer[..], off, n, k2, part, Rest());
        r, k := got + more, n + k2;
      }
    }
  }

  /** Having taken the bytes `s` of the current frame. */
  lemma PartTaken(p: Place, q: Place, s: seq<Byte>)
    requires Good(p) && p.rest == s + q.rest && |s| <= p.left && q.left == p.left - |s|
    requires q.cuts == p.cuts && q.masked == p.masked && q.mask == p.mask
    requires p.masked ==> q.phase == (p.phase + |s|) % 4
    ensures Good(q) && RestOf(p) == Plain(p.masked, s, p.mask, p.phase) + RestOf(q)
    ensures EndsAt(q) <==> EndsAt(p)
  {
    hide Stream, Plain, Readable, WholeFrames;
    var w, v, r, m := p.rest, q.rest, |s|, Ahead(p.left, p.rest);
    TwoPieces(w, s, v, m);
    if p.left <= |w| { TwoPieces(w, s, v, p.left); }
    PlainSplits(p.masked, w[..m], p.mask, p.phase, r);
    UnmaskedAlike(p.masked, v[..m - r], p.mask, q.phase, (p.phase + r) % 4);
  }

  lemma TwoPieces(w: seq<Byte>, s: seq<Byte>, v: seq<Byte>, m: nat)
    requires w == s + v && |s| <= m <= |w|
    ensures w[..m][..|s|] == s && w[..m][|s|..] == v[..m - |s|] && w[m..] == v[m - |s|..]
  {
  }

  lemma UnmaskedAlike(masked: bool, s: seq<Byte>, mask: seq<Byte>, a: nat, b: nat)
    requires |mask| == 4 && (masked ==> a == b)
    ensures Plain(masked, s, mask, a) == Plain(masked, s, mask, b)
  {
  }

  lemma PhaseMoves(pos0: int, pos: int, r: nat)
    ensures pos % 4 == (pos0 + r) % 4 ==> pos % 4 == (pos0 % 4 + r) % 4
  {
    CounterIs(pos0, r);
  }

  /** A frame with bytes left in the input has something to deliver. */
  lemma SomethingLeft(p: Place)
    requires Good(p)
    ensures EndsAt(p) && p.left > 0 ==> RestOf(p) != []
  {
    hide Stream, Plain, Readable, WholeFrames;
  }

  lemma Landed(b: seq<Byte>, off: nat, n: nat, k: nat, part: seq<Byte>, rest: seq<Byte>)
    requires off + n + k <= |b| && b[off..off + n] == part
    ensures part + (b[off + n..off + n + k] + rest) == b[off..off + n + k] + rest
  {
    assert b[off..off + n + k] == part + b[off + n..off + n + k];
  }

  lemma CounterStep(pos: int, phase: nat, i: nat)
    requires pos % 4 == (phase + i) % 4
    ensures Int8(pos + 1) % 4 == (phase + i + 1) % 4
  {
    hide Int8;
    WrapKeepsPhase(pos + 1);
    NextPhase(pos, phase + i);
  }

  lemma NextPhase(a: int, b: int)
    requires a % 4 == b % 4
    ensures (a + 1) % 4 == (b + 1) % 4
  {
    AddFours(b + 1, a / 4 - b / 4);
  }

  lemma CounterIs(pos: int, r: nat)
    ensures (pos % 4 + r) % 4 == (pos + r) % 4
  {
    AddFours(pos % 4 + r, pos / 4);
  }

  /** The header's fields where the reader takes them from. */
  lemma HeaderAt(p: Place)
    requires Good(p) && p.left == 0
    ensures var w := p.rest; |w| >= 2 ==> w[1] % 128 != 127
    ensures FieldsAre(p.rest)
  {
    hide HeaderOf;
    assert p.rest[0..] == p.rest;
    ShortHeader(p.rest);
  }

  ghost predicate FieldsAre(w: seq<Byte>) {
    && (|w| < 2 ==> HeaderOf(w) == None)
    && (|w| >= 2 ==>
      var e := if w[1] % 128 == 126 then 4 else 2;
      var size := if w[1] >= 128 then e + 4 else e;
      if |w| < size then HeaderOf(w) == None
      else
        && HeaderOf(w).Some?
        && var h := HeaderOf(w).value;
        && h.fin == (w[0] >= 128) && h.opcode == w[0] % 16 && h.masked == (w[1] >= 128) && h.size == size
        && h.length == (if e == 4 then w[2] as nat * 256 + w[3] else w[1] % 128)
        && (h.masked ==> h.mask == w[e..][..4]) && w[h.size..] == (if h.masked then w[e..][4..] else w[e..]))
  }

  lemma ShortHeader(w: seq<Byte>)
    requires |w| >= 2 ==> w[1] % 128 != 127
    ensures FieldsAre(w)
  {
    if |w| >= 2 {
      HeaderParts(w);
    }
  }

  lemma HeaderParts(w: seq<Byte>)
    requires |w| >= 2 ==> w[1] % 128 != 127
    ensures |w| < 2 ==> HeaderOf(w) == None
    ensures |w| >= 2 ==>
      var e := if w[1] % 128 == 126 then 4 else 2;
      var size := if w[1] >= 128 then e + 4 else e;
      if |w| < size then HeaderOf(w) == None
      else
        && HeaderOf(w).Some?
        && var h := HeaderOf(w).value;
        && h.fin == (w[0] >= 128) && h.opcode == w[0] % 16 && h.masked == (w[1] >= 128) && h.size == size
        && h.length == (if e == 4 then w[2] as nat * 256 + w[3] else w[1] % 128)
        && (h.masked ==> h.mask == w[e..e + 4])
  {
    hide Number;
    if |w| >= 4 {
      TwoBytesAre(w[2..4]);
    }
  }

  lemma TwoBytesAre(s: seq<Byte>)
    requires |s| == 2
    ensures Number(s) == s[0] as nat * 256 + s[1]
  {
    assert s[..1][..0] == [] && Number(s[..1]) == s[0];
  }

  lemma PlainNothing(masked: bool, mask: seq<Byte>, phase: nat)
    requires |mask| == 4
    ensures Plain(masked, [], mask, phase) == []
  {
  }

  /** Nothing of a frame has been read. */
  lemma StartOfFrames(p: Place)
    requires |p.mask| == 4 && p.left == 0
    ensures Good(p) <==> Readable(p.rest)
    ensures RestOf(p) == Stream(p.rest, p.cuts) && (EndsAt(p) <==> WholeFrames(p.rest))
  {
    assert p.rest[0..] == p.rest && p.rest[..0] == [];
    PlainNothing(p.masked, p.mask, p.phase);
    hide Plain, Stream, Readable, WholeFrames;
  }

  lemma NoHeader(p: Place)
    requires Good(p) && p.left == 0 && HeaderOf(p.rest).None?
    ensures RestOf(p) == [] && EndsAt(p)
  {
    StartOfFrames(p);
  }

  lemma NothingComes(p: Place)
    requires |p.mask| == 4
    ensures p.rest == [] ==> Good(p) && RestOf(p) == []
  {
    if p.rest == [] {
      StreamOfNothing(p.cuts);
      PlainNothing(p.masked, p.mask, p.phase);
    }
  }

  /** What a ping is answered with. */
  function AnswerTo(h: Header, w: seq<Byte>, cuts: nat -> nat): (a: seq<Byte>)
    requires h.size <= |w| && |h.mask| == 4
    ensures |a| == Swallowed(h, w, cuts)
  {
    Plain(h.masked, w[h.size..h.size + Swallowed(h, w, cuts)], h.mask, 0)
  }

  predicate PingAhead(w: seq<Byte>) {
    HeaderOf(w).Some? && HeaderOf(w).value.opcode == OPCODE_PING
  }

  /** Behind the header `h` of `p`: what is to come is what is to be answered, and the rest. */
  ghost predicate Behind(p: Place, h: Header, q: Place) {
    && |p.mask| == 4 && |q.mask| == 4 && |h.mask| == 4 && h.size <= |p.rest|
    && q.left == h.length && q.rest == p.rest[h.size..] && q.cuts == p.cuts
    && RestOf(q) == AnswerTo(h, p.rest, p.cuts) + RestOf(p)
    && (EndsAt(p) <==> EndsAt(q) && (EmptyPing(h) && HeaderOf(q.rest).None? ==> LeftBy(q.rest) == 0))
  }

  /** A whole header taken off the input leaves its payload at the front. */
  lemma HeaderTaken(p: Place, q: Place)
    requires Good(p) && p.left == 0 && |q.mask| == 4 && HeaderOf(p.rest).Some?
    requires var h := HeaderOf(p.rest).value;
      && q.left == h.length && q.rest == p.rest[h.size..] && q.cuts == p.cuts
      && q.masked == h.masked && (h.masked ==> q.mask == h.mask && q.phase == 0)
    ensures Good(q) && Behind(p, HeaderOf(p.rest).value, q)
  {
    hide HeaderOf, RestOf, EndsAt, Swallowed, LeftBy, AnswerTo, Readable, WholeFrames;
    HeaderAt(p);
    var w, h := p.rest, HeaderOf(p.rest).value;
    StartOfFrames(p);
    FirstReadable(w);
    WholeBehindHeader(w);
    BehindHeader(w, h.size, End(h, w));
    EndsBehind(p, q, h);
    RestBehind(p, q, h);
  }

  lemma EndsBehind(p: Place, q: Place, h: Header)
    requires h.size <= |p.rest| && q.left == h.length && q.rest == p.rest[h.size..]
    ensures EndsAt(q) <==> h.length <= |q.rest| && WholeFrames(q.rest[h.length..])
  {
    hide WholeFrames;
  }

  lemma RestBehind(p: Place, q: Place, h: Header)
    requires |p.mask| == 4 && |q.mask| == 4 && HeaderOf(p.rest) == Some(h) && RestOf(p) == Stream(p.rest, p.cuts)
    requires q.left == h.length && q.rest == p.rest[h.size..] && q.cuts == p.cuts
    requires q.masked == h.masked && (h.masked ==> q.mask == h.mask && q.phase == 0)
    ensures RestOf(q) == AnswerTo(h, p.rest, p.cuts) + RestOf(p)
  {
    hide HeaderOf, Stream, Plain, Swallowed, AnswerTo, RestOf;
    var s := p.rest[h.size..End(h, p.rest)];
    BehindHeader(p.rest, h.size, End(h, p.rest));
    RestIs(q, s, p.rest[End(h, p.rest)..]);
    StreamSplits(p.rest, p.cuts);
    if !h.masked {
      Unmasked(s, h.mask, q.mask, q.phase);
    }
  }

  lemma RestIs(q: Place, s: seq<Byte>, t: seq<Byte>)
    requires |q.mask| == 4 && q.rest[..Ahead(q.left, q.rest)] == s && q.rest[Ahead(q.left, q.rest)..] == t
    ensures RestOf(q) == Plain(q.masked, s, q.mask, q.phase) + Stream(t, q.cuts)
  {
    hide Plain, Stream;
  }

  lemma Unmasked(s: seq<Byte>, mask: seq<Byte>, other: seq<Byte>, phase: nat)
    requires |mask| == 4 && |other| == 4
    ensures Plain(false, s, mask, 0) == Plain(false, s, other, phase) == s
  {
  }

  lemma FirstReadable(w: seq<Byte>)
    requires HeaderOf(w).Some? && w[1] % 128 != 127
    ensures Readable(w) <==> Readable(w[End(HeaderOf(w).value, w)..])
  {
    hide HeaderOf, End;
  }

  lemma FirstStreams(w: seq<Byte>, cuts: nat -> nat)
    requires HeaderOf(w).Some?
    ensures var h := HeaderOf(w).value;
      var m := Swallowed(h, w, cuts);
      Stream(w, cuts) == Plain(h.masked, w[h.size + m..End(h, w)], h.mask, m % 4) + Stream(w[End(h, w)..], cuts)
  {
    hide HeaderOf, Plain, Swallowed, End;
  }

  /** The payload of a first frame is what is to be answered and what streams. */
  lemma StreamSplits(w: seq<Byte>, cuts: nat -> nat)
    requires HeaderOf(w).Some?
    ensures var h := HeaderOf(w).value;
      Plain(h.masked, w[h.size..End(h, w)], h.mask, 0) + Stream(w[End(h, w)..], cuts) ==
      AnswerTo(h, w, cuts) + Stream(w, cuts)
  {
    hide HeaderOf, Plain, Swallowed, End, Stream;
    FirstStreams(w, cuts);
    var h := HeaderOf(w).value;
    PayloadSplits(h.masked, w, h.size, Swallowed(h, w, cuts), End(h, w), h.mask, Stream(w[End(h, w)..], cuts));
  }

  lemma PayloadSplits(masked: bool, w: seq<Byte>, a: nat, m: nat, e: nat, mask: seq<Byte>, s: seq<Byte>)
    requires a + m <= e <= |w| && |mask| == 4
    ensures Plain(masked, w[a..e], mask, 0) + s ==
            Plain(masked, w[a..a + m], mask, 0) + (Plain(masked, w[a + m..e], mask, m % 4) + s)
  {
    hide Plain;
    assert w[a..e][..m] == w[a..a + m] && w[a..e][m..] == w[a + m..e];
    PlainSplits(masked, w[a..e], mask, 0, m);
    Regrouped(Plain(masked, w[a..e], mask, 0), Plain(masked, w[a..a + m], mask, 0),
              Plain(masked, w[a + m..e], mask, m % 4), s);
  }

  lemma Regrouped(p: seq<Byte>, a: seq<Byte>, b: seq<Byte>, s: seq<Byte>)
    requires p == a + b
    ensures p + s == a + (b + s)
  {
  }

  lemma NoPing(p: Place, q: Place)
    requires HeaderOf(p.rest).Some? && Behind(p, HeaderOf(p.rest).value, q) && !PingAhead(p.rest)
    ensures RestOf(q) == RestOf(p) && (EndsAt(q) <==> EndsAt(p))
  {
    hide RestOf, EndsAt, HeaderOf, LeftBy;
  }

  /** Behind a ping's header at `q`, and at `t` once `a` has been read of it, with the answer `r`. */
  lemma PingRead(p: Place, q: Place, t: Place, a: seq<Byte>, r: int)
    requires PingAhead(p.rest) && Behind(p, HeaderOf(p.rest).value, q) && Good(q)
    requires |t.mask| == 4 && RestOf(q) == a + RestOf(t) && |a| <= q.left
    requires q.left > 0 ==> r == |a| == Takes(q.left, q.rest, q.cuts)
    requires r == |a| || r == |a| - 1
    requires q.left == 0 ==> (r == -1 <==> EndsAt(q) && RestOf(t) == [] && HeaderOf(q.rest).None?)
    requires r == |a| ==> (EndsAt(t) <==> EndsAt(q))
    requires r == |a| - 1 ==> t.rest == [] && t.left == LeftBy(q.rest)
    ensures RestOf(t) == RestOf(p) && (EndsAt(t) <==> EndsAt(p))
    ensures a == AnswerTo(HeaderOf(p.rest).value, p.rest, p.cuts)
  {
    var b := AnswerTo(HeaderOf(p.rest).value, p.rest, p.cuts);
    hide RestOf, HeaderOf, LeftBy, AnswerTo, Takes;
    assert a + RestOf(t) == b + RestOf(p) && |a| == |b|;
    assert a == (a + RestOf(t))[..|a|] && RestOf(t) == (a + RestOf(t))[|a|..];
    assert b == (b + RestOf(p))[..|b|] && RestOf(p) == (b + RestOf(p))[|b|..];
    if q.left == 0 && HeaderOf(q.rest).None? {
      NoHeader(q);
      EndsWithInput(t);
    }
  }

  lemma EndsWithInput(t: Place)
    requires t.rest == []
    ensures EndsAt(t) <==> t.left == 0
  {
    WholeBehindHeader([]);
  }

  lemma BehindHeader(w: seq<Byte>, a: nat, e: nat)
    requires a <= e <= |w|
    ensures w[a..][..e - a] == w[a..e] && w[a..][e - a..] == w[e..]
  {
  }

  /** One frame of one byte, read into room for two: the byte is delivered and the answer is 0. */
  method AskingForMore(cuts: nat -> nat, output: Output) returns (r: int, ghost k: nat)
    modifies output
    ensures k == 1 && r == 0
  {
    hide HeaderOf, Good, RestOf, Stream, Readable, WholeFrames;
    var w: seq<Byte> := [130, 1, 7];
    OneByteFrame(w, cuts);
    var input := new Input(w, cuts);
    var reader := new Reader(input, output);
    assert w[0..] == w;
    var buffer := new Byte[2];
    r, k := reader.Read(buffer, 0, 2);
  }

  lemma OneByteFrame(w: seq<Byte>, cuts: nat -> nat)
    requires w == [130, 1, 7]
    ensures Readable(w) && Stream(w, cuts) == [7] && WholeFrames(w)
  {
    hide HeaderOf, Stream, Readable, WholeFrames, Plain;
    OneByteHeader(w);
    FirstStreams(w, cuts);
    FirstReadable(w);
    StreamOfNothing(cuts);
    WholeBehindHeader(w);
    WholeBehindHeader([]);
    assert w[3..] == [] && w[2..3] == [7] && w[2..][1..] == [];
    Unmasked([7], NO_MASK, NO_MASK, 0);
  }

  lemma OneByteHeader(w: seq<Byte>)
    requires w == [130, 1, 7]
    ensures HeaderOf(w) == Some(Header(true, 2, 1, false, NO_MASK, 1, 2)) && HeaderOf([]).None?
  {
  }

  /** Reads into buffers of any sizes: nothing is lost, repeated or reordered. */
  method ReadMany(reader: Reader, sizes: seq<nat>) returns (ghost data: seq<Byte>)
    requires reader.Valid()
    modifies reader, reader.input, reader.output
    ensures reader.Valid() && old(reader.Rest()) == data + reader.Rest()
    ensures (forall i :: 0 <= i < |sizes| ==> sizes[i] > 0) && |sizes| >= |old(reader.Rest())| ==>
      data == old(reader.Rest())
  {
    hide Reader.Valid, Reader.Rest;
    ghost var all := reader.Rest();
    data := [];
    assert all == data + reader.Rest();
    for i := 0 to |sizes|
      invariant reader.Valid() && all == data + reader.Rest()
      invariant (forall j :: 0 <= j < |sizes| ==> sizes[j] > 0) ==>
              |reader.Rest()| <= (if i <= |all| then |all| - i else 0)
    {
      var buffer := new Byte[sizes[i]];
      var r;
      ghost var k;
      r, k := reader.Read(buffer, 0, sizes[i]);
      assert data + (buffer[0..k] + reader.Rest()) == data + buffer[0..k] + reader.Rest();
      data := data + buffer[0..k];
    }
    if (forall j :: 0 <= j < |sizes| ==> sizes[j] > 0) && |sizes| >= |all| {
      assert reader.Rest() == [] && data + [] == data;
    }
  }

  /** What a client sends, section 5.2: masked, with a length of 7 or 16 bits. */
  function ClientFrame(opcode: nat, data: seq<Byte>, mask: seq<Byte>): seq<Byte>
    requires |mask| == 4 && |data| < 65536
  {
    [128 + opcode % 16] + (if |data| < 126 then [128 + |data|] else [254, |data| / 256, |data| % 256]) +
    mask + Unmask(data, mask, 0)
  }

  lemma ClientHeader(opcode: nat, data: seq<Byte>, mask: seq<Byte>, rest: seq<Byte>)
    requires |mask| == 4 && |data| < 65536 && opcode < 16
    ensures var w := ClientFrame(opcode, data, mask) + rest;
      && |w| >= 2 && w[1] % 128 != 127 && HeaderOf(w).Some?
      && var h := HeaderOf(w).value;
      && h.opcode == opcode && h.masked && h.mask == mask && h.length == |data|
      && w[h.size..] == Unmask(data, mask, 0) + rest
  {
    hide Unmask;
    var u := Unmask(data, mask, 0);
    var head: seq<Byte> := [128 + opcode % 16] + if |data| < 126 then [128 + |data|]
      else [254, |data| / 256, |data| % 256];
    var w := ClientFrame(opcode, data, mask) + rest;
    assert w == head + (mask + (u + rest));
    var e := |head|;
    assert w[0] == head[0] && w[1] == head[1] && (e == 4 ==> w[2] == head[2] && w[3] == head[3]);
    BehindPieces(head, mask, u + rest);
    HeaderParts(w);
  }

  lemma BehindPieces(a: seq<Byte>, b: seq<Byte>, c: seq<Byte>)
    ensures var w := a + (b + c); w[|a|..|a| + |b|] == b && w[|a| + |b|..] == c
  {
  }

  lemma Cancelled(a: seq<Byte>, x: seq<Byte>, d: seq<Byte>, y: seq<Byte>)
    requires a + x == d + y && |a| <= |d|
    ensures x == d[|a|..] + y
  {
    assert x == (a + x)[|a|..];
  }

  /**
   The reader takes a client's frame for its payload, and goes on behind it.  Of a ping it takes
   what the first read of it does not give: nothing, if it gives all.
   */
  lemma ClientFrameStreams(opcode: nat, data: seq<Byte>, mask: seq<Byte>, rest: seq<Byte>, cuts: nat -> nat)
    requires |mask| == 4 && |data| < 65536 && opcode < 16 && Readable(rest)
    ensures var w := ClientFrame(opcode, data, mask) + rest;
      var m := if opcode == OPCODE_PING then Takes(|data|, Unmask(data, mask, 0) + rest, cuts) else 0;
      Readable(w) && m <= |data| && Stream(w, cuts) == data[m..] + Stream(rest, cuts)
  {
    ClientHeader(opcode, data, mask, rest);
    UnmaskTwice(data, mask, 0);
    hide HeaderOf, Unmask, ClientFrame, Takes, Stream, AnswerTo;
    var u, w := Unmask(data, mask, 0), ClientFrame(opcode, data, mask) + rest;
    var h := HeaderOf(w).value;
    BehindHeader(w, h.size, h.size + |data|);
    TwoPieces(w[h.size..], u, rest, |data|);
    assert u[..|data|] == u && rest[0..] == rest;
    StreamSplits(w, cuts);
    Cancelled(AnswerTo(h, w, cuts), Stream(w, cuts), data, Stream(rest, cuts));
  }

  /** A frame as a client means it. */
  datatype Sent = Sent(opcode: nat, data: seq<Byte>, mask: seq<Byte>)

  /** Short enough for a 16-bit length. */
  predicate Plain16(f: Sent) {
    f.opcode < 16 && |f.data| < 65536 && |f.mask| == 4
  }

  function Conversation(frames: seq<Sent>): seq<Byte>
    requires forall i :: 0 <= i < |frames| ==> Plain16(frames[i])
  {
    if frames == [] then []
    else
      assert Plain16(frames[0]);
      ClientFrame(frames[0].opcode, frames[0].data, frames[0].mask) + Conversation(frames[1..])
  }

  /** The payloads of all the frames but pings. */
  function Payloads(frames: seq<Sent>): seq<Byte> {
    if frames == [] then []
    else (if frames[0].opcode == OPCODE_PING then [] else frames[0].data) + Payloads(frames[1..])
  }

  /** One read is enough for the payload of any of the pings. */
  ghost predicate PingsComeWhole(frames: seq<Sent>, cuts: nat -> nat) {
    forall i, n :: 0 <= i < |frames| && frames[i].opcode == OPCODE_PING ==> |frames[i].data| <= cuts(n) + 1
  }

  /**
   So a conversation of frames, whatever their opcodes, arrives as its payloads, joined, and
   the pings in it leave no trace.
   */
  lemma {:induction false} ConversationStreams(frames: seq<Sent>, cuts: nat -> nat)
    requires forall i :: 0 <= i < |frames| ==> Plain16(frames[i])
    requires PingsComeWhole(frames, cuts)
    ensures Readable(Conversation(frames)) && Stream(Conversation(frames), cuts) == Payloads(frames)
  {
    hide Readable, Stream, ClientFrame;
    if frames == [] {
      StreamOfNothing(cuts);
    } else {
      var f := frames[0];
      ConversationStreams(frames[1..], cuts);
      ClientFrameStreams(f.opcode, f.data, f.mask, Conversation(frames[1..]), cuts);
      if f.opcode == OPCODE_PING {
        assert |f.data| <= cuts(|Unmask(f.data, f.mask, 0) + Conversation(frames[1..])|) + 1;
      }
    }
  }

  /** A frame the writer sends whole is read back by this reader too. */
  lemma WrittenIsStreamed(opcode: nat, data: seq<Byte>, x: Byte, y: Byte, rest: seq<Byte>, cuts: nat -> nat)
    requires opcode < 16 && opcode != OPCODE_PING && Readable(rest)
    requires |data| < 65535 && (data == [] || |data| % 1024 != 0)
    ensures var w := HeaderSent(opcode, |data|, x, y) + PayloadSent(data) + rest;
      Readable(w) && Stream(w, cuts) == data + Stream(rest, cuts)
  {
    hide HeaderOf, HeaderSent, PayloadSent, Stream, Readable, Plain;
    var s := HeaderSent(opcode, |data|, x, y);
    var w := s + PayloadSent(data) + rest;
    SentWhole(data);
    JoinedEitherWay(s, data, rest);
    HeaderBack(opcode, |data|, x, y, data + rest);
    ShortMarker(opcode, |data|, x, y, w);
    BehindPieces(s, data, rest);
    FirstStreams(w, cuts);
    FirstReadable(w);
    Unmasked(data, NO_MASK, NO_MASK, 0);
  }

  lemma SentWhole(data: seq<Byte>)
    requires data == [] || |data| % 1024 != 0
    ensures PayloadSent(data) == data
  {
  }

  lemma JoinedEitherWay(a: seq<Byte>, b: seq<Byte>, c: seq<Byte>)
    ensures a + b + c == a + (b + c) && a <= a + b + c
  {
  }

  lemma ShortMarker(opcode: nat, n: nat, x: Byte, y: Byte, w: seq<Byte>)
    requires n < 65535 && HeaderSent(opcode, n, x, y) <= w
    ensures w[1] % 128 != 127
  {
    assert w[1] == HeaderSent(opcode, n, x, y)[1];
  }
}
