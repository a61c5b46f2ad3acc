/** Chunked transfer coding, section 4.1 of RFC 7230: what the response writer emits and what a client makes of it. */
module Chunked {
  import opened Wrappers
  import opened CText

  const CRLF: string := "\r\n"

  /** The last chunk and the empty trailer. */
  const LAST: string := "0\r\n\r\n"

  /** `%X` */
  function Hex(n: nat): (s: string)
    ensures s != []
  {
    if n < 16 then [HexDigit(n)] else Hex(n / 16) + [HexDigit(n % 16)]
  }

  function Frame(d: string): string {
    Hex(|d|) + CRLF + d + CRLF
  }

  function Frames(chunks: seq<string>): string {
    if chunks == [] then [] else Frames(chunks[..|chunks| - 1]) + Frame(chunks[|chunks| - 1])
  }

  // ------------------------------------------------------------------ the receiving side

  datatype Sized = NoSize | Sized(size: nat, rest: string)

  /** chunk-size CRLF, with no chunk extension */
  function ReadSize(w: string, acc: nat): (r: Sized)
    ensures r.Sized? ==> |r.rest| < |w|
  {
    if w != [] && HexValue(w[0]).Some? then ReadSize(w[1..], acc * 16 + HexValue(w[0]).value)
    else if |w| >= 2 && w[..2] == CRLF then Sized(acc, w[2..])
    else NoSize
  }

  datatype Decoded = Malformed | Decoded(body: string, rest: string)

  function Dechunk(w: string): Decoded
    decreases |w|
  {
    var s := ReadSize(w, 0);
    if w == [] || HexValue(w[0]).None? || s.NoSize? then Malformed
    else if s.size == 0 then
      if |s.rest| >= 2 && s.rest[..2] == CRLF then Decoded([], s.rest[2..]) else Malformed
    else if s.size + 2 <= |s.rest| && s.rest[s.size..s.size + 2] == CRLF then
      var d := Dechunk(s.rest[s.size + 2..]);
      if d.Decoded? then Decoded(s.rest[..s.size] + d.body, d.rest) else Malformed
    else Malformed
  }

  lemma ReadDigit(d: nat, t: string, acc: nat)
    requires d < 16
    ensures ReadSize([HexDigit(d)] + t, acc) == ReadSize(t, acc * 16 + d)
  {
    DigitBack(d);
    hide HexDigit, HexValue;
    assert ([HexDigit(d)] + t)[1..] == t;
  }

  lemma {:induction false} HexRead(n: nat, t: string)
    ensures ReadSize(Hex(n) + t, 0) == ReadSize(t, n)
    ensures HexValue(Hex(n)[0]).Some?
  {
    hide HexDigit, HexValue, ReadSize;
    DigitBack(n % 16);
    ReadDigit(n % 16, t, n / 16);
    if n < 16 {
    } else {
      var h, d := Hex(n / 16), HexDigit(n % 16);
      HexRead(n / 16, [d] + t);
      assert h + [d] + t == h + ([d] + t);
    }
  }

  lemma SizeRead(n: nat, t: string)
    ensures ReadSize(Hex(n) + CRLF + t, 0) == Sized(n, t)
  {
    HexRead(n, CRLF + t);
    assert Hex(n) + CRLF + t == Hex(n) + (CRLF + t);
    assert (CRLF + t)[..2] == CRLF && (CRLF + t)[2..] == t;
  }

  lemma FrameRead(d: string, w: string)
    requires d != []
    ensures Dechunk(Frame(d) + w) ==
      if Dechunk(w).Decoded? then Decoded(d + Dechunk(w).body, Dechunk(w).rest) else Malformed
  {
    hide HexDigit, HexValue, Hex, ReadSize;
    var t := d + CRLF + w;
    HexRead(|d|, CRLF + t);
    SizeRead(|d|, t);
    assert Frame(d) + w == Hex(|d|) + CRLF + t;
    assert t[|d|..|d| + 2] == CRLF && t[|d| + 2..] == w && t[..|d|] == d;
    assert (Frame(d) + w)[0] == Hex(|d|)[0];
  }

  lemma LastRead(w: string)
    ensures Dechunk(LAST + w) == Decoded([], w)
  {
    assert Hex(0) == "0";
    SizeRead(0, CRLF + w);
    assert LAST + w == Hex(0) + CRLF + (CRLF + w);
    assert (CRLF + w)[..2] == CRLF && (CRLF + w)[2..] == w;
  }

  lemma {:induction false} FramesRead(chunks: seq<string>, w: string)
    requires forall i :: 0 <= i < |chunks| ==> chunks[i] != []
    requires Dechunk(w).Decoded?
    ensures Dechunk(Frames(chunks) + w) == Decoded(Concat(chunks) + Dechunk(w).body, Dechunk(w).rest)
    decreases |chunks|
  {
    hide Frame, Dechunk;
    if chunks == [] {
      assert Frames(chunks) + w == w && Concat(chunks) + Dechunk(w).body == Dechunk(w).body;
    } else {
      var n := |chunks| - 1;
      var c := chunks[n];
      assert Frames(chunks) + w == Frames(chunks[..n]) + (Frame(c) + w);
      FrameRead(c, w);
      FramesRead(chunks[..n], Frame(c) + w);
      ConcatLast(chunks[..n], c);
      assert chunks == chunks[..n] + [c];
    }
  }

  lemma {:induction false} ConcatLast(chunks: seq<string>, c: string)
    ensures Concat(chunks + [c]) == Concat(chunks) + c
  {
    if chunks == [] {
      assert ([] + [c])[1..] == [] && [c] == [] + [c];
    } else {
      ConcatLast(chunks[1..], c);
      assert (chunks + [c])[1..] == chunks[1..] + [c];
    }
  }

  /** De-chunking a whole chunked body gives back what was cut into chunks, and nothing of what follows. */
  lemma DechunkInverts(chunks: seq<string>, after: string)
    requires forall i :: 0 <= i < |chunks| ==> chunks[i] != []
    ensures Dechunk(Frames(chunks) + LAST + after) == Decoded(Concat(chunks), after)
  {
    LastRead(after);
    FramesRead(chunks, LAST + after);
    assert Frames(chunks) + LAST + after == Frames(chunks) + (LAST + after);
    assert Concat(chunks) + [] == Concat(chunks);
  }
}
