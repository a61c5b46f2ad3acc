/** The request bodies of a declared length in onion/request_parser.c. */
module Bodies {
  import opened Wrappers
  import opened CText

  /** What the rest of a body of `size` bytes takes from `data` when `pos` bytes of it have come. */
  function Taken(size: nat, pos: nat, data: string): (n: nat)
    ensures n <= |data|
  {
    if pos + |data| >= size && size >= pos then size - pos else |data|
  }

  // ------------------------------------------------------------------ PUT

  /** token->pos, token->extra_size and the bytes written to the temporary file */
  class PutBody {
    const size: nat
    var pos: nat
    var file: string

    ghost predicate Valid()
      reads this
    {
      pos <= size && pos == |file|
    }

    constructor (size: nat)
      ensures Valid() && this.size == size && file == []
    {
      this.size, pos, file := size, 0, [];
    }

    /** `parse_PUT` on data[at..] */
    method Read(data: string, at: nat) returns (done: bool, end: nat)
      requires Valid() && at <= |data|
      modifies this
      ensures Valid() && at <= end <= |data| && file == old(file) + data[at..][..end - at]
      ensures done <==> pos == size
      ensures !done ==> end == |data|
    {
      var length := |data| - at;
      done := false;
      if length >= size - pos {
        done := true;
        length := size - pos;
      }
      assert data[at..at + length] == data[at..][..length];
      file := file + data[at..at + length];
      pos := pos + length;
      end := at + length;
    }
  }

  lemma ConcatStep(chunks: seq<string>, k: nat)
    requires k < |chunks|
    ensures Concat(chunks[k..]) == chunks[k] + Concat(chunks[k + 1..])
  {
    assert chunks[k..][1..] == chunks[k + 1..];
  }

  /** Having taken `n` bytes of the chunk `c`. */
  lemma TakeStep(w: string, have: string, c: string, n: nat, later: string)
    requires w == have + (c + later) && n <= |c|
    ensures w == (have + c[..n]) + (c[n..] + later)
    ensures w[..|have| + n] == have + c[..n] && w[|have| + n..] == c[n..] + later
    ensures n == |c| ==> c[n..] + later == later
  {
    var a, b := have + c[..n], c[n..] + later;
    assert w == a + b;
    assert w[..|a|] == a && w[|a|..] == b;
  }

  /**
   However the stream is cut, the file gets its first `size` bytes and the reader stops behind
   them, as soon as they have come.
   */
  method ReadPut(size: nat, chunks: seq<string>) returns (done: bool, p: PutBody, k: nat, end: nat)
    requires 0 < size
    ensures fresh(p) && p.Valid() && p.size == size
    ensures done <==> size <= |Concat(chunks)|
    ensures done ==>
      && p.file == Concat(chunks)[..size]
      && k < |chunks| && end <= |chunks[k]| && chunks[k][end..] + Concat(chunks[k + 1..]) == Concat(chunks)[size..]
    ensures !done ==> p.file == Concat(chunks)
  {
    p := new PutBody(size);
    ghost var w := Concat(chunks);
    k, end, done := 0, 0, false;
    assert chunks[0..] == chunks;
    while k < |chunks|
      invariant k <= |chunks| && fresh(p) && p.Valid() && p.size == size && p.pos < size
      invariant w == p.file + Concat(chunks[k..])
    {
      hide Concat;
      ghost var file, later := p.file, Concat(chunks[k + 1..]);
      ConcatStep(chunks, k);
      assert chunks[k][0..] == chunks[k];
      done, end := p.Read(chunks[k], 0);
      TakeStep(w, file, chunks[k], end, later);
      if done {
        return;
      }
      k := k + 1;
    }
    assert chunks[k..] == [];
    assert p.file + [] == p.file;
  }

  // ------------------------------------------------------------------ urlencoded POST

  /** token->extra, with room for the NUL that ends the text */
  class FormBody {
    const size: nat
    const extra: array<char>
    var pos: nat

    ghost predicate Valid()
      reads this
    {
      pos <= size && extra.Length == size + 1
    }

    constructor (size: nat)
      ensures Valid() && this.size == size && pos == 0 && fresh(extra)
    {
      this.size, pos := size, 0;
      extra := new char[size + 1];
    }

    /** `token_read_URLENCODE`; what it takes is taken off the end of the buffer, here `left`. */
    method Read(data: string, at: nat) returns (done: bool, left: nat)
      requires Valid() && at <= |data|
      modifies this, extra
      ensures Valid() && left == |data| - Taken(size, old(pos), data[at..])
      ensures extra[..pos] == old(extra[..pos]) + data[at..][..Taken(size, old(pos), data[at..])]
      ensures done <==> pos == size
      ensures done ==> extra[size] == NUL
      ensures !done ==> left == at
    {
      var l := |data| - at;
      if l > size - pos {
        l := size - pos;
      }
      ghost var before := extra[..pos];
      forall i | 0 <= i < l {
        extra[pos + i] := data[at + i];
      }
      assert extra[..pos + l] == before + data[at..][..l];
      pos := pos + l;
      left := |data| - l;
      done := false;
      if size == pos {
        extra[pos] := NUL;
        assert extra[..pos] == before + data[at..][..l];
        done := true;
      }
    }
  }

  /**
   However a form is cut, it is parsed as soon as its declared bytes are there, and as exactly
   those; the reader runs only when a byte comes, so a form declared empty waits for one more.
   */
  method ReadForm(size: nat, chunks: seq<string>) returns (done: bool, f: FormBody)
    ensures fresh(f) && f.Valid() && f.size == size
    ensures done <==> size <= |Concat(chunks)| && Concat(chunks) != []
    ensures done ==> f.extra[..] == Concat(chunks)[..size] + [NUL]
    ensures !done ==> f.extra[..f.pos] == Concat(chunks)
  {
    f := new FormBody(size);
    ghost var w := Concat(chunks);
    var k := 0;
    done := false;
    assert chunks[0..] == chunks && f.extra[..0] == [];
    while k < |chunks|
      invariant k <= |chunks| && fresh(f) && fresh(f.extra) && f.Valid() && f.size == size
      invariant (f.pos < size || f.pos == 0)
      invariant w == f.extra[..f.pos] + Concat(chunks[k..])
    {
      hide Concat;
      ghost var before, later := f.extra[..f.pos], Concat(chunks[k + 1..]);
      ghost var n := Taken(size, f.pos, chunks[k]);
      ConcatStep(chunks, k);
      if chunks[k] != [] {
        assert chunks[k][0..] == chunks[k];
        var left;
        done, left := f.Read(chunks[k], 0);
        TakeStep(w, before, chunks[k], n, later);
        if done {
          assert f.extra[..] == f.extra[..size] + [f.extra[size]];
          return;
        }
      } else {
        assert chunks[k] + later == later;
      }
      k := k + 1;
    }
    assert chunks[k..] == [];
    assert f.extra[..f.pos] + [] == f.extra[..f.pos];
  }

  // ------------------------------------------------------------------ other bodies with a Content-Length

  /** `parse_CONTENT_LENGTH`: token->pos is compared with but never advanced. */
  class ContentBody {
    const size: nat
    var pos: nat
    var block: string

    constructor (size: nat)
      ensures this.size == size && pos == 0 && block == []
    {
      this.size, pos, block := size, 0, [];
    }

    method Read(data: string) returns (done: bool)
      requires pos == 0
      modifies this
      ensures pos == 0 && (done <==> |data| >= size)
      ensures block == old(block) + if done then data[..size] else data
    {
      var length := |data|;
      done := false;
      if length >= size - pos {
        done := true;
        length := size - pos;
      }
      block := block + data[..length];
    }
  }

  /** The block when the body is taken to be complete, if it ever is. */
  function ContentRun(size: nat, block: string, chunks: seq<string>): Option<string>
    decreases |chunks|
  {
    if chunks == [] then None
    else if |chunks[0]| >= size then Some(block + chunks[0][..size])
    else ContentRun(size, block + chunks[0], chunks[1..])
  }

  method ReadContent(size: nat, chunks: seq<string>) returns (r: Option<string>)
    requires size > 0
    ensures r == ContentRun(size, [], chunks)
  {
    var c := new ContentBody(size);
    assert chunks[0..] == chunks;
    for k := 0 to |chunks|
      invariant c.size == size && c.pos == 0
      invariant ContentRun(size, [], chunks) == ContentRun(size, c.block, chunks[k..])
    {
      assert chunks[k..][1..] == chunks[k + 1..];
      var done := c.Read(chunks[k]);
      if done {
        return Some(c.block);
      }
    }
    r := None;
  }

  /** The first chunk with anything in it. */
  function FirstBytes(chunks: seq<string>): string {
    if chunks == [] then [] else if chunks[0] != [] then chunks[0] else FirstBytes(chunks[1..])
  }

  lemma {:induction false} ContentGrows(size: nat, block: string, chunks: seq<string>)
    ensures ContentRun(size, block, chunks).Some? ==> |ContentRun(size, block, chunks).value| >= |block| + size
    decreases |chunks|
  {
    if chunks == [] || |chunks[0]| >= size {
    } else {
      ContentGrows(size, block + chunks[0], chunks[1..]);
    }
  }

  /** Such a body is read correctly exactly when its first chunk already holds all of it. */
  lemma {:induction false} ContentNeedsOneChunk(size: nat, chunks: seq<string>)
    requires 0 < size <= |Concat(chunks)|
    ensures ContentRun(size, [], chunks) == Some(Concat(chunks)[..size]) <==> |FirstBytes(chunks)| >= size
  {
    var c := chunks[0];
    if c == [] {
      assert c + Concat(chunks[1..]) == Concat(chunks[1..]);
      assert [] + c == c;
      ContentNeedsOneChunk(size, chunks[1..]);
    } else if |c| < size {
      ContentGrows(size, [] + c, chunks[1..]);
    } else {
      assert [] + c[..size] == Concat(chunks)[..size];
    }
  }

  lemma ContentInTwoPieces()
    ensures ContentRun(4, [], ["ab", "cd"]) == None
    ensures ContentRun(4, [], ["ab", "cdef"]) == Some("abcdef")
  {
    var x, y := ["ab", "cd"], ["ab", "cdef"];
    assert x[1..] == ["cd"] && x[1..][1..] == [];
    assert y[1..] == ["cdef"];
    assert y[1..][0] == "cdef" && "cdef"[..4] == "cdef" && [] + "ab" == "ab" && "ab" + "cdef" == "abcdef";
    assert ContentRun(4, "ab", ["cdef"]) == Some("ab" + "cdef"[..4]);
  }
}
