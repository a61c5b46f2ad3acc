/** The growable buffer of onion/block.c. */
module Block {
  import opened CText

  const MIN_BLOCK := 16
  const EXPONENTIAL_LIMIT := 1024

  /** onion_block; `data.Length` is maxsize. */
  class Block {
    var data: array<char>
    var size: nat

    ghost predicate Valid()
      reads this
    {
      size <= data.Length && MIN_BLOCK <= data.Length
    }

    ghost function Contents(): string
      requires Valid()
      reads this, data
    {
      data[..size]
    }

    constructor ()
      ensures Valid() && fresh(data) && Contents() == []
    {
      data := new char[MIN_BLOCK];
      size := 0;
    }

    /** `onion_block_clear` */
    method Clear()
      requires Valid()
      modifies this`size
      ensures Valid() && Contents() == []
    {
      size := 0;
    }

    /** `realloc`: a bigger buffer with the same bytes. */
    method Grow(maxsize: nat)
      requires Valid() && data.Length <= maxsize
      modifies this`data
      ensures Valid() && fresh(data) && data.Length == maxsize && Contents() == old(Contents())
    {
      var was, n := data, size;
      data := new char[maxsize];
      forall i | 0 <= i < n {
        data[i] := was[i];
      }
      assert data[..n] == was[..n];
    }

    /** `onion_block_min_maxsize` */
    method MinMaxSize(minsize: int)
      requires Valid()
      modifies this`data
      ensures Valid() && Contents() == old(Contents()) && minsize <= data.Length
      ensures data == old(data) || fresh(data)
    {
      if data.Length < minsize {
        Grow(minsize);
      }
    }

    /** `onion_block_add_char`: doubles up to 1024 bytes, then grows by 1024. */
    method AddChar(c: char)
      requires Valid()
      modifies this, data
      ensures Valid() && Contents() == old(Contents()) + [c] && (data == old(data) || fresh(data))
      ensures data.Length <= old(data.Length) + EXPONENTIAL_LIMIT
    {
      ghost var before := Contents();
      if size >= data.Length {
        var grow := data.Length;
        if grow > EXPONENTIAL_LIMIT {
          grow := EXPONENTIAL_LIMIT;
        }
        Grow(data.Length + grow);
      }
      data[size] := c;
      size := size + 1;
      assert data[..size] == before + [c];
    }

    /** `onion_block_add_data`; the bytes may be the block's own, before it moves or as it is. */
    method AddData(src: array<char>, off: nat, l: nat)
      requires Valid() && off + l <= src.Length
      modifies this, data
      ensures Valid() && (data == old(data) || fresh(data))
      ensures Contents() == old(Contents()) + old(src[off..off + l])
    {
      ghost var before, added := Contents(), src[off..off + l];
      if size + l > data.Length {
        var grow := l;
        if grow < MIN_BLOCK {
          grow := MIN_BLOCK;
        }
        var manual, n := data, size;
        data := new char[n + grow];
        forall i | 0 <= i < n {
          data[i] := manual[i];
        }
      }
      assert forall i :: 0 <= i < size ==> data[i] == before[i];
      forall i | 0 <= i < l {
        data[size + i] := src[off + i];
      }
      size := size + l;
      assert data[..size] == before + added;
    }

    /** `onion_block_add_str`: the NUL is stored but not counted. */
    method AddStr(str: array<char>, ghost l: nat)
      requires Valid() && l < str.Length && NulFree(str[..l]) && str[l] == NUL
      modifies this, data
      ensures Valid() && (data == old(data) || fresh(data)) && Contents() == old(Contents() + str[..l])
    {
      ghost var before, added := Contents(), str[..l];
      var n := 0;
      while str[n] != NUL
        invariant n <= l
        decreases l - n
      {
        assert n < l ==> str[..l][n] == str[n];
        n := n + 1;
      }
      assert n == l;
      AddData(str, 0, n + 1);
      size := size - 1;
      assert data[..size] == data[..size + 1][..size];
      assert before + old(str[0..n + 1]) == before + added + [NUL];
    }

    /** `onion_block_add_block`; a block may be appended to itself. */
    method AddBlock(toadd: Block)
      requires Valid() && toadd.Valid()
      modifies this, data
      ensures Valid() && (data == old(data) || fresh(data)) && Contents() == old(Contents() + toadd.Contents())
    {
      AddData(toadd.data, 0, toadd.size);
    }

    /** `onion_block_rewind` */
    method Rewind(n: nat)
      requires Valid()
      modifies this`size
      ensures Valid() && Contents() == old(if size < n then [] else Contents()[..size - n])
    {
      if size < n {
        size := 0;
      } else {
        size := size - n;
      }
    }

    /** `onion_block_data`: the bytes, with a NUL behind them. */
    method Data() returns (d: array<char>)
      requires Valid()
      modifies this, data
      ensures Valid() && Contents() == old(Contents()) && d == data && (data == old(data) || fresh(data))
      ensures size < d.Length && d[size] == NUL
    {
      if size == data.Length {
        AddChar(NUL);
        size := size - 1;
        assert data[..size] == data[..size + 1][..size];
      } else {
        data[size] := NUL;
      }
      d := data;
    }
  }

  /** Appending a block to itself doubles it. */
  method Double(b: Block)
    requires b.Valid()
    modifies b, b.data
    ensures b.Valid() && b.Contents() == old(b.Contents()) + old(b.Contents())
  {
    b.AddBlock(b);
  }
}
