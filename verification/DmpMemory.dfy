/** Block transfers to the DMP memory of the MPU6050 (RTController/I2C/MPU6050.cpp). */
module DmpMemory {
  import opened Wrappers

  const CHUNK := 16
  const BANK := 256
  const BANKS := 32
  const MEMORY := BANK * BANKS

  /** dataSize is a uint16_t. */
  const MAX_SIZE := 65535

  // ------------------------------------------------------------------ linear memory

  function Linear(bank: nat, address: nat): nat {
    bank % BANKS * BANK + address
  }

  /** The i-th place from `base` on, around the end if need be. */
  function Place(base: nat, i: nat): (p: nat)
    ensures p < MEMORY
  {
    (base + i) % MEMORY
  }

  lemma PlaceMoves(base: nat, d: nat, i: nat)
    ensures Place(base + d, i) == Place(base, d + i)
  {
  }

  /** The memory after storing `data` from `base` on. */
  function Put(mem: seq<Byte>, base: nat, data: seq<Byte>): (r: seq<Byte>)
    requires |mem| == MEMORY
    ensures |r| == MEMORY
    decreases |data|
  {
    if data == [] then mem else Put(mem[Place(base, 0) := data[0]], base + 1, data[1..])
  }

  function Get(mem: seq<Byte>, base: nat, n: nat): (r: seq<Byte>)
    requires |mem| == MEMORY
    ensures |r| == n
  {
    seq(n, i requires 0 <= i < n => mem[Place(base, i)])
  }

  lemma {:induction false} PutJoins(mem: seq<Byte>, base: nat, a: seq<Byte>, b: seq<Byte>)
    requires |mem| == MEMORY
    ensures Put(mem, base, a + b) == Put(Put(mem, base, a), base + |a|, b)
    decreases |a|
  {
    hide Place;
    if a == [] {
      assert a + b == b;
    } else {
      assert (a + b)[1..] == a[1..] + b;
      PutJoins(mem[Place(base, 0) := a[0]], base + 1, a[1..], b);
    }
  }

  lemma GetJoins(mem: seq<Byte>, base: nat, m: nat, n: nat)
    requires |mem| == MEMORY
    ensures Get(mem, base, m + n) == Get(mem, base, m) + Get(mem, base + m, n)
  {
    var all, rest := Get(mem, base, m + n), Get(mem, base + m, n);
    forall i | 0 <= i < n ensures rest[i] == all[m + i] {
      PlaceMoves(base, m, i);
    }
    hide Place;
  }

  /** Places less than the whole memory apart are different. */
  lemma PlacesDiffer(base: nat, d: nat)
    requires 0 < d < MEMORY
    ensures Place(base, 0) != Place(base, d)
  {
    var q, r := base / MEMORY, base % MEMORY;
    assert base == q * MEMORY + r;
    if r + d < MEMORY {
      assert (base + d) % MEMORY == r + d;
    } else {
      assert base + d == (q + 1) * MEMORY + (r + d - MEMORY);
      assert (base + d) % MEMORY == r + d - MEMORY;
    }
  }

  lemma {:induction false} PutAway(mem: seq<Byte>, base: nat, data: seq<Byte>, place: nat)
    requires |mem| == MEMORY && place < MEMORY && forall i :: 0 <= i < |data| ==> Place(base, i) != place
    ensures Put(mem, base, data)[place] == mem[place]
    decreases |data|
  {
    hide Place;
    if data == [] {
    } else {
      assert Place(base, 0) != place;
      var next := base + 1;
      forall i | 0 <= i < |data[1..]| ensures Place(next, i) != place {
        PlaceMoves(base, 1, i);
        assert Place(base, i + 1) != place;
      }
      PutAway(mem[Place(base, 0) := data[0]], base + 1, data[1..], place);
    }
  }

  /** What is stored is what is read back, if it does not overwrite itself. */
  lemma {:induction false} PutThenGet(mem: seq<Byte>, base: nat, data: seq<Byte>)
    requires |mem| == MEMORY && |data| <= MEMORY
    ensures Get(Put(mem, base, data), base, |data|) == data
    decreases |data|
  {
    hide Place;
    if data == [] {
    } else {
      var m := mem[Place(base, 0) := data[0]];
      PutThenGet(m, base + 1, data[1..]);
      var next := base + 1;
      forall i | 0 <= i < |data| - 1 ensures Place(next, i) != Place(base, 0) {
        PlaceMoves(base, 1, i);
        PlacesDiffer(base, 1 + i);
      }
      PutAway(m, base + 1, data[1..], Place(base, 0));
      GetJoins(Put(mem, base, data), base, 1, |data| - 1);
      assert Get(Put(mem, base, data), base, 1) == [data[0]];
      assert data == [data[0]] + data[1..];
    }
  }

  lemma PlaceInside(base: nat, i: nat)
    requires base + i < MEMORY
    ensures Place(base, i) == base + i
  {
  }

  lemma UpdateSplits(mem: seq<Byte>, at: nat, x: Byte, n: nat)
    requires at + 1 <= n <= |mem|
    ensures mem[at := x][..at + 1] == mem[..at] + [x] && mem[at := x][n..] == mem[n..]
  {
  }

  /** A block that fits before the end of memory lands on its addresses and nowhere else. */
  lemma {:induction false} PutInPlace(mem: seq<Byte>, base: nat, data: seq<Byte>)
    requires |mem| == MEMORY && base + |data| <= MEMORY
    ensures Put(mem, base, data) == mem[..base] + data + mem[base + |data|..]
    decreases |data|
  {
    hide Place;
    if data == [] {
      assert mem == mem[..base] + [] + mem[base..];
    } else {
      PlaceInside(base, 0);
      PutInPlace(mem[base := data[0]], base + 1, data[1..]);
      UpdateSplits(mem, base, data[0], base + |data|);
      assert mem[..base] + [data[0]] + data[1..] == mem[..base] + data;
    }
  }

  // ------------------------------------------------------------------ the device

  /**
   The device behind its registers.  A burst counts its own addresses up inside a bank; the
   n-th one stores `noise(n, b)` for a byte `b`.
   */
  class Device {
    var mem: seq<Byte>
    var bankSel: Byte
    var start: Byte
    var intEnable: Byte
    const noise: (nat, Byte) -> Byte
    var bursts: nat

    ghost predicate Valid()
      reads this
    {
      |mem| == MEMORY
    }

    /** The device stores what it is given. */
    ghost predicate Honest()
    {
      forall n: nat, b: Byte :: noise(n, b) == b
    }

    constructor (mem: seq<Byte>, noise: (nat, Byte) -> Byte)
      requires |mem| == MEMORY
      ensures Valid() && this.mem == mem && this.noise == noise
    {
      this.mem, this.noise := mem, noise;
      bankSel, start, intEnable, bursts := 0, 0, 0, 0;
    }

    method WriteBytes(data: seq<Byte>) returns (ghost got: seq<Byte>)
      requires Valid() && 1 <= |data| <= CHUNK && start + |data| <= BANK
      modifies this`mem, this`bursts
      ensures Valid() && |got| == |data| && mem == Put(old(mem), Linear(bankSel, start), got)
      ensures Honest() ==> got == data
    {
      var n := bursts;
      got := seq(|data|, i requires 0 <= i < |data| => noise(n, data[i]));
      ghost var mem0, base := mem, Linear(bankSel, start);
      assert got[..0] == [];
      for i := 0 to |data|
        invariant Valid() && mem == Put(mem0, base, got[..i])
      {
        PutOne(mem0, base, got, i);
        InMemory(bankSel, start, i);
        mem := mem[Linear(bankSel, start) + i := noise(n, data[i])];
      }
      bursts := bursts + 1;
      assert got[..|data|] == got;
    }

    method ReadBytes(n: nat) returns (data: seq<Byte>)
      requires Valid() && 1 <= n <= CHUNK && start + n <= BANK
      ensures data == Get(mem, Linear(bankSel, start), n)
    {
      InMemory(bankSel, start, n - 1);
      var base := Linear(bankSel, start);
      data := mem[base..base + n];
      InPlace(mem, base, n);
    }
  }

  lemma InPlace(mem: seq<Byte>, base: nat, n: nat)
    requires |mem| == MEMORY && base + n <= MEMORY
    ensures Get(mem, base, n) == mem[base..base + n]
  {
    forall i | 0 <= i < n ensures Get(mem, base, n)[i] == mem[base..base + n][i] {
      PlaceInside(base, i);
    }
  }

  lemma InMemory(bank: nat, start: nat, i: nat)
    requires start + i < BANK
    ensures Linear(bank, start) + i < MEMORY && Place(Linear(bank, start), i) == Linear(bank, start) + i
  {
  }

  lemma PutOne(mem: seq<Byte>, base: nat, data: seq<Byte>, i: nat)
    requires |mem| == MEMORY && i < |data|
    ensures Put(mem, base, data[..i + 1]) == Put(mem, base, data[..i])[Place(base, i) := data[i]]
  {
    assert data[..i + 1] == data[..i] + [data[i]];
    PutJoins(mem, base, data[..i], [data[i]]);
    var m := Put(mem, base, data[..i]);
    PlaceMoves(base, i, 0);
    hide Place;
    assert [data[i]][1..] == [];
    assert Put(m[Place(base, i) := data[i]], base + i + 1, []) == m[Place(base, i) := data[i]];
  }

  // ------------------------------------------------------------------ block transfers

  /** `setMemoryBank` */
  method SetMemoryBank(dev: Device, bank: Byte, prefetch: bool, user: bool)
    modifies dev`bankSel
    ensures dev.bankSel % BANKS == bank % BANKS
    ensures !prefetch && !user ==> dev.bankSel == bank % BANKS
  {
    var sel := bank % 0x20;
    if user {
      sel := sel + 0x20;
    }
    if prefetch {
      sel := sel + 0x40;
    }
    dev.bankSel := sel;
  }

  /** `setMemoryStartAddress` */
  method SetMemoryStartAddress(dev: Device, address: Byte)
    modifies dev`start
    ensures dev.start == address
  {
    dev.start := address;
  }

  /** The next burst: at most 16 bytes, no more than are left, and none past the bank's end. */
  method ChunkSize(i: nat, dataSize: nat, address: Byte) returns (n: nat)
    requires i < dataSize
    ensures 1 <= n <= CHUNK && i + n <= dataSize && address + n <= BANK
  {
    n := CHUNK;
    if i + n > dataSize {
      n := dataSize - i;
    }
    if n > 256 - address {
      n := 256 - address;
    }
  }

  /** `bank` and `address` stand for the place `base + i`. */
  ghost predicate Stands(base: nat, i: nat, bank: nat, address: nat) {
    address < BANK && Place(base, i) == Linear(bank, address)
  }

  lemma StandsAtFirst(bank: nat, address: nat)
    requires address < BANK
    ensures Stands(Linear(bank, address), 0, bank, address)
  {
  }

  lemma LinearInside(bank: nat, address: nat)
    requires address < BANK
    ensures Linear(bank, address) < MEMORY
  {
  }

  /** After a burst the address wraps to 0 in its 8 bits exactly when the bank is over. */
  lemma StandsOn(base: nat, i: nat, bank: Byte, address: Byte, n: nat)
    requires Stands(base, i, bank, address) && 1 <= n && address + n <= BANK
    ensures var next := (address + n) % 256;
      Stands(base, i + n, if next == 0 then (bank + 1) % 256 else bank, next)
  {
    LinearInside(bank, address);
    Onward(base + i, bank % BANKS, address, n);
    NextBank(bank);
    assert Place(base, i + n) == (base + i + n) % MEMORY;
    hide Place;
    if address + n < BANK {
      assert (address + n) % 256 == address + n;
    }
  }

  lemma NextBank(bank: Byte)
    ensures (bank + 1) % 256 % BANKS == (bank % BANKS + 1) % BANKS
  {
    var q, r := bank / BANKS, bank % BANKS;
    assert bank + 1 == if r + 1 == BANKS then (q + 1) * BANKS else q * BANKS + (r + 1);
  }

  lemma Onward(x: nat, k: nat, address: nat, n: nat)
    requires k < BANKS && address < BANK && address + n <= BANK && x % MEMORY == k * BANK + address
    ensures (x + n) % MEMORY == if address + n < BANK then k * BANK + address + n else (k + 1) % BANKS * BANK
  {
    var q := x / MEMORY;
    assert x == q * MEMORY + k * BANK + address;
    if k + 1 == BANKS && address + n == BANK {
      assert x + n == (q + 1) * MEMORY;
    } else {
      assert (x + n) % MEMORY == k * BANK + address + n;
    }
  }

  lemma {:induction false} PutFrom(mem: seq<Byte>, a: nat, b: nat, data: seq<Byte>)
    requires |mem| == MEMORY && Place(a, 0) == Place(b, 0)
    ensures Put(mem, a, data) == Put(mem, b, data)
    decreases |data|
  {
    if data == [] {
    } else {
      SamePlace(a, b, 1);
      PlaceMoves(a, 1, 0);
      PlaceMoves(b, 1, 0);
      hide Place;
      PutFrom(mem[Place(a, 0) := data[0]], a + 1, b + 1, data[1..]);
    }
  }

  lemma SamePlace(a: nat, b: nat, i: nat)
    requires Place(a, 0) == Place(b, 0)
    ensures Place(a, i) == Place(b, i)
  {
    assert a == a / MEMORY * MEMORY + Place(a, 0) && b == b / MEMORY * MEMORY + Place(a, 0);
    AddMemories(Place(a, 0) + i, a / MEMORY);
    AddMemories(Place(a, 0) + i, b / MEMORY);
  }

  lemma AddMemories(x: nat, q: nat)
    ensures (q * MEMORY + x) % MEMORY == x % MEMORY
  {
    var r, k := x % MEMORY, x / MEMORY;
    assert q * MEMORY + x == (q + k) * MEMORY + r;
  }

  lemma GetFrom(mem: seq<Byte>, a: nat, b: nat, n: nat)
    requires |mem| == MEMORY && Place(a, 0) == Place(b, 0)
    ensures Get(mem, a, n) == Get(mem, b, n)
  {
    forall i | 0 <= i < n ensures Get(mem, a, n)[i] == Get(mem, b, n)[i] {
      SamePlace(a, b, i);
    }
  }

  /** One burst at `base + i` continues what was stored before it. */
  lemma BurstStored(mem0: seq<Byte>, mem: seq<Byte>, base: nat, got: seq<Byte>, bank: nat, address: nat,
    burst: seq<Byte>)
    requires |mem0| == MEMORY && mem == Put(mem0, base, got) && Stands(base, |got|, bank, address)
    ensures Put(mem, Linear(bank, address), burst) == Put(mem0, base, got + burst)
  {
    LinearInside(bank, address);
    PlaceInside(Linear(bank, address), 0);
    PlaceMoves(base, |got|, 0);
    PutFrom(mem, base + |got|, Linear(bank, address), burst);
    PutJoins(mem0, base, got, burst);
  }

  /** `writeMemoryBlock` */
  method WriteMemoryBlock(dev: Device, data: seq<Byte>, startBank: Byte, startAddress: Byte, verify: bool)
    returns (ok: bool, ghost got: seq<Byte>)
    requires dev.Valid() && |data| <= MAX_SIZE
    modifies dev`mem, dev`bursts, dev`bankSel, dev`start
    ensures dev.Valid() && |got| <= |data|
    ensures dev.mem == Put(old(dev.mem), Linear(startBank, startAddress), got)
    ensures ok && (verify || dev.Honest()) ==> got == data
    ensures ok ==> |got| == |data|
    ensures dev.Honest() ==> ok
  {
    hide Put, Get, Linear, Place, Stands;
    var bank: Byte, address: Byte := startBank, startAddress;
    ghost var mem0, base := dev.mem, Linear(startBank, startAddress);
    SetMemoryBank(dev, bank, false, false);
    SetMemoryStartAddress(dev, address);
    got := [];
    StandsAtFirst(bank, address);
    NothingPut(mem0, base);
    var i := 0;
    while i < |data|
      invariant dev.Valid() && i == |got| <= |data| && dev.mem == Put(mem0, base, got)
      invariant i < |data| ==>
        Stands(base, i, bank, address) && dev.bankSel % BANKS == bank % BANKS && dev.start == address
      invariant verify || dev.Honest() ==> got == data[..i]
      decreases |data| - i
    {
      var n := ChunkSize(i, |data|, address);
      var progBuffer := data[i..i + n];
      ghost var mem1 := dev.mem;
      SameLinear(dev.bankSel, bank, address);
      ghost var burst := dev.WriteBytes(progBuffer);
      BurstStored(mem0, mem1, base, got, bank, address, burst);
      got := got + burst;
      if verify {
        SetMemoryBank(dev, bank, false, false);
        SetMemoryStartAddress(dev, address);
        SameLinear(dev.bankSel, bank, address);
        var verifyBuffer := dev.ReadBytes(n);
        PutThenGet(mem1, Linear(bank, address), burst);
        if progBuffer != verifyBuffer {
          return false, got;
        }
      }
      assert verify || dev.Honest() ==> burst == progBuffer;
      assert data[..i] + progBuffer == data[..i + n];
      StandsOn(base, i, bank, address, n);
      i := i + n;
      address := (address + n) % 256;
      if i < |data| {
        if address == 0 {
          bank := (bank + 1) % 256;
        }
        SetMemoryBank(dev, bank, false, false);
        SetMemoryStartAddress(dev, address);
      }
    }
    assert data[..|data|] == data;
    ok := true;
  }

  lemma SameLinear(a: nat, b: nat, address: nat)
    requires a % BANKS == b % BANKS
    ensures Linear(a, address) == Linear(b, address)
  {
  }

  lemma NothingPut(mem: seq<Byte>, base: nat)
    requires |mem| == MEMORY
    ensures Put(mem, base, []) == mem
  {
  }

  /** `readMemoryBlock` */
  method ReadMemoryBlock(dev: Device, data: array<Byte>, dataSize: nat, startBank: Byte, startAddress: Byte)
    requires dev.Valid() && dataSize <= MAX_SIZE && dataSize <= data.Length
    modifies dev`bankSel, dev`start, data
    ensures data[..dataSize] == Get(dev.mem, Linear(startBank, startAddress), dataSize)
    ensures data[dataSize..] == old(data[dataSize..])
  {
    hide Get, Linear, Place, Stands;
    var bank: Byte, address: Byte := startBank, startAddress;
    ghost var base := Linear(startBank, startAddress);
    SetMemoryBank(dev, bank, false, false);
    SetMemoryStartAddress(dev, address);
    StandsAtFirst(bank, address);
    NothingGot(dev.mem, base);
    var i := 0;
    while i < dataSize
      invariant dev.Valid() && i <= dataSize && dev.mem == old(dev.mem)
      invariant data[..i] == Get(dev.mem, base, i) && data[dataSize..] == old(data[dataSize..])
      invariant i < dataSize ==>
        Stands(base, i, bank, address) && dev.bankSel % BANKS == bank % BANKS && dev.start == address
      decreases dataSize - i
    {
      var n := ChunkSize(i, dataSize, address);
      SameLinear(dev.bankSel, bank, address);
      var part := dev.ReadBytes(n);
      BurstRead(dev.mem, base, i, bank, address, n);
      ghost var before := data[..i];
      forall j | 0 <= j < n {
        data[i + j] := part[j];
      }
      assert data[..i + n] == before + part;
      StandsOn(base, i, bank, address, n);
      i := i + n;
      address := (address + n) % 256;
      if i < dataSize {
        if address == 0 {
          bank := (bank + 1) % 256;
        }
        SetMemoryBank(dev, bank, false, false);
        SetMemoryStartAddress(dev, address);
      }
    }
  }

  lemma NothingGot(mem: seq<Byte>, base: nat)
    requires |mem| == MEMORY
    ensures Get(mem, base, 0) == []
  {
  }

  lemma BurstRead(mem: seq<Byte>, base: nat, i: nat, bank: nat, address: nat, n: nat)
    requires |mem| == MEMORY && Stands(base, i, bank, address)
    ensures Get(mem, base, i + n) == Get(mem, base, i) + Get(mem, Linear(bank, address), n)
  {
    LinearInside(bank, address);
    PlaceInside(Linear(bank, address), 0);
    PlaceMoves(base, i, 0);
    GetFrom(mem, base + i, Linear(bank, address), n);
    GetJoins(mem, base, i, n);
  }

  /** A verified write, or any write to a sound device, is read back as it was written. */
  method WriteThenRead(dev: Device, data: seq<Byte>, bank: Byte, address: Byte, verify: bool)
    returns (ok: bool, back: array<Byte>)
    requires dev.Valid() && |data| <= MEMORY
    modifies dev
    ensures dev.Valid() && (dev.Honest() ==> ok)
    ensures ok && (verify || dev.Honest()) ==> back[..] == data
  {
    ghost var got;
    ghost var mem0 := dev.mem;
    ok, got := WriteMemoryBlock(dev, data, bank, address, verify);
    back := new Byte[|data|];
    ReadMemoryBlock(dev, back, |data|, bank, address);
    assert back[..|data|] == back[..];
    if got == data {
      PutThenGet(mem0, Linear(bank, address), data);
    }
  }

  // ------------------------------------------------------------------ configuration sets

  /** [bank] [offset] [length] [bytes], or a length of 0 and a special code. */
  datatype Item = Load(bank: Byte, offset: Byte, bytes: seq<Byte>) | Special(bank: Byte, offset: Byte, code: Byte)

  /** A whole item stands at `i`. */
  predicate Whole(data: seq<Byte>, i: nat) {
    i + 4 <= |data| && i + 3 + data[i + 2] as nat <= |data|
  }

  function EndAt(data: seq<Byte>, i: nat): (n: nat)
    requires Whole(data, i)
    ensures i + 4 <= n <= |data|
  {
    if data[i + 2] > 0 then i + 3 + data[i + 2] as nat else i + 4
  }

  function ItemAt(data: seq<Byte>, i: nat): Item
    requires Whole(data, i)
  {
    if data[i + 2] > 0 then Load(data[i], data[i + 1], data[i + 3..EndAt(data, i)])
    else Special(data[i], data[i + 1], data[i + 3])
  }

  /** A set that ends where its last item does; the code reads past the end of any other. */
  function ParseSet(data: seq<Byte>): Option<seq<Item>>
    decreases |data|
  {
    if data == [] then Some([])
    else if !Whole(data, 0) then None
    else
      var rest := ParseSet(data[EndAt(data, 0)..]);
      if rest.None? then None else Some([ItemAt(data, 0)] + rest.value)
  }

  predicate ItemOk(i: Item) {
    i.Load? ==> 1 <= |i.bytes| <= 255
  }

  function PrintItem(i: Item): seq<Byte>
    requires ItemOk(i)
  {
    match i
    case Load(bank, offset, bytes) => [bank, offset, |bytes|] + bytes
    case Special(bank, offset, code) => [bank, offset, 0, code]
  }

  function PrintSet(items: seq<Item>): seq<Byte>
    requires forall i :: 0 <= i < |items| ==> ItemOk(items[i])
  {
    if items == [] then [] else PrintItem(items[0]) + PrintSet(items[1..])
  }

  lemma ItemBack(i: Item, rest: seq<Byte>)
    requires ItemOk(i) && ParseSet(rest).Some?
    ensures ParseSet(PrintItem(i) + rest) == Some([i] + ParseSet(rest).value)
  {
    var p := PrintItem(i);
    var data := p + rest;
    assert data[0] == p[0] && data[1] == p[1] && data[2] == p[2] && data[3] == p[3];
    assert data[|p|..] == rest && data[3..|p|] == p[3..];
  }

  /** A printed configuration set is read as the items it was printed from. */
  lemma {:induction false} ParsePrinted(items: seq<Item>)
    requires forall i :: 0 <= i < |items| ==> ItemOk(items[i])
    ensures ParseSet(PrintSet(items)) == Some(items)
  {
    if items != [] {
      hide ParseSet, PrintItem, ItemOk;
      ParsePrinted(items[1..]);
      ItemBack(items[0], PrintSet(items[1..]));
      assert items == [items[0]] + items[1..];
    } else {
      assert ParseSet([]) == Some([]);
    }
  }

  /** The special code that enables the DMP interrupts, and what it stores. */
  const ENABLE := 0x01
  const INTERRUPTS: Byte := 0x32

  datatype State = State(mem: seq<Byte>, intEnable: Byte)

  /** The items' effects in order, up to the first special code that is not known. */
  function RunItems(items: seq<Item>, s: State): (bool, State)
    requires |s.mem| == MEMORY
  {
    if items == [] then (true, s)
    else
      match items[0]
      case Load(bank, offset, bytes) => RunItems(items[1..], s.(mem := Put(s.mem, Linear(bank, offset), bytes)))
      case Special(_, _, code) => if code == ENABLE then RunItems(items[1..], s.(intEnable := INTERRUPTS))
        else (false, s)
  }

  lemma ParseStep(data: seq<Byte>, i: nat)
    requires i < |data| && ParseSet(data[i..]).Some?
    ensures Whole(data, i) && ParseSet(data[EndAt(data, i)..]).Some?
    ensures ParseSet(data[i..]).value == [ItemAt(data, i)] + ParseSet(data[EndAt(data, i)..]).value
  {
    var d := data[i..];
    assert Whole(d, 0);
    ItemShift(data, i);
    hide ItemAt, EndAt, Whole;
    assert d != [];
  }

  lemma ItemShift(data: seq<Byte>, i: nat)
    requires i <= |data| && Whole(data[i..], 0)
    ensures Whole(data, i) && ItemAt(data[i..], 0) == ItemAt(data, i)
    ensures data[i..][EndAt(data[i..], 0)..] == data[EndAt(data, i)..]
  {
    var d := data[i..];
    assert d[0] == data[i] && d[1] == data[i + 1] && d[2] == data[i + 2] && d[3] == data[i + 3];
    var n := EndAt(d, 0);
    assert n == EndAt(data, i) - i;
    assert d[n..] == data[i + n..] && d[3..n] == data[i + 3..i + n];
  }

  lemma RunStep(first: Item, rest: seq<Item>, s: State)
    requires |s.mem| == MEMORY
    ensures RunItems([first] + rest, s) ==
      match first
      case Load(bank, offset, bytes) => RunItems(rest, s.(mem := Put(s.mem, Linear(bank, offset), bytes)))
      case Special(_, _, code) => if code == ENABLE then RunItems(rest, s.(intEnable := INTERRUPTS)) else (false, s)
  {
    assert ([first] + rest)[1..] == rest;
  }

  /** `writeDMPConfigurationSet`: every block is verified, so a good answer means that all of it took effect. */
  method WriteConfigurationSet(dev: Device, data: seq<Byte>) returns (ok: bool)
    requires dev.Valid() && |data| <= MAX_SIZE && ParseSet(data).Some?
    modifies dev
    ensures dev.Valid()
    ensures dev.Honest() || ok ==>
      (ok, State(dev.mem, dev.intEnable)) == RunItems(ParseSet(data).value, old(State(dev.mem, dev.intEnable)))
  {
    hide Put, Linear, ParseSet, RunItems;
    ghost var want := RunItems(ParseSet(data).value, State(dev.mem, dev.intEnable));
    var i := 0;
    assert data[0..] == data;
    while i < |data|
      invariant dev.Valid() && i <= |data| && ParseSet(data[i..]).Some?
      invariant RunItems(ParseSet(data[i..]).value, State(dev.mem, dev.intEnable)) == want
      decreases |data| - i
    {
      ParseStep(data, i);
      ghost var s := State(dev.mem, dev.intEnable);
      var bank, offset, length := data[i], data[i + 1], data[i + 2];
      i := i + 3;
      if length > 0 {
        var bytes := data[i..i + length];
        RunStep(Load(bank, offset, bytes), ParseSet(data[i + length..]).value, s);
        ghost var got;
        ok, got := WriteMemoryBlock(dev, bytes, bank, offset, true);
        i := i + length;
      } else {
        var special := data[i];
        RunStep(Special(bank, offset, special), ParseSet(data[i + 1..]).value, s);
        i := i + 1;
        ok := special == ENABLE;
        if ok {
          dev.intEnable := INTERRUPTS;
        }
      }
      if !ok {
        return;
      }
    }
    ok := true;
    NothingLeft(data[i..], State(dev.mem, dev.intEnable));
  }

  lemma NothingLeft(data: seq<Byte>, s: State)
    requires data == [] && |s.mem| == MEMORY
    ensures ParseSet(data) == Some([]) && RunItems([], s) == (true, s)
  {
  }
}
