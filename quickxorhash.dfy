/** OneDrive's QuickXorHash: a 160-bit streaming XOR checksum (util/quickxorhash.py).

    The state is three 64-bit cells, a bit cursor `shifted` in [0, 160) and the
    number of bytes absorbed so far.  Byte k of an update is XORed into the
    cells at bit position (shifted + 11 k) mod 160; a byte that straddles the
    end of a cell spills its high bits into the next cell, and the last cell,
    which only counts 32 bits, spills into cell 0. */
module QuickXor {
  import opened Bits
  import Base64
  import opened Wrappers

  const Width: nat := 160
  const Shift: nat := 11

  /** The three 64-bit cells. */
  datatype Cells = Cells(c0: Word, c1: Word, c2: Word)

  const ZeroCells := Cells(ZeroWord, ZeroWord, ZeroWord)

  function XorCells(a: Cells, b: Cells): Cells
  {
    Cells(Xor(a.c0, b.c0), Xor(a.c1, b.c1), Xor(a.c2, b.c2))
  }

  /** The bit capacity of cell `ci`: 64, except the last, which holds 160 mod 64. */
  function CellBits(ci: nat): nat
  {
    if ci == 2 then Width % 64 else 64
  }

  /** What XORing byte v in at bit position bp of cell ci adds to cell k: the
      byte shifted up by bp (bits past 63 are lost) in cell ci, and, when the
      byte straddles the end of cell ci, its remaining high bits at the bottom
      of the next cell. */
  function Part(k: nat, ci: nat, bp: nat, v: Byte): Word
    requires k < 3 && ci < 3 && bp < CellBits(ci)
  {
    var bits := CellBits(ci);
    if k == ci then ShiftLeft(Widen(v), bp)
    else if k == (ci + 1) % 3 && bp > bits - 8 then ShiftRight(Widen(v), bits - bp)
    else ZeroWord
  }

  /** What XORing byte v in at ring position p adds to the cells. */
  function Place(p: nat, v: Byte): Cells
    requires p < Width
  {
    var ci, bp := p / 64, p % 64;
    Cells(Part(0, ci, bp, v), Part(1, ci, bp, v), Part(2, ci, bp, v))
  }

  /** The cursor after n more bytes, as update leaves it. */
  function Advance(s: nat, n: nat): (r: nat)
    ensures r < Width
  {
    (s + Shift * (n % Width)) % Width
  }

  /** Reference definition: absorb the bytes one at a time, each at the cursor,
      moving the cursor 11 bits per byte. */
  function Absorb(c: Cells, s: nat, data: seq<Byte>): Cells
    requires s < Width
    decreases |data|
  {
    if data == [] then c else Absorb(XorCells(c, Place(s, data[0])), Advance(s, 1), data[1..])
  }

  /** The abstract state of a hasher. */
  datatype State = State(cells: Cells, shifted: nat, length: nat)

  ghost predicate ValidState(st: State)
  {
    st.shifted < Width
  }

  const Init := State(ZeroCells, 0, 0)

  /** The state after `update(data)`. */
  function UpdateSpec(st: State, data: seq<Byte>): (r: State)
    requires ValidState(st)
    ensures ValidState(r)
  {
    State(Absorb(st.cells, st.shifted, data), Advance(st.shifted, |data|), st.length + |data|)
  }

  // ---------------------------------------------------------------------------
  // Algebra of cells

  lemma XorCellsComm(a: Cells, b: Cells)
    ensures XorCells(a, b) == XorCells(b, a)
  {
    XorComm(a.c0, b.c0); XorComm(a.c1, b.c1); XorComm(a.c2, b.c2);
  }

  lemma XorCellsAssoc(a: Cells, b: Cells, c: Cells)
    ensures XorCells(XorCells(a, b), c) == XorCells(a, XorCells(b, c))
  {
    XorAssoc(a.c0, b.c0, c.c0); XorAssoc(a.c1, b.c1, c.c1); XorAssoc(a.c2, b.c2, c.c2);
  }

  lemma XorCellsZero(a: Cells)
    ensures XorCells(a, ZeroCells) == a
  {
    XorZero(a.c0); XorZero(a.c1); XorZero(a.c2);
  }

  /** Placing a byte is linear: XOR of bytes goes to XOR of contributions. */
  lemma PlaceLinear(p: nat, a: Byte, b: Byte)
    requires p < Width
    ensures Place(p, Xor(a, b)) == XorCells(Place(p, a), Place(p, b))
  {
    var ci, bp := p / 64, p % 64;
    WidenXor(a, b);
    ShiftLeftXor(Widen(a), Widen(b), bp);
    if bp > CellBits(ci) - 8 {
      ShiftRightXor(Widen(a), Widen(b), CellBits(ci) - bp);
    }
    XorZero(ZeroWord);
  }

  lemma PlaceZero(p: nat)
    requires p < Width
    ensures Place(p, ZeroByte) == ZeroCells
  {
    var ci, bp := p / 64, p % 64;
    ShiftZero(bp);
    if bp > CellBits(ci) - 8 {
      ShiftZero(CellBits(ci) - bp);
    }
  }

  // ---------------------------------------------------------------------------
  // Cursor arithmetic

  lemma AdvanceAdd(s: nat, a: nat, b: nat)
    requires s < Width
    ensures Advance(Advance(s, a), b) == Advance(s, a + b)
  {
    var ra, rb, rab := a % Width, b % Width, (a + b) % Width;
    assert ra + rb == rab || ra + rb == rab + Width;
    var x := s + Shift * ra;
    ModAddLeft(x, Shift * rb);
    if ra + rb != rab {
      assert x + Shift * rb == s + Shift * rab + Shift * Width;
      ModAddMultiple(s + Shift * rab, Shift);
    }
  }

  lemma ModAddLeft(x: nat, y: nat)
    ensures (x % Width + y) % Width == (x + y) % Width
  {
  }

  lemma ModAddMultiple(x: nat, k: nat)
    ensures (x + k * Width) % Width == x % Width
  {
  }

  lemma AdvanceZero(s: nat)
    requires s < Width
    ensures Advance(s, 0) == s
  {
  }

  lemma AdvanceMod(s: nat, n: nat)
    ensures Advance(s, n % Width) == Advance(s, n)
  {
  }

  // ---------------------------------------------------------------------------
  // Chunking independence

  /** Absorbing a + b is absorbing a, then b from where a left the cursor. */
  lemma {:induction false} AbsorbConcat(c: Cells, s: nat, a: seq<Byte>, b: seq<Byte>)
    requires s < Width
    ensures Absorb(c, s, a + b) == Absorb(Absorb(c, s, a), Advance(s, |a|), b)
    decreases |a|
  {
    if a == [] {
      assert a + b == b;
      AdvanceZero(s);
    } else {
      assert (a + b)[0] == a[0];
      assert (a + b)[1..] == a[1..] + b;
      var c1 := XorCells(c, Place(s, a[0]));
      AbsorbConcat(c1, Advance(s, 1), a[1..], b);
      AdvanceAdd(s, 1, |a| - 1);
    }
  }

  /** update(A) followed by update(B) leaves the same state as update(A + B). */
  lemma UpdateConcat(st: State, a: seq<Byte>, b: seq<Byte>)
    requires ValidState(st)
    ensures UpdateSpec(UpdateSpec(st, a), b) == UpdateSpec(st, a + b)
  {
    AbsorbConcat(st.cells, st.shifted, a, b);
    AdvanceAdd(st.shifted, |a|, |b|);
  }

  // ---------------------------------------------------------------------------
  // Folding bytes 160 apart

  /** The XOR of data[j], data[j + 160], data[j + 320], ... */
  function FoldFrom(data: seq<Byte>, j: nat): Byte
    decreases |data| - j
  {
    if j >= |data| then ZeroByte else Xor(data[j], FoldFrom(data, j + Width))
  }

  /** The cells contributed by the first m folded bytes, each at its own position. */
  function FoldedSum(s: nat, data: seq<Byte>, m: nat): Cells
    requires s < Width && m <= Width
  {
    if m == 0 then ZeroCells
    else XorCells(FoldedSum(s, data, m - 1), Place(Advance(s, m - 1), FoldFrom(data, m - 1)))
  }

  lemma {:induction false} FoldFromSnoc(d: seq<Byte>, b: Byte, j: nat)
    ensures FoldFrom(d + [b], j)
         == Xor(FoldFrom(d, j), if j <= |d| && (|d| - j) % Width == 0 then b else ZeroByte)
    decreases |d| + 1 - j
  {
    var e := d + [b];
    if j > |d| {
      XorZero(ZeroByte);
    } else if j == |d| {
      assert e[j] == b;
      XorZero(b);
      XorComm(b, ZeroByte);
    } else {
      FoldFromSnoc(d, b, j + Width);
      assert e[j] == d[j];
      var tail := if j + Width <= |d| && (|d| - j - Width) % Width == 0 then b else ZeroByte;
      assert tail == if j <= |d| && (|d| - j) % Width == 0 then b else ZeroByte;
      XorAssoc(d[j], FoldFrom(d, j + Width), tail);
    }
  }

  lemma FoldedIndex(n: nat, i: nat)
    requires i < Width
    ensures (i <= n && (n - i) % Width == 0) == (n % Width == i)
  {
  }

  lemma {:induction false} FoldedSumSnoc(s: nat, d: seq<Byte>, b: Byte, m: nat)
    requires s < Width && m <= Width
    ensures FoldedSum(s, d + [b], m)
         == XorCells(FoldedSum(s, d, m), if |d| % Width < m then Place(Advance(s, |d|), b) else ZeroCells)
  {
    if m == 0 {
      XorCellsZero(ZeroCells);
    } else {
      var i := m - 1;
      var p := Advance(s, i);
      var P := FoldedSum(s, d, i);
      var E := if |d| % Width < i then Place(Advance(s, |d|), b) else ZeroCells;
      var E' := if |d| % Width < m then Place(Advance(s, |d|), b) else ZeroCells;
      var f := FoldFrom(d, i);
      var hit := if |d| % Width == i then b else ZeroByte;
      var R := FoldedSum(s, d + [b], i);
      var F := FoldFrom(d + [b], i);
      assert R == XorCells(P, E) by { FoldedSumSnoc(s, d, b, i); }
      assert F == Xor(f, hit) by { FoldFromSnoc(d, b, i); FoldedIndex(|d|, i); }
      assert Place(p, F) == XorCells(Place(p, f), Place(p, hit)) by { PlaceLinear(p, f, hit); }
      assert XorCells(E, Place(p, hit)) == E' by { ExtraStep(s, d, b, i, p, E, E', hit); }
      Regroup(FoldedSum(s, d + [b], m), R, Place(p, F), P, E, Place(p, f), Place(p, hit), E', FoldedSum(s, d, m));
    }
  }

  /** (P + E) + (A + B) regrouped as (P + A) + (E + B). */
  lemma Regroup(X: Cells, R: Cells, PF: Cells, P: Cells, E: Cells, A: Cells, B: Cells, E': Cells, Y: Cells)
    requires X == XorCells(R, PF) && R == XorCells(P, E) && PF == XorCells(A, B)
    requires XorCells(E, B) == E' && Y == XorCells(P, A)
    ensures X == XorCells(Y, E')
  {
    XorCellsShuffle(P, E, A, B);
  }

  /** The byte appended at offset |d| lands in the folded sum exactly once, at
      index |d| mod 160. */
  lemma ExtraStep(s: nat, d: seq<Byte>, b: Byte, i: nat, p: nat, E: Cells, E': Cells, hit: Byte)
    requires s < Width && i < Width && p == Advance(s, i)
    requires E == if |d| % Width < i then Place(Advance(s, |d|), b) else ZeroCells
    requires E' == if |d| % Width < i + 1 then Place(Advance(s, |d|), b) else ZeroCells
    requires hit == if |d| % Width == i then b else ZeroByte
    ensures XorCells(E, Place(p, hit)) == E'
  {
    if |d| % Width == i {
      AdvanceMod(s, |d|);
      XorCellsComm(ZeroCells, Place(p, b));
      XorCellsZero(Place(p, b));
    } else {
      PlaceZero(p);
      XorCellsZero(if |d| % Width < i then Place(Advance(s, |d|), b) else ZeroCells);
    }
  }

  lemma XorCellsShuffle(a: Cells, b: Cells, c: Cells, d: Cells)
    ensures XorCells(XorCells(a, b), XorCells(c, d)) == XorCells(XorCells(a, c), XorCells(b, d))
  {
  }

  lemma {:induction false} FoldedSumEmpty(s: nat, m: nat)
    requires s < Width && m <= Width
    ensures FoldedSum(s, [], m) == ZeroCells
  {
    if m > 0 {
      assert FoldedSum(s, [], m - 1) == ZeroCells by { FoldedSumEmpty(s, m - 1); }
      assert FoldedSum(s, [], m) == FoldedSum(s, [], m - 1) by { ZeroColumn(s, [], m); }
    }
  }

  /** A column that folds to zero adds nothing to the sum. */
  lemma ZeroColumn(s: nat, data: seq<Byte>, m: nat)
    requires s < Width && 0 < m <= Width && FoldFrom(data, m - 1) == ZeroByte
    ensures FoldedSum(s, data, m) == FoldedSum(s, data, m - 1)
  {
    var p := Advance(s, m - 1);
    var prev := FoldedSum(s, data, m - 1);
    assert FoldedSum(s, data, m) == XorCells(prev, Place(p, ZeroByte));
    PlaceZero(p);
    XorCellsZero(prev);
  }

  /** Past the end of the data every folded byte is zero, so the sum stops growing. */
  lemma {:induction false} FoldedSumTail(s: nat, data: seq<Byte>, m: nat)
    requires s < Width && |data| <= m <= Width
    ensures FoldedSum(s, data, m) == FoldedSum(s, data, |data|)
    decreases m
  {
    if m > |data| {
      var prev := FoldedSum(s, data, m - 1);
      assert prev == FoldedSum(s, data, |data|) by { FoldedSumTail(s, data, m - 1); }
      assert FoldedSum(s, data, m) == prev by { ZeroColumn(s, data, m); }
    }
  }

  /** Bytes whose offsets differ by a multiple of 160 are XOR-folded together
      and placed at the same bit position: the folded sum over the first 160
      positions is exactly the byte-at-a-time reference. */
  lemma {:induction false} AbsorbIsFolded(c: Cells, s: nat, data: seq<Byte>)
    requires s < Width
    ensures Absorb(c, s, data) == XorCells(c, FoldedSum(s, data, Width))
    decreases |data|
  {
    if data == [] {
      FoldedSumEmpty(s, Width);
      XorCellsZero(c);
    } else {
      var d, b := data[..|data| - 1], data[|data| - 1];
      assert data == d + [b];
      AbsorbIsFolded(c, s, d);
      AbsorbConcat(c, s, d, [b]);
      assert Absorb(Absorb(c, s, d), Advance(s, |d|), [b])
          == XorCells(Absorb(c, s, d), Place(Advance(s, |d|), b));
      FoldedSumSnoc(s, d, b, Width);
      XorCellsAssoc(c, FoldedSum(s, d, Width), Place(Advance(s, |d|), b));
    }
  }

  // ---------------------------------------------------------------------------
  // One step of update's loop, cell by cell

  /** Three cells kept in a sequence, as the hasher's array holds them. */
  function CellsOf(a: seq<Word>): Cells
    requires |a| == 3
  {
    Cells(a[0], a[1], a[2])
  }

  /** XORing the shifted byte into cell ci, when it fits below the cell's
      end, is placing the byte at bit position 64 ci + bp. */
  lemma PlaceWithin(b: seq<Word>, a: seq<Word>, ci: nat, bp: nat, v: Byte)
    requires |b| == 3 && ci < 3 && bp < CellBits(ci) && bp <= CellBits(ci) - 8
    requires a == b[ci := Xor(b[ci], ShiftLeft(Widen(v), bp))]
    ensures 64 * ci + bp < Width
    ensures CellsOf(a) == XorCells(CellsOf(b), Place(64 * ci + bp, v))
  {
    var p := 64 * ci + bp;
    assert p / 64 == ci && p % 64 == bp;
    XorZero(b[0]);
    XorZero(b[1]);
    XorZero(b[2]);
  }

  /** XORing the shifted byte into cell ci and its high bits into the next
      cell, when it straddles the cell's end, is placing the byte at bit
      position 64 ci + bp. */
  lemma PlaceAcross(b: seq<Word>, a: seq<Word>, c: seq<Word>, ci: nat, bp: nat, nc: nat, bits: nat, v: Byte)
    requires |b| == 3 && ci < 3 && bits == CellBits(ci) && bits - 8 < bp < bits && nc == (ci + 1) % 3
    requires a == b[ci := Xor(b[ci], ShiftLeft(Widen(v), bp))]
    requires c == a[nc := Xor(a[nc], ShiftRight(Widen(v), bits - bp))]
    ensures 64 * ci + bp < Width
    ensures CellsOf(c) == XorCells(CellsOf(b), Place(64 * ci + bp, v))
  {
    var p := 64 * ci + bp;
    assert p / 64 == ci && p % 64 == bp;
    XorZero(b[0]);
    XorZero(b[1]);
    XorZero(b[2]);
  }

  /** Placing the next folded byte at the next position extends the folded sum by one term. */
  lemma FoldedSumStep(c0: Cells, s: nat, data: seq<Byte>, i: nat, p: nat, v: Byte, before: Cells, after: Cells)
    requires s < Width && i < Width && p == Advance(s, i) && v == FoldFrom(data, i)
    requires before == XorCells(c0, FoldedSum(s, data, i))
    requires after == XorCells(before, Place(p, v))
    ensures after == XorCells(c0, FoldedSum(s, data, i + 1))
  {
    XorCellsAssoc(c0, FoldedSum(s, data, i), Place(Advance(s, i), FoldFrom(data, i)));
  }

  /** Moving the cursor 11 bits within a cell, or past its end into the next
      cell, is moving the ring position on by one byte. */
  lemma CursorStep(s: nat, i: nat, ci: nat, bp: nat, nextCell: nat, cellBits: nat)
    requires s < Width && ci < 3 && bp < CellBits(ci) && 64 * ci + bp == Advance(s, i)
    requires nextCell == (ci + 1) % 3 && cellBits == CellBits(ci)
    ensures bp + Shift >= cellBits ==>
              nextCell < 3 && bp + Shift - cellBits < CellBits(nextCell)
              && 64 * nextCell + (bp + Shift - cellBits) == Advance(s, i + 1)
    ensures bp + Shift < cellBits ==>
              bp + Shift < CellBits(ci) && 64 * ci + (bp + Shift) == Advance(s, i + 1)
  {
    AdvanceAdd(s, i, 1);
  }

  // ---------------------------------------------------------------------------
  // finalize

  /** `struct.pack('Q', x)` on a little-endian machine: the 8 bytes of x, lowest first. */
  function PackQ(x: nat): (r: seq<Byte>)
    ensures |r| == 8
  {
    LittleEndian(x, 8)
  }

  /** The cells as finalize lays them out: 8 bytes of cell 0, 8 of cell 1 and
      the low 160 / 8 mod 8 = 4 bytes of cell 2. */
  function Packed(c: Cells): (r: seq<Byte>)
    ensures |r| == 20
  {
    var keep := Width / 8 % 8;
    assert keep == 4;
    PackQ(Value(c.c0)) + PackQ(Value(c.c1)) + PackQ(Value(c.c2))[..keep]
  }

  /** The 20-byte buffer finalize encodes: the packed cells with the 8 bytes
      of the length XORed into the last 8. */
  function Buffer(st: State): (r: seq<Byte>)
    ensures |r| == 20
  {
    var packed := Packed(st.cells);
    var len := PackQ(st.length);
    seq(20, i requires 0 <= i < 20 => if i < 12 then packed[i] else Xor(packed[i], len[i - 12]))
  }

  /** What finalize returns: the base64 text of the buffer, or None when the
      length does not fit the 64-bit field and `struct.pack` raises. */
  function Digest(st: State): (r: Option<string>)
    ensures r.Some? <==> st.length < 0x1_0000_0000_0000_0000
    ensures r.Some? ==> |r.value| == 28
  {
    if st.length < 0x1_0000_0000_0000_0000 then
      var text := Base64.Encode(Buffer(st));
      assert (20 + 2) / 3 == 7;
      Some(text)
    else None
  }

  /** The digest text carries the whole 20-byte buffer: decoding it gives the buffer back. */
  lemma DigestDecodes(st: State)
    requires st.length < 0x1_0000_0000_0000_0000
    ensures Base64.Decode(Digest(st).value) == Some(Buffer(st))
  {
    Base64.DecodeEncode(Buffer(st));
  }

  /** Packed, cell by cell. */
  lemma PackedPrefixes(c: Cells)
    ensures Packed(c)[..0] == []
    ensures Packed(c)[..8] == PackQ(Value(c.c0))
    ensures Packed(c)[..16] == PackQ(Value(c.c0)) + PackQ(Value(c.c1))
    ensures Packed(c) == Packed(c)[..16] + PackQ(Value(c.c2))[..4]
  {
  }

  /** A fresh hasher's digest is the base64 of twenty zero bytes: 27 'A' and '='. */
  lemma EmptyDigest()
    ensures Digest(Init) == Some(Base64.RepeatA(27) + "=")
  {
    var buf := Buffer(Init);
    assert Digest(Init) == Some(Base64.Encode(buf));
    Base64.ZeroValue(64);
    ZeroBuffer(Init);
    Base64.EncodeZeros(buf);
  }

  /** Cells and length that all read as zero give a buffer of zero bytes. */
  lemma ZeroBuffer(st: State)
    requires Value(st.cells.c0) == 0 && Value(st.cells.c1) == 0 && Value(st.cells.c2) == 0
    requires st.length == 0
    ensures forall k :: 0 <= k < 20 ==> Buffer(st)[k] == ZeroByte
  {
    PackZero(0);
    var packed := Packed(st.cells);
    assert forall k :: 0 <= k < 20 ==> packed[k] == ZeroByte;
    XorZero(ZeroByte);
  }

  /** The 64-bit encoding of zero is eight zero bytes. */
  lemma PackZero(x: nat)
    requires x == 0
    ensures forall k :: 0 <= k < 8 ==> PackQ(x)[k] == ZeroByte
  {
    LittleEndianZero(x, 8);
  }

  lemma {:induction false} LittleEndianZero(x: nat, n: nat)
    requires x == 0
    ensures forall k :: 0 <= k < n ==> LittleEndian(x, n)[k] == ZeroByte
  {
    if n > 0 {
      LittleEndianZero(x / 256, n - 1);
      FromValueZero(x % 256, 8);
    }
  }

  lemma {:induction false} FromValueZero(x: nat, n: nat)
    requires x == 0
    ensures FromValue(x, n) == Zeros(n)
  {
    if n > 0 {
      FromValueZero(x / 2, n - 1);
    }
  }

  // ---------------------------------------------------------------------------
  // The hasher object

  class QuickXorHash {
    const width: nat
    const shift: nat
    var shifted: nat
    var length: nat
    var cell: array<Word>

    ghost predicate Valid()
      reads this
    {
      width == Width && shift == Shift && cell.Length == 3 && shifted < Width
    }

    /** The hasher's state as a value. */
    function Current(): (st: State)
      reads this, cell
      requires Valid()
      ensures ValidState(st)
    {
      State(CellsOf(cell[..]), shifted, length)
    }

    /** __init__: width 160, shift 11, (160 - 1) / 64 + 1 = 3 zero cells. */
    constructor ()
      ensures Valid() && fresh(cell)
      ensures Current() == Init
    {
      width := 160;
      shift := 11;
      shifted := 0;
      length := 0;
      cell := new Word[(160 - 1) / 64 + 1](_ => ZeroWord);
    }

    /** update(data). */
    method Update(data: seq<Byte>)
      requires Valid()
      modifies this, cell
      ensures Valid() && cell == old(cell)
      ensures Current() == UpdateSpec(old(Current()), data)
    {
      XorColumns(data);
      var n := |data|;
      shifted := shifted + shift * (n % width);
      shifted := shifted % width;
      length := length + n;
    }

    /** The loop of update: for each of the first min(160, |data|) offsets i,
        the folded column i is XORed in at the cursor, which then moves 11
        bits on, passing into the next cell (cell 2 into cell 0) at the end
        of a cell. */
    method XorColumns(data: seq<Byte>)
      requires Valid()
      modifies cell
      ensures CellsOf(cell[..]) == Absorb(old(CellsOf(cell[..])), shifted, data)
    {
      ghost var c0 := CellsOf(cell[..]);
      ghost var s := shifted;
      var cellIndex: nat := shifted / 64;
      var cellBitpos: nat := shifted % 64;
      var n := |data|;
      var stop := if width < n then width else n;
      var i := 0;
      while i < stop
        invariant 0 <= i <= stop <= Width
        invariant cellIndex < 3 && cellBitpos < CellBits(cellIndex)
        invariant 64 * cellIndex + cellBitpos == Advance(s, i)
        invariant CellsOf(cell[..]) == XorCells(c0, FoldedSum(s, data, i))
      {
        var nextCell: nat := cellIndex + 1;
        var cellBits: nat := 64;
        // The last cell wraps around to the first and holds only 160 mod 64 bits.
        if nextCell == cell.Length {
          nextCell := 0;
          if width % 64 > 0 {
            cellBits := width % 64;
          }
        }
        var newByte := FoldColumn(data, i);
        XorIn(cellIndex, cellBitpos, nextCell, cellBits, newByte, c0, s, data, i);
        assert CellsOf(cell[..]) == XorCells(c0, FoldedSum(s, data, i + 1));

        CursorStep(s, i, cellIndex, cellBitpos, nextCell, cellBits);
        cellBitpos := cellBitpos + shift;
        if cellBitpos >= cellBits {
          cellIndex := nextCell;
          cellBitpos := cellBitpos - cellBits;
        }
        i := i + 1;
        assert CellsOf(cell[..]) == XorCells(c0, FoldedSum(s, data, i));
      }
      if n < width {
        FoldedSumTail(s, data, Width);
      }
      AbsorbIsFolded(c0, s, data);
    }

    /** The inner loop of update: the XOR of data[i], data[i + 160], ... */
    method FoldColumn(data: seq<Byte>, i: nat) returns (newByte: Byte)
      requires Valid()
      ensures newByte == FoldFrom(data, i)
    {
      newByte := ZeroByte;
      var j := i;
      XorComm(ZeroByte, FoldFrom(data, i));
      XorZero(FoldFrom(data, i));
      while j < |data|
        invariant i <= j
        invariant Xor(newByte, FoldFrom(data, j)) == FoldFrom(data, i)
        decreases |data| - j
      {
        XorAssoc(newByte, data[j], FoldFrom(data, j + width));
        newByte := Xor(newByte, data[j]);
        j := j + width;
      }
      XorZero(newByte);
    }

    /** XORs the folded byte v into the cells at bit position bp of cell ci,
        spilling the bits that pass the end of the cell into the next one:
        one more term of the folded sum. */
    method XorIn(ci: nat, bp: nat, nextCell: nat, cellBits: nat, v: Byte,
                 ghost c0: Cells, ghost s: nat, ghost data: seq<Byte>, ghost i: nat)
      requires Valid() && ci < 3 && bp < CellBits(ci)
      requires nextCell == (ci + 1) % 3 && cellBits == CellBits(ci)
      requires s < Width && i < Width && 64 * ci + bp == Advance(s, i) && v == FoldFrom(data, i)
      requires CellsOf(cell[..]) == XorCells(c0, FoldedSum(s, data, i))
      modifies cell
      ensures Valid()
      ensures CellsOf(cell[..]) == XorCells(c0, FoldedSum(s, data, i + 1))
    {
      ghost var b := cell[..];
      cell[ci] := Xor(cell[ci], ShiftLeft(Widen(v), bp));
      ghost var a := cell[..];
      assert a == b[ci := Xor(b[ci], ShiftLeft(Widen(v), bp))];
      if bp > cellBits - 8 {
        cell[nextCell] := Xor(cell[nextCell], ShiftRight(Widen(v), cellBits - bp));
        assert cell[..] == a[nextCell := Xor(a[nextCell], ShiftRight(Widen(v), cellBits - bp))];
        PlaceAcross(b, a, cell[..], ci, bp, nextCell, cellBits, v);
      } else {
        PlaceWithin(b, a, ci, bp, v);
      }
      FoldedSumStep(c0, s, data, i, 64 * ci + bp, v, CellsOf(b), CellsOf(cell[..]));
    }

    /** finalize(): the packed cells with the length XORed into the last
        eight bytes, in base64; None where `struct.pack('Q', length)` raises. */
    method Finalize() returns (r: Option<string>)
      requires Valid()
      ensures r == Digest(Current())
    {
      if length >= 0x1_0000_0000_0000_0000 {
        return None;
      }
      var bData := PackCells();
      var bLength := PackQ(length);
      bData := XorLength(bData, bLength);
      assert bData == Buffer(Current());
      r := Some(Base64.Encode(bData));
    }

    /** The second loop of finalize: the length bytes XORed into the last
        eight bytes of the buffer. */
    method XorLength(packed: seq<Byte>, bLength: seq<Byte>) returns (bData: seq<Byte>)
      requires Valid() && |packed| == 20 && |bLength| == 8
      ensures |bData| == 20
      ensures forall k :: 0 <= k < 20 ==>
        bData[k] == if k < 12 then packed[k] else Xor(packed[k], bLength[k - 12])
    {
      bData := packed;
      var i := 0;
      while i < |bLength|
        invariant 0 <= i <= 8 && |bData| == 20
        invariant forall k :: 0 <= k < 20 ==>
          bData[k] == if 12 <= k < 12 + i then Xor(packed[k], bLength[k - 12]) else packed[k]
      {
        var index := i + width / 8 - |bLength|;
        assert index == 12 + i;
        bData := bData[index := Xor(bData[index], bLength[i])];
        i := i + 1;
      }
    }

    /** The first loop of finalize: every cell packed into 8 bytes, keeping
        only the first 160 / 8 mod 8 bytes of a cell that passes bit 160. */
    method PackCells() returns (bData: seq<Byte>)
      requires Valid()
      ensures bData == Packed(Current().cells)
    {
      ghost var cs := CellsOf(cell[..]);
      PackedPrefixes(cs);
      bData := [];
      var i := 0;
      while i < cell.Length
        invariant 0 <= i <= 3
        invariant i < 3 ==> bData == Packed(cs)[..8 * i]
        invariant i == 3 ==> bData == Packed(cs)
      {
        var chunk := PackQ(Value(cell[i]));
        assert chunk == PackQ(Value(if i == 0 then cs.c0 else if i == 1 then cs.c1 else cs.c2));
        if (i + 1) * 64 <= width {
          bData := bData + chunk;
        } else {
          bData := bData + chunk[0..width / 8 % 8];
        }
        i := i + 1;
      }
    }

    /** hash_file(path): the file's bytes fed to update in reads of at most
        65536 bytes until a read comes back empty.  Like the source it
        returns nothing. */
    method HashFile(content: seq<Byte>)
      requires Valid()
      modifies this, cell
      ensures Valid() && cell == old(cell)
      ensures Current() == UpdateSpec(old(Current()), content)
    {
      var pos := 0;
      while true
        invariant 0 <= pos <= |content|
        invariant Valid() && cell == old(cell)
        invariant Current() == UpdateSpec(old(Current()), content[..pos])
        decreases |content| - pos
      {
        var end := if pos + 65536 < |content| then pos + 65536 else |content|;
        var chunk := content[pos..end];
        if |chunk| > 0 {
          ghost var before := Current();
          Update(chunk);
          UpdateConcat(old(Current()), content[..pos], chunk);
          assert content[..pos] + chunk == content[..end];
          pos := end;
        } else {
          assert content[..pos] == content;
          break;
        }
      }
    }
  }
}
