/**
  PackedArray.c: items of 1 to 32 bits packed into 32-bit cells. A cell is the sequence of
  its bits, lowest first, so that the shifts and masks of the C code act on it one by one.
 */
module PackedArray {
  const CELL_BITS := 32

  type Cell = s: seq<bool> | |s| == CELL_BITS witness seq(CELL_BITS, _ => false)

  const ZERO: Cell := seq(CELL_BITS, _ => false)

  function Shl(c: Cell, n: nat): Cell { seq(CELL_BITS, i requires 0 <= i < CELL_BITS => i >= n && c[i - n]) }
  function Shr(c: Cell, n: nat): Cell { seq(CELL_BITS, i requires 0 <= i < CELL_BITS => i + n < CELL_BITS && c[i + n]) }
  function Or(c: Cell, d: Cell): Cell { seq(CELL_BITS, i requires 0 <= i < CELL_BITS => c[i] || d[i]) }
  function Xor(c: Cell, d: Cell): Cell { seq(CELL_BITS, i requires 0 <= i < CELL_BITS => c[i] != d[i]) }
  function And(c: Cell, d: Cell): Cell { seq(CELL_BITS, i requires 0 <= i < CELL_BITS => c[i] && d[i]) }
  function Not(c: Cell): Cell { seq(CELL_BITS, i requires 0 <= i < CELL_BITS => !c[i]) }

  /** `(uint32)(1ULL << n) - 1`: the n lowest bits. */
  function Mask(n: nat): Cell { seq(CELL_BITS, i requires 0 <= i < CELL_BITS => i < n) }

  /** No bit of the item lies outside its width. */
  predicate Fits(c: Cell, width: nat) {
    forall i | width <= i < CELL_BITS :: !c[i]
  }

  function Bit(cells: seq<Cell>, b: nat): bool
    requires b < CELL_BITS * |cells|
  {
    cells[b / CELL_BITS][b % CELL_BITS]
  }

  predicate WidthOk(width: nat) {
    1 <= width <= CELL_BITS
  }

  /** Where item k starts, in bits. */
  function Position(k: nat, width: nat): (b: nat) {
    k * width
  }

  lemma PositionNext(k: nat, width: nat)
    ensures Position(k + 1, width) == Position(k, width) + width
  {
  }

  lemma PositionAdd(k: nat, n: nat, width: nat)
    ensures Position(k + n, width) == Position(k, width) + Position(n, width)
  {
  }

  lemma {:induction false} PositionMonotone(k: nat, n: nat, width: nat)
    requires k <= n
    ensures Position(k, width) <= Position(n, width)
  {
    PositionAdd(k, n - k, width);
  }

  /** Bit b of the run belongs to item b / width. */
  lemma ItemOf(k: nat, r: nat, width: nat)
    requires r < width
    ensures (Position(k, width) + r) / width == k && (Position(k, width) + r) % width == r
  {
    hide Position;
    var b := Position(k, width) + r;
    var q := b / width;
    QuotientPosition(b, width);
    if q < k {
      PositionMonotone(q + 1, k, width);
      PositionNext(q, width);
    } else if q > k {
      PositionMonotone(k + 1, q, width);
      PositionNext(k, width);
    }
  }

  lemma QuotientPosition(b: nat, width: nat)
    requires width > 0
    ensures b == Position(b / width, width) + b % width && b % width < width
  {
  }

  /* ---- What a run of items looks like ---- */

  /** Bit b of the buffer once the items have been stored from `start` on. */
  function Want(old': seq<Cell>, start: nat, items: seq<Cell>, width: nat, b: nat): bool
    requires WidthOk(width) && b < CELL_BITS * |old'|
  {
    if start <= b && (b - start) / width < |items| then items[(b - start) / width][(b - start) % width]
    else Bit(old', b)
  }

  lemma WantItem(old': seq<Cell>, start: nat, items: seq<Cell>, width: nat, k: nat, r: nat)
    requires WidthOk(width) && k < |items| && r < width && start + Position(k, width) + r < CELL_BITS * |old'|
    ensures Want(old', start, items, width, start + Position(k, width) + r) == items[k][r]
  {
    ItemOf(k, r, width);
  }

  /** Bits before the run and bits behind it stay. */
  lemma WantElsewhere(old': seq<Cell>, start: nat, items: seq<Cell>, width: nat, b: nat)
    requires WidthOk(width) && b < CELL_BITS * |old'|
    requires b < start || start + Position(|items|, width) <= b
    ensures Want(old', start, items, width, b) == Bit(old', b)
  {
    if start <= b {
      var d := b - start;
      hide Position;
      QuotientPosition(d, width);
      PositionNext(d / width, width);
      if d / width < |items| {
        PositionMonotone(d / width + 1, |items|, width);
      }
    }
  }

  /** The buffer holds exactly the wanted bits. */
  ghost predicate Stored(old': seq<Cell>, new': seq<Cell>, start: nat, items: seq<Cell>, width: nat)
    requires WidthOk(width)
  {
    && |new'| == |old'|
    && forall c, j | 0 <= c < |new'| && 0 <= j < CELL_BITS ::
         new'[c][j] == Want(old', start, items, width, CELL_BITS * c + j)
  }

  /** That determines it. */
  lemma StoredUnique(old': seq<Cell>, p: seq<Cell>, q: seq<Cell>, start: nat, items: seq<Cell>, width: nat)
    requires WidthOk(width) && Stored(old', p, start, items, width) && Stored(old', q, start, items, width)
    ensures p == q
  {
    forall c | 0 <= c < |p| ensures p[c] == q[c] {
      assert forall j | 0 <= j < CELL_BITS :: p[c][j] == q[c][j];
    }
  }

  /* ---- PackedArray_set and PackedArray_get ---- */

  predicate InBuffer(length: nat, offset: nat, count: nat, width: nat) {
    Position(offset + count, width) <= CELL_BITS * length
  }

  lemma StartInBuffer(length: nat, offset: nat, count: nat, width: nat)
    requires InBuffer(length, offset, count, width) && WidthOk(width) && count >= 1
    ensures Position(offset, width) + width <= CELL_BITS * length
    ensures Position(offset, width) / CELL_BITS < length
    ensures width > CELL_BITS - Position(offset, width) % CELL_BITS ==> Position(offset, width) / CELL_BITS + 1 < length
  {
    PositionMonotone(offset + 1, offset + count, width);
    PositionNext(offset, width);
  }

  /** `PackedArray_set`. */
  method Set(a: array<Cell>, offset: nat, item: Cell, width: nat)
    requires WidthOk(width) && InBuffer(a.Length, offset, 1, width) && Fits(item, width)
    modifies a
    ensures Stored(old(a[..]), a[..], Position(offset, width), [item], width)
  {
    StartInBuffer(a.Length, offset, 1, width);
    var start := Position(offset, width);
    var cell, startBit := start / CELL_BITS, start % CELL_BITS;
    var bitsAvailable := CELL_BITS - startBit;
    var mask := Mask(width);
    if width <= bitsAvailable {
      a[cell] := Or(And(a[cell], Not(Shl(mask, startBit))), Shl(item, startBit));
    } else {
      var low, high := Shl(item, startBit), Shr(item, bitsAvailable);
      a[cell] := Or(And(a[cell], Not(Shl(mask, startBit))), low);
      a[cell + 1] := Or(And(a[cell + 1], Not(Shr(mask, CELL_BITS - startBit))), high);
    }
    ghost var was := old(a[..]);
    forall c, j | 0 <= c < a.Length && 0 <= j < CELL_BITS
      ensures a[..][c][j] == Want(was, start, [item], width, CELL_BITS * c + j)
    {
      WantOne(was, start, item, width, CELL_BITS * c + j);
    }
  }

  lemma WantOne(old': seq<Cell>, start: nat, item: Cell, width: nat, b: nat)
    requires WidthOk(width) && b < CELL_BITS * |old'|
    ensures Want(old', start, [item], width, b) == if start <= b < start + width then item[b - start] else Bit(old', b)
  {
    if start <= b {
      if b < start + width {
        ItemOf(0, b - start, width);
      } else {
        WantElsewhere(old', start, [item], width, b);
      }
    }
  }

  /** The item stored at an offset, as its own cell. */
  function ItemAt(cells: seq<Cell>, offset: nat, width: nat): (c: Cell)
    requires WidthOk(width) && InBuffer(|cells|, offset, 1, width)
  {
    PositionNext(offset, width);
    seq(CELL_BITS, i requires 0 <= i < CELL_BITS => i < width && Bit(cells, Position(offset, width) + i))
  }

  /** `PackedArray_get`. */
  method Get(a: array<Cell>, offset: nat, width: nat) returns (item: Cell)
    requires WidthOk(width) && InBuffer(a.Length, offset, 1, width)
    ensures item == ItemAt(a[..], offset, width)
  {
    StartInBuffer(a.Length, offset, 1, width);
    var start := Position(offset, width);
    var cell, startBit := start / CELL_BITS, start % CELL_BITS;
    var bitsAvailable := CELL_BITS - startBit;
    var mask := Mask(width);
    if width <= bitsAvailable {
      item := And(Shr(a[cell], startBit), mask);
    } else {
      var low, high := Shr(a[cell], startBit), Shl(a[cell + 1], CELL_BITS - startBit);
      item := Xor(low, And(Xor(low, high), Shl(Shr(mask, bitsAvailable), bitsAvailable)));
    }
    forall i | 0 <= i < CELL_BITS ensures item[i] == ItemAt(a[..], offset, width)[i] {
      BitAt(a[..], start, i);
    }
  }

  lemma BitAt(cells: seq<Cell>, start: nat, i: nat)
    requires start + i < CELL_BITS * |cells| || start / CELL_BITS < |cells|
    ensures start + i < CELL_BITS * |cells| && i < CELL_BITS ==>
      Bit(cells, start + i) == if start % CELL_BITS + i < CELL_BITS then cells[start / CELL_BITS][start % CELL_BITS + i]
                               else cells[start / CELL_BITS + 1][start % CELL_BITS + i - CELL_BITS]
  {
  }
}
