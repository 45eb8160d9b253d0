/**
  PackedArray_pack and PackedArray_unpack (PackedArray.c:145-190, 204-298): 32 cases, one for
  each place an item can have in its block of 32 items, run through from the case of the
  first item on; then once more, up to the last item.
 */
module PackedRun {
  import opened PackedArray

  const CASES := 32

  /** The bit of the cell at which case i writes its item. */
  function CaseStartBit(i: nat, width: nat): (b: nat)
    ensures b < CELL_BITS
  {
    Position(i, width) % CELL_BITS
  }

  /** Case i is the right one for item k of the buffer. */
  lemma CaseFits(k: nat, i: nat, width: nat)
    requires k % CASES == i % CASES && WidthOk(width)
    ensures Position(k, width) % CELL_BITS == CaseStartBit(i, width)
  {
    WholeBlocks(k, width);
    WholeBlocks(i, width);
  }

  lemma WholeBlocks(k: nat, width: nat)
    ensures Position(k, width) % CELL_BITS == Position(k % CASES, width) % CELL_BITS
  {
    var q := k / CASES;
    PositionAdd(CASES * q, k % CASES, width);
    BlockPosition(q, width);
    ModuloShift(Position(q, width), Position(k % CASES, width));
  }

  lemma BlockPosition(q: nat, width: nat)
    ensures Position(CASES * q, width) == CELL_BITS * Position(q, width)
  {
  }

  lemma ModuloShift(q: nat, r: nat)
    ensures (CELL_BITS * q + r) % CELL_BITS == r % CELL_BITS
  {
  }

  /** The last case of a block ends with its cell. */
  lemma LastCaseEnds(width: nat)
    requires WidthOk(width)
    ensures CaseStartBit(CASES - 1, width) + width == CELL_BITS
  {
    assert Position(CASES - 1, width) == CELL_BITS * (width - 1) + (CELL_BITS - width);
    ModuloShift(width - 1, CELL_BITS - width);
  }

  /* ---- Packing ---- */

  datatype Job = Job(was: seq<Cell>, offset: nat, items: seq<Cell>, width: nat)

  ghost predicate JobOk(job: Job) {
    && WidthOk(job.width) && InBuffer(|job.was|, job.offset, |job.items|, job.width)
    && forall k | 0 <= k < |job.items| :: Fits(job.items[k], job.width)
  }

  /** Bit position reached after `done` items. */
  function Reached(job: Job, done: nat): nat {
    Position(job.offset + done, job.width)
  }

  function WantBit(job: Job, b: nat): bool
    requires WidthOk(job.width) && b < CELL_BITS * |job.was|
  {
    Want(job.was, Position(job.offset, job.width), job.items, job.width, b)
  }

  /** Cells before `out` are final, those from it on untouched; `packed` is the low part of cell `out`. */
  ghost predicate Packing(job: Job, cells: seq<Cell>, done: nat, out: nat, packed: Cell) {
    && JobOk(job) && |cells| == |job.was| && done <= |job.items|
    && out == Reached(job, done) / CELL_BITS && Reached(job, done) <= CELL_BITS * |cells|
    && (forall c, j | 0 <= c < out && 0 <= j < CELL_BITS :: cells[c][j] == WantBit(job, CELL_BITS * c + j))
    && (forall c | out <= c < |cells| :: cells[c] == job.was[c])
    && (forall j | 0 <= j < CELL_BITS ::
          packed[j] == (j < Reached(job, done) % CELL_BITS && WantBit(job, CELL_BITS * out + j)))
  }

  lemma ReachedNext(job: Job, done: nat)
    requires JobOk(job) && done < |job.items|
    ensures Reached(job, done + 1) == Reached(job, done) + job.width
    ensures Reached(job, done + 1) <= CELL_BITS * |job.was|
    ensures Reached(job, done) == Position(job.offset, job.width) + Position(done, job.width)
  {
    PositionNext(job.offset + done, job.width);
    PositionMonotone(job.offset + done + 1, job.offset + |job.items|, job.width);
    PositionAdd(job.offset, done, job.width);
  }

  /** The next `width` wanted bits are the next item. */
  lemma NextBits(job: Job, done: nat)
    requires JobOk(job) && done < |job.items|
    ensures Reached(job, done) + job.width <= CELL_BITS * |job.was|
    ensures forall r: nat | r < job.width :: WantBit(job, Reached(job, done) + r) == job.items[done][r]
  {
    ReachedNext(job, done);
    forall r: nat | r < job.width ensures WantBit(job, Reached(job, done) + r) == job.items[done][r] {
      WantItem(job.was, Position(job.offset, job.width), job.items, job.width, done, r);
    }
  }

  /** One case: the item fits the rest of the cell and leaves room. */
  lemma CaseInside(job: Job, cells: seq<Cell>, done: nat, out: nat, packed: Cell)
    requires Packing(job, cells, done, out, packed) && done < |job.items|
    requires Reached(job, done) % CELL_BITS + job.width < CELL_BITS
    ensures Packing(job, cells, done + 1, out, Or(packed, Shl(job.items[done], Reached(job, done) % CELL_BITS)))
  {
    hide Position, WantBit, Want, Reached;
    ReachedNext(job, done);
    NextBits(job, done);
    var s := Reached(job, done) % CELL_BITS;
    var packed' := Or(packed, Shl(job.items[done], s));
    forall j | 0 <= j < CELL_BITS
      ensures packed'[j] == (j < s + job.width && WantBit(job, CELL_BITS * out + j))
    {
      if s <= j < s + job.width {
        assert WantBit(job, Reached(job, done) + (j - s)) == job.items[done][j - s];
      }
    }
  }

  /** One case: the item reaches the end of the cell or beyond. */
  lemma CaseAcross(job: Job, cells: seq<Cell>, done: nat, out: nat, packed: Cell)
    requires Packing(job, cells, done, out, packed) && done < |job.items|
    requires Reached(job, done) % CELL_BITS + job.width >= CELL_BITS
    ensures out < |cells|
    ensures var s := Reached(job, done) % CELL_BITS;
      Packing(job, cells[out := Or(packed, Shl(job.items[done], s))], done + 1, out + 1,
              Shr(job.items[done], CELL_BITS - s))
  {
    hide Position, WantBit, Want, Reached;
    ReachedNext(job, done);
    NextBits(job, done);
    var s, item := Reached(job, done) % CELL_BITS, job.items[done];
    var full, packed' := Or(packed, Shl(item, s)), Shr(item, CELL_BITS - s);
    forall j | 0 <= j < CELL_BITS ensures full[j] == WantBit(job, CELL_BITS * out + j) {
      if s <= j {
        assert WantBit(job, Reached(job, done) + (j - s)) == item[j - s];
      }
    }
    forall j | 0 <= j < CELL_BITS
      ensures packed'[j] == (j < s + job.width - CELL_BITS && WantBit(job, CELL_BITS * (out + 1) + j))
    {
      if j < s + job.width - CELL_BITS {
        assert WantBit(job, Reached(job, done) + (j + CELL_BITS - s)) == item[j + CELL_BITS - s];
      }
    }
  }

  /** The code of case i. */
  method PackCase(a: array<Cell>, i: nat, ghost job: Job, item: Cell, width: nat, ghost done: nat, out: nat,
      packed: Cell)
    returns (out': nat, packed': Cell)
    requires width == job.width && Packing(job, a[..], done, out, packed) && done < |job.items|
    requires item == job.items[done]
    requires i < CASES && (job.offset + done) % CASES == i
    modifies a
    ensures Packing(job, a[..], done + 1, out', packed')
  {
    hide Packing, Reached, Position;
    PackingFacts(job, a[..], done, out, packed);
    CaseFits(job.offset + done, i, width);
    ghost var before := a[..];
    var startBit := CaseStartBit(i, width);
    var bitsAvailable := CELL_BITS - startBit;
    StartBitIs(job, done, i);
    out', packed' := out, packed;
    if width <= bitsAvailable {
      packed' := Or(packed', Shl(item, startBit));
      if width == bitsAvailable {
        CaseAcross(job, before, done, out, packed);
        NothingLeft(item, width);
        a[out'] := packed';
        assert a[..] == before[out := packed'];
        out', packed' := out' + 1, ZERO;
      } else {
        CaseInside(job, before, done, out, packed);
      }
    } else {
      CaseAcross(job, before, done, out, packed);
      a[out'] := Or(packed', Shl(item, startBit));
      assert a[..] == before[out := Or(packed, Shl(item, startBit))];
      out', packed' := out' + 1, Shr(item, bitsAvailable);
    }
  }

  lemma StartBitIs(job: Job, done: nat, i: nat)
    requires Position(job.offset + done, job.width) % CELL_BITS == CaseStartBit(i, job.width)
    ensures Reached(job, done) % CELL_BITS == CaseStartBit(i, job.width)
  {
  }

  lemma PackingFacts(job: Job, cells: seq<Cell>, done: nat, out: nat, packed: Cell)
    requires Packing(job, cells, done, out, packed)
    ensures JobOk(job) && |cells| == |job.was| && done <= |job.items|
    ensures done < |job.items| ==> Fits(job.items[done], job.width)
  {
  }

  /** Shifting an item past its width leaves nothing. */
  lemma NothingLeft(item: Cell, width: nat)
    requires Fits(item, width) && width <= CELL_BITS
    ensures Shr(item, width) == ZERO
  {
  }

  /** All cases from `first` on. */
  method PackBlock(a: array<Cell>, ghost job: Job, items: seq<Cell>, width: nat, first: nat, start: nat,
      out: nat, packed: Cell)
    returns (done: nat, out': nat, packed': Cell)
    requires width == job.width && items == job.items && Packing(job, a[..], start, out, packed)
    requires first < CASES && (job.offset + start) % CASES == first && start + (CASES - first) <= |items|
    modifies a
    ensures done == start + (CASES - first) && Packing(job, a[..], done, out', packed')
  {
    hide Packing;
    done, out', packed' := start, out, packed;
    for i := first to CASES
      invariant done == start + (i - first) <= |items| && Packing(job, a[..], done, out', packed')
      invariant i < CASES ==> (job.offset + done) % CASES == i
    {
      out', packed' := PackCase(a, i, job, items[done], width, done, out', packed');
      done := done + 1;
    }
  }

  /** The do-while over whole blocks. */
  method PackBlocks(a: array<Cell>, ghost job: Job, items: seq<Cell>, width: nat, first: nat, blocks: nat,
      out: nat, packed: Cell)
    returns (done: nat, out': nat, packed': Cell)
    requires width == job.width && items == job.items && Packing(job, a[..], 0, out, packed)
    requires blocks > 0 && job.offset % CASES == first && CASES * blocks - first <= |items|
    modifies a
    ensures done == CASES * blocks - first && Packing(job, a[..], done, out', packed')
    ensures (job.offset + done) % CASES == 0
  {
    hide Packing, Position, Reached;
    var i, n := first, blocks;
    done, out', packed' := 0, out, packed;
    while n > 0
      invariant 0 <= n <= blocks && 0 <= i < CASES && done == CASES * (blocks - n) - first + i
      invariant (job.offset + done) % CASES == i && (n < blocks ==> i == 0)
      invariant Packing(job, a[..], done, out', packed')
    {
      done, out', packed' := PackBlock(a, job, items, width, i, done, out', packed');
      i, n := 0, n - 1;
    }
  }

  /** The last pass, which stops at the end of the input, and the cell it leaves half filled. */
  method PackTail(a: array<Cell>, ghost job: Job, items: seq<Cell>, width: nat, first: nat, start: nat, startBit: nat,
      out: nat, packed: Cell)
    requires width == job.width && items == job.items && Packing(job, a[..], start, out, packed)
    requires start < |items| && first + (|items| - start) < CASES && (job.offset + start) % CASES == first
    requires TailStarts(job, start, startBit)
    modifies a
    ensures Stored(job.was, a[..], Position(job.offset, width), items, width)
  {
    hide Packing, Want, Position, Reached, TailStarts, Stored, Fits;
    var done, i, out', packed' := start, first, out, packed;
    var count := |items| - start;
    PackingFacts(job, a[..], start, out, packed);
    while i < CASES
      invariant 0 <= i && start <= done < |items| && i + (|items| - done) < CASES
      invariant (job.offset + done) % CASES == i && out' >= 0 && Packing(job, a[..], done, out', packed')
    {
      out', packed' := PackCase(a, i, job, items[done], width, done, out', packed');
      done := done + 1;
      if done == |items| {
        break;
      }
      i := i + 1;
    }
    assert done == |items|;
    TailEnds(job, start, startBit, count, done);
    if (Position(count, width) + startBit) % CELL_BITS != 0 {
      var used := (Position(count, width) + startBit - 1) % CELL_BITS + 1;
      PartialCell(job, a[..], done, out', packed');
      ghost var before := a[..];
      a[out'] := Or(packed', And(a[out'], Not(Mask(used))));
      assert a[..] == before[out' := Or(packed', And(before[out'], Not(Mask(used))))];
    } else {
      BlockEnds(job, a[..], done, out', packed');
    }
  }

  /** `PackedArray_pack`: exactly the bits of the run change, and they become the items. */
  method Pack(a: array<Cell>, offset: nat, items: seq<Cell>, width: nat)
    requires WidthOk(width) && items != [] && InBuffer(a.Length, offset, |items|, width)
    requires forall k | 0 <= k < |items| :: Fits(items[k], width)
    modifies a
    ensures Stored(old(a[..]), a[..], Position(offset, width), items, width)
  {
    hide Packing, Want, Position, Reached, Stored, TailStarts, Fits;
    ghost var job := Job(a[..], offset, items, width);
    StartInBuffer(a.Length, offset, |items|, width);
    var out := Position(offset, width) / CELL_BITS;
    var startBit := Position(offset, width) % CELL_BITS;
    var packed := And(a[out], Mask(startBit));
    PackingStarts(job, out, packed);
    var done: nat, count, i := 0, |items|, offset % CASES;
    if count >= CASES - i {
      var n := (count + i) / CASES;
      count := count - (CASES * n - i);
      done, out, packed := PackBlocks(a, job, items, width, i, n, out, packed);
      if count == 0 {
        BlockEnds(job, a[..], done, out, packed);
        return;
      }
      i, startBit := 0, 0;
    }
    TailBits(job, done, startBit, i);
    PackTail(a, job, items, width, i, done, startBit, out, packed);
  }

  lemma PackingStarts(job: Job, out: nat, packed: Cell)
    requires JobOk(job) && job.items != []
    requires out == Position(job.offset, job.width) / CELL_BITS < |job.was|
    requires packed == And(job.was[out], Mask(Position(job.offset, job.width) % CELL_BITS))
    ensures Packing(job, job.was, 0, out, packed)
  {
    hide Position, Want;
    PositionMonotone(job.offset, job.offset + |job.items|, job.width);
    forall c, j | 0 <= c <= out && 0 <= j < CELL_BITS && CELL_BITS * c + j < Position(job.offset, job.width)
      ensures WantBit(job, CELL_BITS * c + j) == job.was[c][j]
    {
      WantElsewhere(job.was, Position(job.offset, job.width), job.items, job.width, CELL_BITS * c + j);
      CellBit(job.was, c, j);
    }
  }

  lemma CellBit(cells: seq<Cell>, c: nat, j: nat)
    requires c < |cells| && j < CELL_BITS
    ensures Bit(cells, CELL_BITS * c + j) == cells[c][j]
  {
  }

  /** Behind the run the buffer is as it was. */
  lemma BehindRun(job: Job, c: nat, j: nat)
    requires JobOk(job) && c < |job.was| && j < CELL_BITS && Reached(job, |job.items|) <= CELL_BITS * c + j
    ensures WantBit(job, CELL_BITS * c + j) == job.was[c][j]
  {
    PositionAdd(job.offset, |job.items|, job.width);
    WantElsewhere(job.was, Position(job.offset, job.width), job.items, job.width, CELL_BITS * c + j);
    CellBit(job.was, c, j);
  }

  /** The run ends with a cell. */
  lemma BlockEnds(job: Job, cells: seq<Cell>, done: nat, out: nat, packed: Cell)
    requires Packing(job, cells, done, out, packed) && done == |job.items|
    requires Position(job.offset + done, job.width) % CELL_BITS == 0 || (job.offset + done) % CASES == 0
    ensures Stored(job.was, cells, Position(job.offset, job.width), job.items, job.width)
  {
    hide Position, Want;
    if (job.offset + done) % CASES == 0 {
      CaseFits(job.offset + done, 0, job.width);
      ZeroPosition(job.width);
    }
    forall c, j | 0 <= c < |cells| && 0 <= j < CELL_BITS ensures cells[c][j] == WantBit(job, CELL_BITS * c + j) {
      if out <= c {
        BehindRun(job, c, j);
      }
    }
  }

  lemma ZeroPosition(width: nat)
    ensures Position(0, width) == 0
  {
  }

  /** The run ends inside a cell, whose upper bits are kept. */
  lemma PartialCell(job: Job, cells: seq<Cell>, done: nat, out: nat, packed: Cell)
    requires Packing(job, cells, done, out, packed) && done == |job.items|
    requires Position(job.offset + done, job.width) % CELL_BITS != 0
    ensures out < |cells|
    ensures var used := Position(job.offset + done, job.width) % CELL_BITS;
      Stored(job.was, cells[out := Or(packed, And(cells[out], Not(Mask(used))))],
             Position(job.offset, job.width), job.items, job.width)
  {
    hide Position, Want;
    var used := Position(job.offset + done, job.width) % CELL_BITS;
    var cells' := cells[out := Or(packed, And(cells[out], Not(Mask(used))))];
    forall c, j | 0 <= c < |cells| && 0 <= j < CELL_BITS ensures cells'[c][j] == WantBit(job, CELL_BITS * c + j) {
      if out < c || (out == c && used <= j) {
        BehindRun(job, c, j);
      }
    }
  }

  /** At the start of the last pass `startBit` is the bit reached. */
  ghost predicate TailStarts(job: Job, tail: nat, startBit: nat) {
    Position(job.offset + tail, job.width) % CELL_BITS == startBit
  }

  lemma TailBits(job: Job, tail: nat, startBit: nat, i: nat)
    requires WidthOk(job.width) && (job.offset + tail) % CASES == i
    requires (tail == 0 && startBit == Position(job.offset, job.width) % CELL_BITS) || (i == 0 && startBit == 0)
    ensures TailStarts(job, tail, startBit)
  {
    if tail != 0 || startBit != Position(job.offset, job.width) % CELL_BITS {
      CaseFits(job.offset + tail, 0, job.width);
      ZeroPosition(job.width);
    }
  }

  lemma TailEnds(job: Job, tail: nat, startBit: nat, count: nat, done: nat)
    requires WidthOk(job.width) && TailStarts(job, tail, startBit) && done == tail + count && count > 0
    ensures (Position(count, job.width) + startBit) % CELL_BITS == Position(job.offset + done, job.width) % CELL_BITS
    ensures Position(count, job.width) + startBit >= 1
    ensures (Position(count, job.width) + startBit) % CELL_BITS != 0 ==>
      (Position(count, job.width) + startBit - 1) % CELL_BITS + 1 == Position(job.offset + done, job.width) % CELL_BITS
  {
    hide Position;
    PositionAdd(job.offset + tail, count, job.width);
    PositionMonotone(1, count, job.width);
    PositionNext(0, job.width);
    var p := Position(job.offset + tail, job.width);
    assert p == CELL_BITS * (p / CELL_BITS) + startBit;
    ModuloShift(p / CELL_BITS, startBit + Position(count, job.width));
    if (Position(count, job.width) + startBit) % CELL_BITS != 0 {
      LessOne(Position(count, job.width) + startBit);
    }
  }

  lemma LessOne(x: nat)
    requires x % CELL_BITS != 0
    ensures (x - 1) % CELL_BITS + 1 == x % CELL_BITS
  {
  }

  /* ---- Unpacking ---- */

  /** The item that starts in `packed` at the case's bit, with the next cell when it spans two. */
  lemma CaseItem(cells: seq<Cell>, k: nat, cell: nat, startBit: nat, width: nat)
    requires WidthOk(width) && InBuffer(|cells|, k, 1, width)
    requires cell == Position(k, width) / CELL_BITS && startBit == Position(k, width) % CELL_BITS
    ensures cell < |cells|
    ensures startBit + width <= CELL_BITS ==> ItemAt(cells, k, width) == And(Shr(cells[cell], startBit), Mask(width))
    ensures startBit + width > CELL_BITS ==>
      cell + 1 < |cells|
      && ItemAt(cells, k, width)
         == And(Or(Shr(cells[cell], startBit), Shl(cells[cell + 1], CELL_BITS - startBit)), Mask(width))
  {
    StartInBuffer(|cells|, k, 1, width);
    var start := Position(k, width);
    PositionNext(k, width);
    var item := ItemAt(cells, k, width);
    forall i | 0 <= i < CELL_BITS && i < width
      ensures item[i]
           == if startBit + i < CELL_BITS then cells[cell][startBit + i] else cells[cell + 1][startBit + i - CELL_BITS]
    {
      BitAt(cells, start, i);
    }
  }

  /** Where the reader stands before item k: in the cell the item starts in. */
  predicate ReaderAt(cells: seq<Cell>, k: nat, width: nat, cell: nat, packed: Cell) {
    cell == Position(k, width) / CELL_BITS && cell < |cells| && packed == cells[cell]
  }

  /** The code of case i; `stop` breaks off after the item, before moving on to the next cell. */
  method UnpackCase(a: array<Cell>, i: nat, k: nat, width: nat, stop: bool, cell: nat, packed: Cell)
    returns (item: Cell, cell': nat, packed': Cell)
    requires WidthOk(width) && i < CASES && k % CASES == i && InBuffer(a.Length, k, 1, width)
    requires ReaderAt(a[..], k, width, cell, packed)
      && (!stop ==> i == CASES - 1 || InBuffer(a.Length, k + 1, 1, width))
    ensures item == ItemAt(a[..], k, width)
    ensures !stop && i < CASES - 1 ==> ReaderAt(a[..], k + 1, width, cell', packed')
    ensures !stop && i == CASES - 1 ==> cell' + 1 == Position(k + 1, width) / CELL_BITS
  {
    hide Position, ItemAt, CaseStartBit;
    CaseFits(k, i, width);
    var startBit := CaseStartBit(i, width);
    var bitsAvailable := CELL_BITS - startBit;
    CaseItem(a[..], k, cell, startBit, width);
    PositionNext(k, width);
    if i == CASES - 1 {
      LastCaseEnds(width);
    } else if !stop {
      StartInBuffer(a.Length, k + 1, 1, width);
    }
    cell', packed' := cell, packed;
    if width <= bitsAvailable {
      item := And(Shr(packed', startBit), Mask(width));
      if stop {
        return;
      }
      if i < CASES - 1 && width == bitsAvailable {
        cell' := cell' + 1;
        packed' := a[cell'];
      }
    } else {
      var low := Shr(packed', startBit);
      cell' := cell' + 1;
      packed' := a[cell'];
      var high := Shl(packed', bitsAvailable);
      item := And(Or(low, high), Mask(width));
    }
  }

  lemma ItemsInBuffer(length: nat, offset: nat, count: nat, width: nat, k: nat)
    requires InBuffer(length, offset, count, width) && k < count
    ensures InBuffer(length, offset + k, 1, width)
  {
    PositionMonotone(offset + k + 1, offset + count, width);
  }

  /** Item k of the result is what `PackedArray_get` finds. */
  ghost predicate IsItem(cells: seq<Cell>, offset: nat, width: nat, items: seq<Cell>, k: nat)
    requires WidthOk(width)
  {
    k < |items| && InBuffer(|cells|, offset + k, 1, width) && items[k] == ItemAt(cells, offset + k, width)
  }

  ghost predicate Unpacked(cells: seq<Cell>, offset: nat, count: nat, width: nat, items: seq<Cell>, done: nat) {
    && WidthOk(width) && InBuffer(|cells|, offset, count, width) && done <= |items| && done <= count
    && forall k: nat | k < done :: IsItem(cells, offset, width, items, k)
  }

  lemma UnpackedFacts(cells: seq<Cell>, offset: nat, count: nat, width: nat, items: seq<Cell>, done: nat)
    requires Unpacked(cells, offset, count, width, items, done)
    ensures WidthOk(width) && InBuffer(|cells|, offset, count, width)
  {
  }

  lemma UnpackedNext(cells: seq<Cell>, offset: nat, count: nat, width: nat, items: seq<Cell>, done: nat, item: Cell)
    requires Unpacked(cells, offset, count, width, items, done) && done < |items| && done < count
    requires InBuffer(|cells|, offset + done, 1, width) && item == ItemAt(cells, offset + done, width)
    ensures Unpacked(cells, offset, count, width, items[done := item], done + 1)
  {
    hide ItemAt, Position;
    var items' := items[done := item];
    forall k: nat | k < done + 1 ensures IsItem(cells, offset, width, items', k) {
      assert k < done ==> IsItem(cells, offset, width, items, k);
    }
  }

  /** One block: the reader enters it at the cell of its first item, or just before it. */
  method UnpackBlock(a: array<Cell>, out: array<Cell>, offset: nat, count: nat, width: nat, first: nat, start: nat,
      cell: nat, packed: Cell)
    returns (done: nat, cell': nat)
    requires a != out && count <= out.Length && Unpacked(a[..], offset, count, width, out[..], start)
    requires first < CASES && (offset + start) % CASES == first && start + (CASES - first) <= count
    requires ReaderAt(a[..], offset + start, width, cell, packed)
    modifies out
    ensures done == start + (CASES - first) && Unpacked(a[..], offset, count, width, out[..], done)
    ensures cell' + 1 == Position(offset + done, width) / CELL_BITS
    ensures forall k | count <= k < out.Length :: out[k] == old(out[k])
  {
    hide ItemAt, Position, Unpacked;
    var packed' := packed;
    UnpackedFacts(a[..], offset, count, width, out[..], start);
    done, cell' := start, cell;
    for i := first to CASES
      invariant done == start + (i - first) <= count && (i < CASES ==> (offset + done) % CASES == i)
      invariant Unpacked(a[..], offset, count, width, out[..], done)
      invariant i < CASES ==> ReaderAt(a[..], offset + done, width, cell', packed')
      invariant i == CASES ==> cell' + 1 == Position(offset + done, width) / CELL_BITS
      invariant forall k | count <= k < out.Length :: out[k] == old(out[k])
    {
      ItemsInBuffer(a.Length, offset, count, width, done);
      if i < CASES - 1 {
        ItemsInBuffer(a.Length, offset, count, width, done + 1);
      }
      var item, c, p := UnpackCase(a, i, offset + done, width, false, cell', packed');
      UnpackedNext(a[..], offset, count, width, out[..], done, item);
      ghost var before := out[..];
      out[done] := item;
      assert out[..] == before[done := item];
      cell', packed' := c, p;
      done := done + 1;
    }
  }

  /** `PackedArray_unpack`: a run of `PackedArray_get`. */
  method Unpack(a: array<Cell>, offset: nat, out: array<Cell>, count: nat, width: nat)
    requires a != out && WidthOk(width) && 1 <= count <= out.Length && InBuffer(a.Length, offset, count, width)
    modifies out
    ensures Unpacked(a[..], offset, count, width, out[..], count)
    ensures forall k | count <= k < out.Length :: out[k] == old(out[k])
  {
    hide ItemAt, Position;
    StartInBuffer(a.Length, offset, count, width);
    var cell: nat := Position(offset, width) / CELL_BITS;
    var packed := a[cell];
    var done: nat, left, i := 0, count, offset % CASES;
    if left >= CASES - i {
      var n := (left + i) / CASES;
      left := left - (CASES * n - i);
      var blocks, first := n, i;
      while n > 0
        invariant 0 <= n <= blocks && 0 <= i < CASES && done == CASES * (blocks - n) - first + i
        invariant done >= 0 && (offset + done) % CASES == i && (n < blocks ==> i == 0)
        invariant n == blocks ==> ReaderAt(a[..], offset + done, width, cell, packed)
        invariant n < blocks ==> cell + 1 == Position(offset + done, width) / CELL_BITS
        invariant Unpacked(a[..], offset, count, width, out[..], done)
        invariant forall k | count <= k < out.Length :: out[k] == old(out[k])
      {
        if n < blocks {
          ItemsInBuffer(a.Length, offset, count, width, done);
          StartInBuffer(a.Length, offset + done, 1, width);
          cell := cell + 1;
          packed := a[cell];
        }
        done, cell := UnpackBlock(a, out, offset, count, width, i, done, cell, packed);
        i, n := 0, n - 1;
      }
      if left == 0 {
        return;
      }
      ItemsInBuffer(a.Length, offset, count, width, done);
      StartInBuffer(a.Length, offset + done, 1, width);
      cell := cell + 1;
      packed := a[cell];
      i := 0;
    }
    UnpackTail(a, out, offset, count, width, i, done, cell, packed);
  }

  /** The last pass, which breaks off after the last item. */
  method UnpackTail(a: array<Cell>, out: array<Cell>, offset: nat, count: nat, width: nat, first: nat, start: nat,
      cell: nat, packed: Cell)
    requires a != out && count <= out.Length && Unpacked(a[..], offset, count, width, out[..], start)
    requires start < count && first + (count - start) < CASES && (offset + start) % CASES == first
    requires ReaderAt(a[..], offset + start, width, cell, packed)
    modifies out
    ensures Unpacked(a[..], offset, count, width, out[..], count)
    ensures forall k | count <= k < out.Length :: out[k] == old(out[k])
  {
    hide ItemAt, Position, Unpacked;
    UnpackedFacts(a[..], offset, count, width, out[..], start);
    var done, i, cell', packed' := start, first, cell, packed;
    while i < CASES
      invariant 0 <= i && start <= done < count && i + (count - done) < CASES && (offset + done) % CASES == i
      invariant cell' >= 0 && ReaderAt(a[..], offset + done, width, cell', packed')
      invariant Unpacked(a[..], offset, count, width, out[..], done)
      invariant forall k | count <= k < out.Length :: out[k] == old(out[k])
    {
      ItemsInBuffer(a.Length, offset, count, width, done);
      if done + 1 < count {
        ItemsInBuffer(a.Length, offset, count, width, done + 1);
      }
      var item, c, p := UnpackCase(a, i, offset + done, width, done + 1 == count, cell', packed');
      UnpackedNext(a[..], offset, count, width, out[..], done, item);
      ghost var before := out[..];
      out[done] := item;
      assert out[..] == before[done := item];
      done := done + 1;
      if done == count {
        break;
      }
      cell', packed' := c, p;
      i := i + 1;
    }
    assert done == count;
  }

  /* ---- Laws ---- */

  /** What pack stores at an offset is what get finds there. */
  lemma StoredItem(was: seq<Cell>, cells: seq<Cell>, offset: nat, items: seq<Cell>, width: nat, k: nat)
    requires WidthOk(width) && InBuffer(|was|, offset, |items|, width) && k < |items| && Fits(items[k], width)
    requires Stored(was, cells, Position(offset, width), items, width)
    ensures InBuffer(|cells|, offset + k, 1, width) && ItemAt(cells, offset + k, width) == items[k]
  {
    hide Position, Want;
    ItemsInBuffer(|was|, offset, |items|, width, k);
    PositionAdd(offset, k, width);
    PositionNext(offset + k, width);
    forall r: nat | r < CELL_BITS ensures ItemAt(cells, offset + k, width)[r] == items[k][r] {
      if r < width {
        WantItem(was, Position(offset, width), items, width, k, r);
        var b := Position(offset + k, width) + r;
        assert Bit(cells, b) == cells[b / CELL_BITS][b % CELL_BITS];
      }
    }
  }

  /** No bit outside the packed range changes. */
  lemma StoredFrame(was: seq<Cell>, cells: seq<Cell>, start: nat, items: seq<Cell>, width: nat, b: nat)
    requires WidthOk(width) && Stored(was, cells, start, items, width) && b < CELL_BITS * |was|
    requires b < start || start + Position(|items|, width) <= b
    ensures Bit(cells, b) == Bit(was, b)
  {
    hide Position, Want;
    WantElsewhere(was, start, items, width, b);
    assert cells[b / CELL_BITS][b % CELL_BITS]
      == Want(was, start, items, width, CELL_BITS * (b / CELL_BITS) + b % CELL_BITS);
  }

  /** Storing one more item after a run is storing the longer run. */
  lemma StoredNext(p: seq<Cell>, q: seq<Cell>, r: seq<Cell>, offset: nat, items: seq<Cell>, k: nat, width: nat)
    requires WidthOk(width) && k < |items| && Stored(p, q, Position(offset, width), items[..k], width)
    requires Stored(q, r, Position(offset + k, width), [items[k]], width)
    ensures Stored(p, r, Position(offset, width), items[..k + 1], width)
  {
    hide Position, Want;
    forall c, j | 0 <= c < |r| && 0 <= j < CELL_BITS
      ensures r[c][j] == Want(p, Position(offset, width), items[..k + 1], width, CELL_BITS * c + j)
    {
      var b := CELL_BITS * c + j;
      WantOne(q, Position(offset + k, width), items[k], width, b);
      CellBit(q, c, j);
      WantLonger(p, offset, items, k, width, b);
    }
  }

  lemma WantLonger(p: seq<Cell>, offset: nat, items: seq<Cell>, k: nat, width: nat, b: nat)
    requires WidthOk(width) && k < |items| && b < CELL_BITS * |p|
    ensures var at := Position(offset + k, width);
      Want(p, Position(offset, width), items[..k + 1], width, b)
      == if at <= b < at + width then items[k][b - at] else Want(p, Position(offset, width), items[..k], width, b)
  {
    var start := Position(offset, width);
    PositionAdd(offset, k, width);
    if start <= b {
      var q := (b - start) / width;
      QuotientPosition(b - start, width);
      if q < k {
        PositionMonotone(q + 1, k, width);
        PositionNext(q, width);
      } else if q > k {
        PositionMonotone(k + 1, q, width);
        PositionNext(k, width);
      }
    } else {
      PositionMonotone(offset, offset + k, width);
    }
  }

  /** A run of `PackedArray_set` stores what `PackedArray_pack` does. */
  method SetRun(a: array<Cell>, offset: nat, items: seq<Cell>, width: nat)
    requires WidthOk(width) && InBuffer(a.Length, offset, |items|, width)
    requires forall k | 0 <= k < |items| :: Fits(items[k], width)
    modifies a
    ensures Stored(old(a[..]), a[..], Position(offset, width), items, width)
  {
    hide Want, Position, Stored;
    ghost var was := a[..];
    StoredNothing(was, Position(offset, width), width);
    assert items[..0] == [];
    for k := 0 to |items|
      invariant Stored(was, a[..], Position(offset, width), items[..k], width)
    {
      ItemsInBuffer(a.Length, offset, |items|, width, k);
      ghost var before := a[..];
      Set(a, offset + k, items[k], width);
      StoredNext(was, before, a[..], offset, items, k, width);
    }
    assert items[..|items|] == items;
  }

  lemma StoredNothing(was: seq<Cell>, start: nat, width: nat)
    requires WidthOk(width)
    ensures Stored(was, was, start, [], width)
  {
    forall c, j | 0 <= c < |was| && 0 <= j < CELL_BITS
      ensures was[c][j] == Want(was, start, [], width, CELL_BITS * c + j)
    {
      CellBit(was, c, j);
    }
  }

  /** Unpack after pack is the identity on the items. */
  method RoundTrip(a: array<Cell>, offset: nat, items: seq<Cell>, width: nat, out: array<Cell>)
    requires a != out && WidthOk(width) && items != [] && |items| == out.Length
    requires InBuffer(a.Length, offset, |items|, width) && forall k | 0 <= k < |items| :: Fits(items[k], width)
    modifies a, out
    ensures out[..] == items
  {
    hide Stored, Position, Want, ItemAt;
    ghost var was := a[..];
    Pack(a, offset, items, width);
    Unpack(a, offset, out, |items|, width);
    forall k | 0 <= k < |items| ensures out[k] == items[k] {
      StoredItem(was, a[..], offset, items, width, k);
      assert IsItem(a[..], offset, width, out[..], k);
    }
  }
}
