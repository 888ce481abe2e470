/** Layout of a finished struct chain, as pure values.

    A record is the byte image of one Vulkan-style struct.  Every record starts
    with a header `{ type; next_ptr }`; the chain mechanism never reads the type
    tag and only ever writes the `next_ptr` slot.  The header layout is assumed
    to be that of a 64-bit `VkStructHeader` (a 4-byte tag padded to 8, then an
    8-byte pointer), so the forward link occupies bytes [8, 16) of every record.

    Addresses are kept relative to the base of the buffer they point into: a
    cell of a finished buffer is either a plain byte or byte `index` of the
    address "base + target".  A null pointer is eight zero bytes. */
module ChainLayout {

  /** A pointer value: `nullptr`, or the address "base + offset" of a byte
      of the buffer it points into. */
  datatype Pointer = Nullptr | Into(offset: nat)

  /** `uint32_t`, the width of `StructID` and of the builder's byte total. */
  newtype uint32 = x: int | 0 <= x < 0x1_0000_0000

  const U32: nat := 0x1_0000_0000

  /** Position and width of `next_ptr` inside the record header. */
  const LinkOffset: nat := 8
  const PointerSize: nat := 8
  const HeaderSize: nat := LinkOffset + PointerSize

  /** `uint8_t`. */
  newtype byte = x: int | 0 <= x < 0x100

  type Bytes = seq<byte>

  /** One byte of a finished buffer. */
  datatype Cell = Byte(value: byte) | AddrByte(target: nat, index: nat)

  /** What a consumer reads from a record's `next_ptr` slot. */
  datatype Link = Null | Next(offset: nat) | Unknown

  /** A record image that has room for the common header. */
  predicate HasHeader(r: Bytes) {
    |r| >= HeaderSize
  }

  /** The record's `next_ptr` is `nullptr`. */
  predicate HasNullLink(r: Bytes)
    requires HasHeader(r)
  {
    forall k :: LinkOffset <= k < HeaderSize ==> r[k] == 0
  }

  /** A record the builder accepts: it has a header and its forward link is unset. */
  predicate Appendable(r: Bytes) {
    HasHeader(r) && HasNullLink(r)
  }

  /** The eight bytes of a null pointer. */
  function NullCells(): seq<Cell> {
    seq(PointerSize, _ => Byte(0))
  }

  /** The eight bytes of the address "base + target". */
  function AddrCells(target: nat): seq<Cell> {
    seq(PointerSize, k requires 0 <= k < PointerSize => AddrByte(target, k))
  }

  /** Decodes the `next_ptr` slot of the record whose image starts `view`. */
  function RecordLink(view: seq<Cell>): Link
    requires |view| >= HeaderSize
  {
    var slot := view[LinkOffset..HeaderSize];
    if slot == NullCells() then Null
    else if slot[0].AddrByte? && slot == AddrCells(slot[0].target) then Next(slot[0].target)
    else Unknown
  }

  /** The image of record `r` in the finished buffer: its bytes, with the
      `next_ptr` slot overwritten by the bytes of `link` when it is linked to a
      following record, and left as supplied otherwise. */
  function Placed(r: Bytes, link: Pointer): seq<Cell>
    requires HasHeader(r)
  {
    seq(|r|, j requires 0 <= j < |r| =>
      if link.Into? && LinkOffset <= j < HeaderSize then AddrByte(link.offset, j - LinkOffset)
      else Byte(r[j]))
  }

  /** Byte offset of record `i`: the total size of the records before it. */
  function Offset(rs: seq<Bytes>, i: nat): nat
    requires i <= |rs|
  {
    if i == 0 then 0 else Offset(rs, i - 1) + |rs[i - 1]|
  }

  /** Total byte size of all records. */
  function TotalSize(rs: seq<Bytes>): nat {
    Offset(rs, |rs|)
  }

  /** Where record `k`'s forward link must point: the next record, if any. */
  function NextLink(rs: seq<Bytes>, k: nat): Pointer
    requires k < |rs|
  {
    if k + 1 < |rs| then Into(Offset(rs, k + 1)) else Nullptr
  }

  predicate AllAppendable(rs: seq<Bytes>) {
    forall k :: 0 <= k < |rs| ==> Appendable(rs[k])
  }

  /** The first `i` record images of the finished buffer, concatenated. */
  function Image(rs: seq<Bytes>, i: nat): seq<Cell>
    requires i <= |rs| && AllAppendable(rs)
  {
    if i == 0 then [] else Image(rs, i - 1) + Placed(rs[i - 1], NextLink(rs, i - 1))
  }

  /** The whole finished buffer built from records `rs`. */
  function ChainImage(rs: seq<Bytes>): seq<Cell>
    requires AllAppendable(rs)
  {
    Image(rs, |rs|)
  }

  /** The record IDs, i.e. the byte offsets of all records, in append order. */
  function RecordIds(rs: seq<Bytes>): (ids: seq<nat>)
    ensures |ids| == |rs|
    ensures forall k :: 0 <= k < |rs| ==> ids[k] == Offset(rs, k)
  {
    seq(|rs|, k requires 0 <= k < |rs| => Offset(rs, k))
  }

  /** How a consumer walks the chain: start at `at`, read `next_ptr`, and
      follow it while it points further into the same buffer. */
  function Walk(buf: seq<Cell>, at: nat): seq<nat>
    decreases |buf| - at
  {
    if at + HeaderSize > |buf| then []
    else match RecordLink(buf[at..])
      case Next(t) => if at < t <= |buf| then [at] + Walk(buf, t) else [at]
      case _ => [at]
  }

  /** The flat array of root snapshots (`std::vector<StructType>` storage). */
  function Flatten(roots: seq<seq<Cell>>): seq<Cell> {
    if roots == [] then [] else Flatten(roots[..|roots| - 1]) + roots[|roots| - 1]
  }

  // ---------------------------------------------------------------------------
  // Offsets

  /** Each record starts after the previous ones and ends within the total. */
  lemma {:induction false} OffsetMonotone(rs: seq<Bytes>, i: nat, j: nat)
    requires i <= j <= |rs|
    ensures Offset(rs, i) <= Offset(rs, j)
    ensures j < |rs| ==> Offset(rs, j) + |rs[j]| <= TotalSize(rs)
    decreases |rs| - i
  {
    if j < |rs| {
      OffsetMonotone(rs, j + 1, |rs|);
    }
    if i < j {
      OffsetMonotone(rs, i + 1, j);
    }
  }

  /** A record ID only depends on the records appended before it, so later
      appends never move an earlier record. */
  lemma {:induction false} OffsetStable(rs: seq<Bytes>, more: seq<Bytes>, i: nat)
    requires i <= |rs|
    ensures Offset(rs + more, i) == Offset(rs, i)
  {
    if i > 0 {
      OffsetStable(rs, more, i - 1);
      assert (rs + more)[i - 1] == rs[i - 1];
    }
  }

  /** Laying out record `i` at offset `at`, linked to the offset after it
      unless it is the last record, extends the image of the records before it. */
  lemma ImageStep(rs: seq<Bytes>, i: nat, at: nat, next: Pointer)
    requires i < |rs| && AllAppendable(rs) && at == Offset(rs, i)
    requires next == if i != |rs| - 1 then Into(at + |rs[i]|) else Nullptr
    ensures Offset(rs, i + 1) == at + |rs[i]|
    ensures Image(rs, i + 1) == Image(rs, i) + Placed(rs[i], next)
  {
    assert NextLink(rs, i) == next;
  }

  // ---------------------------------------------------------------------------
  // Record images

  /** Placing a record never changes its size. */
  lemma PlacedLength(r: Bytes, link: Pointer)
    requires HasHeader(r)
    ensures |Placed(r, link)| == |r|
  {
  }

  /** Byte `j` of a placed record: the address byte inside a patched
      `next_ptr` slot, the appended byte everywhere else. */
  lemma PlacedCell(r: Bytes, link: Pointer, j: nat)
    requires HasHeader(r) && j < |r|
    ensures Placed(r, link)[j]
         == if link.Into? && LinkOffset <= j < HeaderSize
            then AddrByte(link.offset, j - LinkOffset) else Byte(r[j])
  {
  }

  /** The link a consumer reads from a placed record: the target it was
      patched with, or null for an unpatched record appended with a null link. */
  lemma {:induction false} PlacedLink(r: Bytes, link: Pointer)
    requires Appendable(r)
    ensures RecordLink(Placed(r, link)) == if link.Into? then Next(link.offset) else Null
  {
    var p := Placed(r, link);
    var slot := p[LinkOffset..HeaderSize];
    forall k | 0 <= k < PointerSize
      ensures slot[k] == if link.Into? then AddrByte(link.offset, k) else Byte(0)
    {
      PlacedCell(r, link, LinkOffset + k);
    }
    match link
    case Nullptr =>
      assert slot == NullCells();
    case Into(t) =>
      assert slot == AddrCells(t);
      assert slot[0] != NullCells()[0];
  }

  /** `RecordLink` only looks at the header. */
  lemma RecordLinkHeader(a: seq<Cell>, b: seq<Cell>)
    requires |a| >= HeaderSize && |b| >= HeaderSize
    requires a[..HeaderSize] == b[..HeaderSize]
    ensures RecordLink(a) == RecordLink(b)
  {
    assert a[LinkOffset..HeaderSize] == a[..HeaderSize][LinkOffset..];
    assert b[LinkOffset..HeaderSize] == b[..HeaderSize][LinkOffset..];
  }

  // ---------------------------------------------------------------------------
  // The finished buffer

  /** The buffer holds exactly the bytes of all records: no padding. */
  lemma {:induction false} ImageLength(rs: seq<Bytes>, i: nat)
    requires i <= |rs| && AllAppendable(rs)
    ensures |Image(rs, i)| == Offset(rs, i)
  {
    if i > 0 {
      ImageLength(rs, i - 1);
      var p := Placed(rs[i - 1], NextLink(rs, i - 1));
      PlacedLength(rs[i - 1], NextLink(rs, i - 1));
      assert Image(rs, i) == Image(rs, i - 1) + p;
      assert Offset(rs, i) == Offset(rs, i - 1) + |rs[i - 1]|;
    }
  }

  /** Building more records only extends the buffer built so far. */
  lemma {:induction false} ImagePrefix(rs: seq<Bytes>, i: nat, j: nat)
    requires i <= j <= |rs| && AllAppendable(rs)
    ensures |Image(rs, i)| == Offset(rs, i) <= |Image(rs, j)|
    ensures Image(rs, j)[..Offset(rs, i)] == Image(rs, i)
    decreases j
  {
    ImageLength(rs, i);
    if i < j {
      ImagePrefix(rs, i, j - 1);
      var before := Image(rs, j - 1);
      var p := Placed(rs[j - 1], NextLink(rs, j - 1));
      assert Image(rs, j) == before + p;
      assert (before + p)[..Offset(rs, i)] == before[..Offset(rs, i)];
    }
  }

  /** Round trip: the bytes at `[id, id + size)` of the finished buffer are the
      record appended under `id`, linked to the record after it. */
  lemma RecordAt(rs: seq<Bytes>, k: nat)
    requires k < |rs| && AllAppendable(rs)
    ensures Offset(rs, k) + |rs[k]| == Offset(rs, k + 1) <= |ChainImage(rs)|
    ensures ChainImage(rs)[Offset(rs, k)..Offset(rs, k + 1)] == Placed(rs[k], NextLink(rs, k))
  {
    ImagePrefix(rs, k + 1, |rs|);
    ImageLength(rs, k);
    var whole := ChainImage(rs);
    var upto := Image(rs, k + 1);
    assert whole[..Offset(rs, k + 1)] == upto;
    assert upto == Image(rs, k) + Placed(rs[k], NextLink(rs, k));
    assert whole[Offset(rs, k)..Offset(rs, k + 1)] == upto[Offset(rs, k)..];
  }

  /** Byte `j` of record `k` in the finished buffer is the appended byte,
      except inside the `next_ptr` slot of a record that has a successor. */
  lemma RecordBytes(rs: seq<Bytes>, k: nat, j: nat)
    requires k < |rs| && AllAppendable(rs) && j < |rs[k]|
    requires !(LinkOffset <= j < HeaderSize) || k == |rs| - 1
    ensures Offset(rs, k) + j < |ChainImage(rs)|
    ensures ChainImage(rs)[Offset(rs, k) + j] == Byte(rs[k][j])
  {
    RecordAt(rs, k);
    var s := ChainImage(rs)[Offset(rs, k)..Offset(rs, k + 1)];
    assert ChainImage(rs)[Offset(rs, k) + j] == s[j];
    PlacedCell(rs[k], NextLink(rs, k), j);
  }

  /** The link read at offset `at` of a buffer is the link of the record
      image that starts there. */
  lemma RecordLinkOfSlice(buf: seq<Cell>, at: nat, end: nat, view: seq<Cell>)
    requires at + HeaderSize <= end <= |buf| && buf[at..end] == view
    ensures RecordLink(buf[at..]) == RecordLink(view)
  {
    assert buf[at..][..HeaderSize] == view[..HeaderSize];
    RecordLinkHeader(buf[at..], view);
  }

  /** Every record but the last links to base + its offset + its size, the ID
      of the record after it; the last record keeps its null link. */
  lemma RecordLinkAt(rs: seq<Bytes>, k: nat)
    requires k < |rs| && AllAppendable(rs)
    ensures Offset(rs, k) + HeaderSize <= |ChainImage(rs)|
    ensures RecordLink(ChainImage(rs)[Offset(rs, k)..])
         == if k + 1 < |rs| then Next(Offset(rs, k) + |rs[k]|) else Null
  {
    RecordAt(rs, k);
    var link := NextLink(rs, k);
    assert Offset(rs, k + 1) == Offset(rs, k) + |rs[k]|;
    RecordLinkOfSlice(ChainImage(rs), Offset(rs, k), Offset(rs, k + 1), Placed(rs[k], link));
    PlacedLink(rs[k], link);
  }

  /** A consumer walking the chain from record `k` visits exactly the records
      `k`, `k + 1`, ... in append order and stops after the last. */
  lemma {:induction false} WalkFrom(rs: seq<Bytes>, k: nat)
    requires k < |rs| && AllAppendable(rs)
    ensures Walk(ChainImage(rs), Offset(rs, k)) == RecordIds(rs)[k..]
    decreases |rs| - k
  {
    var buf := ChainImage(rs);
    var at := Offset(rs, k);
    RecordLinkAt(rs, k);
    if k + 1 < |rs| {
      var next := Offset(rs, k + 1);
      assert Appendable(rs[k]) && next == at + |rs[k]|;
      assert at < next;
      RecordAt(rs, k + 1);
      WalkFrom(rs, k + 1);
      assert Walk(buf, at) == [at] + Walk(buf, next);
    } else {
      assert Walk(buf, at) == [at];
    }
  }

  /** The forward links of a finished buffer, followed from the root at offset
      0, visit every appended record, in append order, and nothing else. */
  lemma WalkChain(rs: seq<Bytes>)
    requires |rs| > 0 && AllAppendable(rs)
    ensures Walk(ChainImage(rs), 0) == RecordIds(rs)
  {
    WalkFrom(rs, 0);
  }

  /** A root record of 16 bytes, then records of 24 and 16 bytes, all with
      null links: a 56-byte buffer where the root links to base + 16, the
      second record to base + 40 and the third keeps its null link. */
  lemma ThreeRecordChain()
    ensures var rs := [seq(16, _ => 0), seq(24, _ => 0), seq(16, _ => 0)];
            && AllAppendable(rs)
            && |ChainImage(rs)| == TotalSize(rs) == 56
            && RecordIds(rs) == [0, 16, 40]
            && RecordLink(ChainImage(rs)[0..]) == Next(16)
            && RecordLink(ChainImage(rs)[16..]) == Next(40)
            && RecordLink(ChainImage(rs)[40..]) == Null
            && Walk(ChainImage(rs), 0) == [0, 16, 40]
  {
    var rs: seq<Bytes> := [seq(16, _ => 0), seq(24, _ => 0), seq(16, _ => 0)];
    assert AllAppendable(rs);
    ImageLength(rs, |rs|);
    RecordLinkAt(rs, 0);
    RecordLinkAt(rs, 1);
    RecordLinkAt(rs, 2);
    WalkChain(rs);
  }

  /** Where slot `i` of a flat array of `size`-byte structs starts. */
  function SlotStart(i: nat, size: nat): nat {
    if i == 0 then 0 else SlotStart(i - 1, size) + size
  }

  /** Slot `i` of a flat array of `n` structs of `size` bytes each. */
  function Slot(flat: seq<Cell>, n: nat, size: nat, i: nat): seq<Cell>
    requires |flat| == SlotStart(n, size) && i < n
  {
    SlotStartMonotone(i + 1, n, size);
    flat[SlotStart(i, size)..SlotStart(i + 1, size)]
  }

  lemma {:induction false} SlotStartMonotone(i: nat, j: nat, size: nat)
    requires i <= j
    ensures SlotStart(i, size) <= SlotStart(j, size)
    decreases j
  {
    if i < j {
      SlotStartMonotone(i, j - 1, size);
    }
  }

  /** Slot `i` starts at byte `i * size`. */
  lemma {:induction false} SlotStartIsProduct(i: nat, size: nat)
    ensures SlotStart(i, size) == i * size
  {
    if i > 0 {
      SlotStartIsProduct(i - 1, size);
      assert i * size == (i - 1) * size + size;
    }
  }

  lemma {:induction false} FlattenLength(roots: seq<seq<Cell>>, size: nat)
    requires forall k :: 0 <= k < |roots| ==> |roots[k]| == size
    ensures |Flatten(roots)| == SlotStart(|roots|, size)
    decreases |roots|
  {
    if roots != [] {
      var n := |roots|;
      var init := roots[..n - 1];
      FlattenLength(init, size);
      assert |Flatten(roots)| == |Flatten(init)| + size;
    }
  }

  /** Snapshot `i` fills slot `i` of the flat root array. */
  lemma {:induction false} FlattenAt(roots: seq<seq<Cell>>, size: nat, i: nat)
    requires forall k :: 0 <= k < |roots| ==> |roots[k]| == size
    requires i < |roots|
    ensures |Flatten(roots)| == SlotStart(|roots|, size)
    ensures Slot(Flatten(roots), |roots|, size, i) == roots[i]
    decreases |roots|
  {
    var n := |roots|;
    var init := roots[..n - 1];
    FlattenLength(roots, size);
    FlattenLength(init, size);
    var flat := Flatten(init);
    var last := roots[n - 1];
    assert Flatten(roots) == flat + last;
    var lo, hi := SlotStart(i, size), SlotStart(i + 1, size);
    SlotStartMonotone(i + 1, n, size);
    assert Slot(Flatten(roots), n, size, i) == (flat + last)[lo..hi];
    if i < n - 1 {
      FlattenAt(init, size, i);
      SlotStartMonotone(i + 1, n - 1, size);
      assert Slot(flat, n - 1, size, i) == flat[lo..hi];
      assert (flat + last)[lo..hi] == flat[lo..hi];
      assert init[i] == roots[i];
    } else {
      assert (flat + last)[|flat|..] == last;
    }
  }

  /** The flat root array holds `n * size` cells and snapshot `i` at
      `[i * size, (i + 1) * size)`, in order. */
  lemma FlattenSlots(roots: seq<seq<Cell>>, size: nat)
    requires forall k :: 0 <= k < |roots| ==> |roots[k]| == size
    ensures |Flatten(roots)| == |roots| * size
    ensures forall i :: 0 <= i < |roots| ==>
              i * size + size <= |Flatten(roots)| && Flatten(roots)[i * size..i * size + size] == roots[i]
  {
    var flat := Flatten(roots);
    FlattenLength(roots, size);
    SlotStartIsProduct(|roots|, size);
    forall i | 0 <= i < |roots|
      ensures i * size + size <= |flat| && flat[i * size..i * size + size] == roots[i]
    {
      FlattenAt(roots, size, i);
      SlotStartIsProduct(i, size);
      SlotStartMonotone(i + 1, |roots|, size);
      assert Slot(flat, |roots|, size, i) == flat[i * size..i * size + size];
    }
  }
}
