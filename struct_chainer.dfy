/** The struct-chain builder of `Anvil`: `StructChainer` stages byte copies of
    records, `create_chain` lays them out in one buffer owned by a
    `StructChain`, and `StructChainVector` keeps finished chains together with
    flat copies of their root structs.

    A C++ `StructType` (the chain's root type) is represented by its size
    `rootSize` (`sizeof(StructType)`); typed views are the cells of the buffer
    at a byte offset.  Pointers returned by the source are modelled by the
    bytes they give access to. */
module Anvil {
  import opened ChainLayout

  /** `StructChain<StructType>`: the contiguous buffer of one finished chain. */
  class StructChain {
    /** `sizeof(StructType)`. */
    const rootSize: nat
    /** `raw_data`. */
    var rawData: array<Cell>
    /** `root_struct_ptr`, as an offset into `rawData`; `Nullptr` is `nullptr`. */
    var rootStructPtr: Pointer
    /** The records the chain was built from, in append order. */
    ghost var records: seq<Bytes>

    /** The buffer is the layout of `records`, whose first one is the root. */
    ghost predicate Valid()
      reads this, rawData
    {
      && |records| > 0
      && AllAppendable(records)
      && |records[0]| == rootSize
      && HeaderSize <= rootSize <= rawData.Length
      && rawData[..] == ChainImage(records)
      && rootStructPtr == Into(0)
    }

    /** `StructChain(in_raw_data_size)`: a zero-filled buffer and a null root pointer. */
    constructor (rawDataSize: uint32, rootSize: nat)
      ensures this.rootSize == rootSize
      ensures fresh(rawData) && rawData.Length == rawDataSize as nat
      ensures forall j :: 0 <= j < rawData.Length ==> rawData[j] == Byte(0)
      ensures rootStructPtr == Nullptr && records == []
    {
      this.rootSize := rootSize;
      rawData := new Cell[rawDataSize as nat](_ => Byte(0));
      rootStructPtr := Nullptr;
      records := [];
    }

    /** `get_struct_with_id`: the `size`-byte struct at byte offset `id`.  For
        the ID of an appended record, it is that record as appended, its
        forward link pointing at the record after it. */
    method GetStructWithId(id: uint32, size: nat) returns (view: seq<Cell>)
      requires Valid()
      requires (id as nat) < rawData.Length
      requires id as nat + size <= rawData.Length
      ensures view == rawData[id..id as nat + size]
      ensures forall k :: 0 <= k < |records| && id as nat == Offset(records, k) && size == |records[k]|
                ==> view == Placed(records[k], NextLink(records, k))
    {
      view := rawData[id..id as nat + size];
      forall k | 0 <= k < |records| && id as nat == Offset(records, k) && size == |records[k]|
        ensures view == Placed(records[k], NextLink(records, k))
      {
        RecordAt(records, k);
      }
    }

    /** `get_root_struct`: the root struct at offset 0, which is the first
        appended record with its forward link to the second one. */
    method GetRootStruct() returns (view: seq<Cell>)
      requires Valid()
      ensures |view| == rootSize
      ensures view == rawData[..rootSize]
      ensures view == Placed(records[0], NextLink(records, 0))
    {
      RecordAt(records, 0);
      view := rawData[..rootSize];
    }
  }

  /** `memcpy` of a staged record into the buffer at byte offset `at`. */
  method Memcpy(dst: array<Cell>, at: nat, src: Bytes)
    requires at + |src| <= dst.Length
    modifies dst
    ensures forall j :: 0 <= j < dst.Length ==>
              dst[j] == if at <= j < at + |src| then Byte(src[j - at]) else old(dst[j])
  {
    forall j | 0 <= j < |src| {
      dst[at + j] := Byte(src[j]);
    }
  }

  /** `header_ptr->next_ptr = base + target` for the record at byte offset `at`. */
  method SetNextPtr(dst: array<Cell>, at: nat, target: nat)
    requires at + HeaderSize <= dst.Length
    modifies dst
    ensures forall j :: 0 <= j < dst.Length ==>
              dst[j] == if at + LinkOffset <= j < at + HeaderSize
                        then AddrByte(target, j - at - LinkOffset) else old(dst[j])
  {
    forall k | 0 <= k < PointerSize {
      dst[at + LinkOffset + k] := AddrByte(target, k);
    }
  }

  /** One step of `create_chain`: copy record `r` to byte offset `at`, then,
      if it has a successor, point its `next_ptr` at it. */
  method CopyStruct(dst: array<Cell>, at: nat, r: Bytes, nextPtr: Pointer)
    requires HasHeader(r) && at + |r| <= dst.Length
    modifies dst
    ensures dst[..at + |r|] == old(dst[..at]) + Placed(r, nextPtr)
    ensures dst[at + |r|..] == old(dst[at + |r|..])
  {
    ghost var done := dst[..at];
    Memcpy(dst, at, r);
    if nextPtr.Into? {
      SetNextPtr(dst, at, nextPtr.offset);
    }
    PlacedWrite(done, dst[..], at, r, nextPtr);
  }

  /** The loop of `create_chain` that forms the chain: copies the records
      into `rawData` in append order, keeping a running byte offset, and
      patches every record but the last to point at the one after it. */
  method FormStructChain(rawData: array<Cell>, structs: seq<Bytes>)
    requires |structs| > 0 && AllAppendable(structs)
    requires rawData.Length == TotalSize(structs)
    modifies rawData
    ensures rawData[..] == ChainImage(structs)
  {
    var nStructs := |structs|;
    var nBytesUsed: nat := 0;
    var nStruct := 0;
    while nStruct < nStructs
      invariant 0 <= nStruct <= nStructs
      invariant nBytesUsed == Offset(structs, nStruct) <= rawData.Length
      invariant rawData[..nBytesUsed] == Image(structs, nStruct)
    {
      var currentStructData := structs[nStruct];
      var currentStructDataSize := |currentStructData|;
      OffsetMonotone(structs, nStruct, nStruct);
      var nextPtr: Pointer := if nStruct != nStructs - 1 then Into(nBytesUsed + currentStructDataSize) else Nullptr;
      ImageStep(structs, nStruct, nBytesUsed, nextPtr);
      CopyStruct(rawData, nBytesUsed, currentStructData, nextPtr);
      nBytesUsed := nBytesUsed + currentStructDataSize;
      nStruct := nStruct + 1;
    }
    assert rawData[..] == rawData[..nBytesUsed];
  }

  /** `StructChainer<StructType>`: stages records until a chain is created. */
  class StructChainer {
    /** `sizeof(StructType)`. */
    const rootSize: nat
    /** `m_structs`: byte copies of the appended records, in append order. */
    var structs: seq<Bytes>
    /** `m_structs_size`: the 32-bit running byte total. */
    var structsSize: uint32

    /** Every staged record has a null link, the first one is root-sized and
        the running total is the records' byte total, modulo 2^32. */
    ghost predicate Valid()
      reads this
    {
      && HeaderSize <= rootSize
      && AllAppendable(structs)
      && structsSize as nat == TotalSize(structs) % U32
      && (structs != [] ==> |structs[0]| == rootSize)
    }

    constructor (rootSize: nat)
      requires HeaderSize <= rootSize
      ensures Valid()
      ensures this.rootSize == rootSize && structs == [] && structsSize == 0
    {
      this.rootSize := rootSize;
      structs := [];
      structsSize := 0;
    }

    /** `append_struct`: stages a copy of `inStruct` and returns its ID, the
        running total before the call, which is the byte offset the record
        gets in every chain created from this builder. */
    method AppendStruct(inStruct: Bytes) returns (id: uint32)
      requires Valid()
      requires HasHeader(inStruct)
      requires HasNullLink(inStruct)
      requires structsSize == 0 ==> |inStruct| == rootSize
      modifies this
      ensures Valid()
      ensures structs == old(structs) + [inStruct]
      ensures structsSize as nat == (old(structsSize) as nat + |inStruct|) % U32
      ensures id == old(structsSize)
      ensures id as nat == Offset(structs, |structs| - 1) % U32
    {
      var preCallStructsSize := structsSize;
      var structRawData := inStruct;
      ghost var before := structs;
      structs := structs + [structRawData];
      structsSize := ((structsSize as nat + |inStruct|) % U32) as uint32;
      id := preCallStructsSize;
      OffsetStable(before, [inStruct], |before|);
      assert (TotalSize(before) % U32 + |inStruct|) % U32 == (TotalSize(before) + |inStruct|) % U32;
    }

    /** `create_chain`: no chain for an empty builder; otherwise a fresh
        buffer of the staged byte total laid out as `ChainImage(structs)`:
        the records in append order, without padding, each one but the last
        linked to the next.  The builder is left unchanged. */
    method CreateChain() returns (chain: StructChain?)
      requires Valid()
      requires TotalSize(structs) < U32
      ensures structs == [] <==> chain == null
      ensures chain != null ==>
                && fresh(chain) && fresh(chain.rawData)
                && chain.Valid()
                && chain.records == structs
                && chain.rootSize == rootSize
                && chain.rawData.Length == structsSize as nat
    {
      var nStructs := |structs|;
      if nStructs == 0 {
        chain := null;
        return;
      }
      assert structsSize as nat == TotalSize(structs);
      chain := new StructChain(structsSize, rootSize);
      FormStructChain(chain.rawData, structs);
      chain.rootStructPtr := Into(0);
      chain.records := structs;
      OffsetMonotone(structs, 0, 0);
    }

    /** `create_chain` is `const`: two calls on the same builder give two
        separate buffers with the same contents. */
    method CreateChainTwice() returns (first: StructChain?, second: StructChain?)
      requires Valid()
      requires structs != [] && TotalSize(structs) < U32
      ensures first != null && second != null
      ensures first.rawData != second.rawData
      ensures first.rawData[..] == second.rawData[..]
      ensures first.records == second.records == structs
    {
      first := CreateChain();
      second := CreateChain();
    }

    /** `get_root_struct`: the first staged record, a root-sized struct with
        a null forward link. */
    method GetRootStruct() returns (view: Bytes)
      requires Valid()
      requires |structs| > 0
      ensures view == structs[0]
      ensures |view| == rootSize && Appendable(view)
    {
      view := structs[0];
    }
  }

  /** The cells written by `Memcpy` and `SetNextPtr` after a finished prefix
      are that prefix followed by the placed record. */
  lemma PlacedWrite(done: seq<Cell>, now: seq<Cell>, at: nat, r: Bytes, link: Pointer)
    requires HasHeader(r) && |done| == at && at + |r| <= |now|
    requires forall j :: 0 <= j < at ==> now[j] == done[j]
    requires forall j :: at <= j < at + |r| ==>
               now[j] == if link.Into? && at + LinkOffset <= j < at + HeaderSize
                         then AddrByte(link.offset, j - at - LinkOffset) else Byte(r[j - at])
    ensures now[..at + |r|] == done + Placed(r, link)
  {
    PlacedLength(r, link);
    forall j | 0 <= j < at + |r|
      ensures now[j] == (done + Placed(r, link))[j]
    {
      if j >= at {
        PlacedCell(r, link, j - at);
      }
    }
  }

  /** `StructChainVector<StructType>`: finished chains and, in step with them,
      flat copies of their root structs. */
  class StructChainVector {
    /** `sizeof(StructType)`. */
    const rootSize: nat
    /** `root_structs`: the root struct of every chain, copied at insertion. */
    var rootStructs: seq<seq<Cell>>
    /** `struct_chain_ptrs`: the owned chains, each held once. */
    var structChainPtrs: seq<StructChain>

    /** The vectors run in step: snapshot `k` is the root struct of chain `k`
        as laid out at insertion, and every chain is held once. */
    ghost predicate Valid()
      reads this, set k | 0 <= k < |structChainPtrs| :: structChainPtrs[k]
    {
      && |rootStructs| == |structChainPtrs|
      && (forall k :: 0 <= k < |rootStructs| ==> |rootStructs[k]| == rootSize)
      && (forall k :: 0 <= k < |structChainPtrs| ==>
            && |structChainPtrs[k].records| > 0
            && AllAppendable(structChainPtrs[k].records)
            && rootStructs[k] == Placed(structChainPtrs[k].records[0], NextLink(structChainPtrs[k].records, 0)))
      && (forall i, j :: 0 <= i < j < |structChainPtrs| ==> structChainPtrs[i] != structChainPtrs[j])
    }

    constructor (rootSize: nat)
      ensures Valid()
      ensures this.rootSize == rootSize && rootStructs == [] && structChainPtrs == []
    {
      this.rootSize := rootSize;
      rootStructs := [];
      structChainPtrs := [];
    }

    /** `append_struct_chain`: takes ownership of `chain` and snapshots its
        root struct at the same index; nothing already stored changes. */
    method AppendStructChain(chain: StructChain)
      requires Valid() && chain.Valid()
      requires chain.rootSize == rootSize
      requires chain !in structChainPtrs
      modifies this
      ensures Valid()
      ensures structChainPtrs == old(structChainPtrs) + [chain]
      ensures rootStructs == old(rootStructs) + [chain.rawData[..rootSize]]
      ensures rootStructs[|rootStructs| - 1] == Placed(chain.records[0], NextLink(chain.records, 0))
    {
      var root := chain.GetRootStruct();
      rootStructs := rootStructs + [root];
      structChainPtrs := structChainPtrs + [chain];
    }

    /** `get_n_structs`: the number of chains held, cast to `uint32_t`. */
    method GetNStructs() returns (n: uint32)
      requires Valid()
      ensures n as nat == |structChainPtrs| % U32
      ensures |structChainPtrs| < U32 ==> n as nat == |rootStructs|
    {
      n := (|rootStructs| % U32) as uint32;
    }

    /** `get_root_structs`: the contiguous array of root snapshots, snapshot
        `i` (the root of chain `i`) at `[i * rootSize, (i + 1) * rootSize)`. */
    method GetRootStructs() returns (flat: seq<Cell>)
      requires Valid()
      requires |rootStructs| > 0
      ensures |flat| == |structChainPtrs| * rootSize
      ensures forall i :: 0 <= i < |rootStructs| ==>
                i * rootSize + rootSize <= |flat| && flat[i * rootSize..i * rootSize + rootSize] == rootStructs[i]
      ensures forall i :: 0 <= i < |structChainPtrs| ==>
                var chain := structChainPtrs[i];
                i * rootSize + rootSize <= |flat|
                && flat[i * rootSize..i * rootSize + rootSize] == Placed(chain.records[0], NextLink(chain.records, 0))
    {
      flat := Flatten(rootStructs);
      FlattenSlots(rootStructs, rootSize);
    }
  }
}

