# Anvil struct chainer, in Dafny

This project models the struct-chain builder of Anvil (`include/misc/struct_chainer.h`).
Vulkan structures are chained through a forward pointer (`pNext`, or `next_ptr` in the
`VkStructHeader` view of a record). The builder lets a caller put such a chain together:

- `StructChainer` stages byte copies of records. `append_struct` returns each record's
  ID, the 32-bit byte total before the call. `create_chain` lays the staged records out
  in one contiguous buffer, in append order, and patches every record but the last to
  point at the one after it.
- `StructChain` owns that buffer. It gives the view at a byte offset and the root view
  at offset 0.
- `StructChainVector` keeps finished chains, together with a flat array of snapshots of
  their root structs.

Module `ChainLayout` (`chain_layout.dfy`) holds the specification:

- A buffer cell is either a plain byte (`Byte(v)`) or byte `k` of the address
  "buffer base + t" (`AddrByte(t, k)`). Addresses are therefore relative to the
  chain's own buffer. A null pointer is eight zero bytes.
- The header layout comes from `types.h`, which is not part of this model. The model
  assumes a 64-bit `VkStructHeader` with `next_ptr` at byte offset 8, 8 bytes wide,
  so a record needs at least 16 bytes.
- `Offset(rs, k)` is the byte offset of record `k`. `ChainImage(rs)` is the finished
  buffer. `RecordLink` reads a forward link back out of a buffer, and `Walk` follows
  the links the way a consumer of the chain does.

Module `Anvil` (`struct_chainer.dfy`) has the three classes:

- Their fields are the source's fields, plus `rootSize` for `sizeof(StructType)` and, in
  `StructChain`, the ghost `records` the buffer was built from.
- Their methods change them in place. `create_chain`'s loop is the method
  `FormStructChain`, which copies and patches an `array<Cell>`.
- The `anvil_assert`s in `append_struct`, `get_struct_with_id` and
  `StructChainer::get_root_struct` become `requires` clauses. `create_chain` on an empty
  builder returns null, as the source does after its assertion (line 150).

Three points where the code is easy to misread:

- The check that the first record "must be of StructType type" (line 121) compares only
  sizes (`sizeof(in_struct) != sizeof(StructType)`).
- The check is made when the running total is 0, not when the builder is empty.
- A rejected first record is a failed assertion, not an error result.

## Model

| member | source | states |
|---|---|---|
| Anvil.StructChain.constructor | include/misc/struct_chainer.h:38-42 | a new chain has a zero-filled buffer of the requested size and a null root pointer |
| Anvil.StructChain.GetStructWithId | include/misc/struct_chainer.h:44-57 | the view at byte offset `id` is the buffer's bytes from `id`; for the ID of an appended record it is that record with its forward link to the record after it |
| Anvil.StructChain.GetRootStruct | include/misc/struct_chainer.h:59-67 | the root view is the first `sizeof(StructType)` bytes at offset 0, which is the first appended record linked to the second |
| Anvil.StructChainVector.constructor | include/misc/struct_chainer.h:92-94 | a new vector holds no chains and no root snapshots |
| Anvil.StructChainVector.AppendStructChain | include/misc/struct_chainer.h:76-80 | one chain and one snapshot of its root struct are appended, at the same index; the vectors keep equal length, every snapshot stays the root of the chain at its index, and nothing already stored changes |
| Anvil.StructChainVector.GetNStructs | include/misc/struct_chainer.h:82-85 | the count of chains, truncated to 32 bits, which is the count of root snapshots whenever it fits |
| Anvil.StructChainVector.GetRootStructs | include/misc/struct_chainer.h:86-89 | a contiguous array of `n * sizeof(StructType)` cells whose cells `[i * size, (i + 1) * size)` are snapshot `i`, which is chain `i`'s root struct as laid out at insertion |
| Anvil.StructChainer.constructor | include/misc/struct_chainer.h:102-106 | a new builder has no staged records and a total of 0 |
| Anvil.StructChainer.AppendStruct | include/misc/struct_chainer.h:113-139 | requires a null forward link and, when the total is 0, a root-sized record; stages the record, adds its size to the total modulo 2^32 and returns the previous total, which is the record's offset in the finished chain |
| Anvil.StructChainer.CreateChain | include/misc/struct_chainer.h:141-196 | no chain for an empty builder; otherwise a fresh buffer of the staged total holding `ChainImage` of the staged records, with the root pointer at offset 0 and the builder unchanged |
| Anvil.StructChainer.CreateChainTwice | include/misc/struct_chainer.h:141 | two chains created from one builder are separate buffers with identical contents |
| Anvil.StructChainer.GetRootStruct | include/misc/struct_chainer.h:198-203 | with at least one staged record, the root is the first staged record, root-sized and with a null link |
| Anvil.FormStructChain | include/misc/struct_chainer.h:167-189 | the copy-and-patch loop leaves the buffer equal to `ChainImage` of the records |
| Anvil.CopyStruct | include/misc/struct_chainer.h:172-186 | one loop step: the buffer is the finished prefix followed by the record, its link slot set to the next record's address when there is one, and every cell after the record is unchanged |
| Anvil.Memcpy | include/misc/struct_chainer.h:176-178 | the record's bytes are written at the offset and every other cell is unchanged |
| Anvil.SetNextPtr | include/misc/struct_chainer.h:183-185 | the eight cells of the record's `next_ptr` slot hold the target address and every other cell is unchanged |
| ChainLayout.OffsetStable | include/misc/struct_chainer.h:116-138 | appending records never changes the offset, and so the ID, of the records already staged |
| ChainLayout.OffsetMonotone | include/misc/struct_chainer.h:136-138 | IDs grow in append order, and every record ends within the staged total |
| ChainLayout.ImageStep | include/misc/struct_chainer.h:176-188 | one loop step moves `n_bytes_used` past the record and extends the finished prefix by exactly that record |
| ChainLayout.ImageLength | include/misc/struct_chainer.h:157-188 | the records laid out without padding take exactly their byte total |
| ChainLayout.ImagePrefix | include/misc/struct_chainer.h:168-189 | later loop steps never change the bytes of records already placed |
| ChainLayout.RecordAt | include/misc/struct_chainer.h:168-188 | the bytes `[id, id + size)` of the finished buffer are the record appended under `id`, with its forward link |
| ChainLayout.RecordBytes | include/misc/struct_chainer.h:176-178 | every byte of a record outside its link slot, and every byte of the last record, is the byte that was appended |
| ChainLayout.PlacedLink | include/misc/struct_chainer.h:181-186 | a patched record's link reads back as the address it was given; an unpatched one reads back as null |
| ChainLayout.RecordLinkAt | include/misc/struct_chainer.h:181-186 | every record but the last links to base + its offset + its size, the next record's ID; the last keeps its null link |
| ChainLayout.WalkFrom | include/misc/struct_chainer.h:168-189 | following the links from record `k` visits records `k`, `k + 1`, ... in append order and stops after the last |
| ChainLayout.WalkChain | include/misc/struct_chainer.h:168-191 | following the links from the root at offset 0 visits every appended record exactly once, in append order |
| ChainLayout.ThreeRecordChain | include/misc/struct_chainer.h:141-196 | records of 16, 24 and 16 bytes form a 56-byte buffer linked 0 → 16 → 40 → null |
| ChainLayout.FlattenSlots | include/misc/struct_chainer.h:86-93 | the contiguous snapshot array has `n * size` cells and cells `[i * size, (i + 1) * size)` are snapshot `i` |
| ChainLayout.FlattenAt | include/misc/struct_chainer.h:86-93 | slot `i` of the contiguous snapshot array is snapshot `i` |
| ChainLayout.SlotStartIsProduct | include/misc/struct_chainer.h:86-93 | slot `i` of an array of `size`-byte structs starts at `i * size` |

## Left out

- `include/misc/external_handle.h`, a wrapper around an operating-system handle whose behaviour is in files that are not part of this model.
- Real pointer values and `reinterpret_cast`. Links and views are offsets relative to the buffer base, and typed views are the cells at that offset.
- The `VkStructHeader` layout comes from `types.h`, which is not part of this model. The model assumes `next_ptr` at byte offset 8, 8 bytes wide, and the byte order of an address is left abstract.
- Writes through the pointers the getters return are not modelled. Root snapshots are Dafny values, so a later change to a chain's buffer cannot reach them.
- The allocation-failure branch of `create_chain` (lines 160-165): allocation in the model always succeeds.
- `unique_ptr` ownership and moves. A chain appended to a `StructChainVector` is required not to be held there already, and nothing else is modelled.
- Anvil.StructChainer.AppendStruct: the `anvil_assert`s on the forward link and the root size are preconditions, so a failing assertion is not modelled as continuing.
- Anvil.StructChainer.AppendStruct: requires a record of at least 16 bytes, the assumed header size.
- Anvil.StructChainer.CreateChain: requires the true byte total to be below 2^32. When `m_structs_size` has wrapped, the source allocates a buffer smaller than the records and `raw_data.at` throws or `memcpy` overruns; the model does not follow that path.
- Anvil.StructChain.GetStructWithId: requires, beyond `id < raw_data.size()`, that the `size` bytes read through the view lie inside the buffer, and that the chain was formed by `create_chain`.
- Anvil.StructChain.GetRootStruct: requires a chain formed by `create_chain`. The source only needs a non-empty buffer.
- Anvil.StructChainVector.AppendStructChain: requires a chain exactly as `create_chain` formed it (`StructChain.Valid()`). The source snapshots whatever the first `sizeof(StructType)` bytes of any `StructChain` hold. That includes a chain built by its public constructor (lines 38-42), or one whose root was changed through the writable pointers of `get_root_struct` (lines 59-62) or `get_struct_with_id` (lines 51-57) before insertion. The model does not promise anything about the snapshot of such a chain.
- Anvil.StructChainVector.GetRootStructs: requires at least one chain. The source's `root_structs.at(0)` throws on an empty vector.
- Anvil.StructChainer.GetRootStruct: the `anvil_assert` that at least one record is staged is a precondition.
