/** filepathlist_append's bookkeeping exactly as deflation.h writes it, with
    the block behind `files` measured in bytes.

    Two things go wrong there.  The first allocation asks malloc for
    `capacity` bytes, not `capacity` pointers, so the very first store already
    writes past the block.  And when the list is full, `capacity` is doubled
    but the block is never reallocated, so even with a pointer-sized first
    allocation every store from the third one on writes past it.  The model
    in module PathList does what was evidently intended instead. */
module AppendAsWritten {

  /** The size of one `char*` slot on a 64-bit target. */
  const PointerBytes: nat := 8

  /** The bytes malloc is given per requested slot: the code passes
      `capacity` alone, i.e. one byte per slot. */
  const AsWrittenSlotBytes: nat := 1

  /** The struct's fields, with `files` reduced to whether it points to a block and
      how many bytes its block has. */
  datatype RawList = RawList(hasBlock: bool, allocBytes: nat, count: nat, capacity: nat)

  /** `FilePathList list = { 0 };` */
  function Zeroed(): RawList {
    RawList(false, 0, 0, 0)
  }

  /** The two `if` statements before the store: allocate on first use (with
      `slotBytes` bytes per slot), double `capacity` when full, and leave the
      block as it is. */
  function Prepare(l: RawList, slotBytes: nat): RawList {
    var a := if !l.hasBlock then l.(hasBlock := true, capacity := 2, allocBytes := 2 * slotBytes) else l;
    if a.count == a.capacity then a.(capacity := 2 * a.capacity) else a
  }

  /** The store `files[count++] = ...` writes the pointer-sized slot at index
      `count`; it stays inside the block when the slot ends within it. */
  predicate StoreInBounds(l: RawList, slotBytes: nat) {
    var a := Prepare(l, slotBytes);
    (a.count + 1) * PointerBytes <= a.allocBytes
  }

  /** One call of filepathlist_append, bookkeeping only. */
  function Append(l: RawList, slotBytes: nat): RawList {
    var a := Prepare(l, slotBytes);
    a.(count := a.count + 1)
  }

  /** The struct after `k` appends to a zeroed list. */
  function AppendTimes(slotBytes: nat, k: nat): RawList {
    if k == 0 then Zeroed() else Append(AppendTimes(slotBytes, k - 1), slotBytes)
  }

  /** As written, the first store writes 8 bytes into a 2-byte block. */
  lemma FirstStoreOverflows()
    ensures !StoreInBounds(Zeroed(), AsWrittenSlotBytes)
  {
  }

  /** The numbers look right (`count <= capacity` after every append, with the
      capacity doubling), but the block keeps the size of the first
      allocation forever. */
  lemma {:induction false} BlockNeverGrows(slotBytes: nat, k: nat)
    requires k >= 1
    ensures AppendTimes(slotBytes, k).hasBlock
    ensures AppendTimes(slotBytes, k).allocBytes == 2 * slotBytes
    ensures AppendTimes(slotBytes, k).count == k
    ensures 2 <= AppendTimes(slotBytes, k).capacity
    ensures AppendTimes(slotBytes, k).count <= AppendTimes(slotBytes, k).capacity
  {
    if k > 1 {
      BlockNeverGrows(slotBytes, k - 1);
    }
  }

  /** Even with malloc given whole pointers, every append after the second
      stores past the block, because doubling `capacity` allocates nothing. */
  lemma {:induction false} LaterStoresOverflow(k: nat)
    requires k >= 2
    ensures !StoreInBounds(AppendTimes(PointerBytes, k), PointerBytes)
  {
    BlockNeverGrows(PointerBytes, k);
  }
}
