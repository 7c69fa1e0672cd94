/**
 * A list of triggers on its way from the host into the firmware's macro store: encoded
 * (qtclient/trigger.cc), and the images streamed over USB into the index and the EEPROM
 * (lufa/lufa_main.c).
 */
module TriggerUpload {
  import opened Bytes
  import opened PagedMemory
  import opened Packing
  import opened MacroIndex
  import opened MacroHeap
  import opened MacroStore
  import opened TriggerCodec

  /** The image becomes the beginning of the region. */
  lemma RegionHolds(mem: seq<Byte>, base: nat, size: nat, storage: seq<Byte>)
    requires 2 <= |storage| <= size && base + size <= |mem|
    ensures var now := Splice(mem, base, storage);
            && ReadWord(now, base) == ReadWord(storage, 0)
            && HeapOf(now, base, size)[..|storage| - 2] == HeapIn(storage)
            && SameOutside(mem, now, base, size)
  {
  }

  /** Packed blocks and their bindings depend only on the part of the heap they cover. */
  lemma HeapAgrees(m: map<Keys, Word>, bs: seq<MacroBlock>, image: seq<Byte>, heap: seq<Byte>)
    requires Packed(image, bs) && Agree(m, bs, None) && |image| == Total(bs) <= |heap| && heap[..|image|] == image
    ensures Packed(heap, bs) && Bindings(m, heap, None) == Bindings(m, image, None)
  {
    hide Packed, Agree, Bindings;
    assert image[..Total(bs)] == image;
    PackedPrefix(image, heap, bs);
    SameBlocksSameBindings(m, bs, None, image, heap);
  }

  /**
   * Uploading triggers leaves a valid store that binds exactly them, whatever it held before;
   * when they do not fit, the store is as it was.
   */
  method Upload(ts: seq<Trigger>, store: Store) returns (r: Encoding)
    requires store.Valid() && store.macro.None?
    requires Storable(ts) && KeysFit(ts)
    requires forall i :: 0 <= i < |ts| && ts[i].content.ProgramId? ==> ts[i].content.id < 0x8000
    modifies store`blocks, store.chip, store.index`count, store.index.entries
    ensures r.Image? <==> |ts| <= store.index.entries.Length && 2 + RequiredBy(ts, |ts|) <= store.size
    ensures store.Valid() && if r.Image? then BindsExactly(store.Bound(), ts) else store.Bound() == old(store.Bound())
    ensures SameOutside(old(store.chip.mem), store.chip.mem, store.base, store.size)
  {
    hide Storable, RequiredBy, InOrder, Agree, Packed, Bindings, BindsExactly, WellFormed, AsMap, HeapOf, SameOutside,
         Splice, HeapIn, BlocksOf, EntriesOf, IndexHolds;
    NothingOutsideChanged(store.chip.mem, store.base, store.size);
    r := EncodeTriggers(ts, BytesFor(store.index.entries.Length), store.size);
    if r.Image? {
      ghost var es := InOrder(ts, |ts|);
      ghost var m := ImagesUsable(ts, r.index, r.storage);
      RegionHolds(store.chip.mem, store.base, store.size, r.storage);
      store.chip.Stream(store.base, r.storage);
      store.index.Overwrite(EntriesOf(r.index), |es|);
      HeapAgrees(m, BlocksOf(es, |es|), HeapIn(r.storage), store.Heap());
      store.blocks := BlocksOf(es, |es|);
    }
  }
}
