/** The cartridge save stores the joybus reaches: EEPROM and Controller Pak blocks. */
module SaveBlocks {

  datatype SaveKind = NoSave | Eeprom | Sram | Flash | ControllerPak

  /** A save device's kind and backing bytes. */
  datatype Save = Save(kind: SaveKind, store: seq<bv8>)

  /** n bytes at `base`; a byte past the store reads zero. */
  function BlockAt(store: seq<bv8>, base: nat, n: nat): (block: seq<bv8>)
    ensures |block| == n
  {
    seq(n, i requires 0 <= i < n => if base + i < |store| then store[base + i] else 0)
  }

  /** `data` written at `base`; a byte past the store is dropped. */
  function WithBlock(store: seq<bv8>, base: nat, data: seq<bv8>): (s: seq<bv8>)
    ensures |s| == |store|
  {
    seq(|store|, k requires 0 <= k < |store| => if base <= k < base + |data| then data[k - base] else store[k])
  }

  /** A block reads back as written exactly when the store holds all of it, save for zeros that were
      never stored and read as zeros. */
  lemma BlockReadsBack(store: seq<bv8>, base: nat, data: seq<bv8>)
    ensures BlockAt(WithBlock(store, base, data), base, |data|) == data <==>
            forall i :: 0 <= i < |data| && base + i >= |store| ==> data[i] == 0
  {
    var read := BlockAt(WithBlock(store, base, data), base, |data|);
    forall i | 0 <= i < |data|
      ensures read[i] == if base + i < |store| then data[i] else 0
    {
    }
  }

  /** A block written leaves every block apart from it as it was. */
  lemma OtherBlocksUntouched(store: seq<bv8>, base: nat, data: seq<bv8>, other: nat, n: nat)
    requires other + n <= base || base + |data| <= other
    ensures BlockAt(WithBlock(store, base, data), other, n) == BlockAt(store, other, n)
  {
    forall i | 0 <= i < n
      ensures BlockAt(WithBlock(store, base, data), other, n)[i] == BlockAt(store, other, n)[i]
    {
    }
  }

  class SaveDevice {
    const kind: SaveKind
    const store: array<bv8>

    constructor (kind: SaveKind, size: nat)
      ensures this.kind == kind && fresh(store) && store.Length == size
      ensures forall k :: 0 <= k < size ==> store[k] == 0
    {
      this.kind := kind;
      store := new bv8[size](_ => 0);
    }

    ghost function Value(): Save
      reads store
    {
      Save(kind, store[..])
    }

    /** The block at `base` of a store of the given kind; any other device leaves zeros. */
    method ReadBlock(wanted: SaveKind, base: nat, n: nat) returns (block: seq<bv8>)
      ensures block == if kind == wanted then BlockAt(store[..], base, n) else seq(n, _ => 0)
    {
      block := [];
      if kind != wanted {
        return seq(n, _ => 0);
      }
      for i := 0 to n
        invariant block == BlockAt(store[..], base, i)
      {
        block := block + [if base + i < store.Length then store[base + i] else 0];
      }
    }

    method WriteBlock(wanted: SaveKind, base: nat, data: seq<bv8>)
      modifies store
      ensures store[..] == if kind == wanted then WithBlock(old(store[..]), base, data) else old(store[..])
    {
      ghost var was := store[..];
      if kind == wanted {
        for i := 0 to |data|
          invariant forall k :: 0 <= k < store.Length ==>
            store[k] == if base <= k < base + i then data[k - base] else was[k]
        {
          if base + i < store.Length {
            store[base + i] := data[i];
          }
        }
        forall k | 0 <= k < store.Length ensures store[..][k] == WithBlock(was, base, data)[k] {
        }
      }
    }
  }
}
