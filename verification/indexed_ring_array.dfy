/** The indexed ring as the object it is: an array of index entries, two cursors and cached sizes. */
module IndexedRingMemoryArray {
  import opened Stretches
  import opened Words
  import opened IndexedRing
  import opened IndexedRingMemory

  /** Serialized bytes of one entry: start address, index type, size, stored packets. */
  function EntryBytes(typeBytes: nat): nat { 4 + typeBytes + 4 + 4 }

  /** Serialized bytes of an index of n entries: additional info, write entry, entry count, entries, checksum. */
  function IndexBytes(infoBytes: nat, typeBytes: nat, n: nat): nat {
    infoBytes + EntryBytes(typeBytes) + 4 + EntryBytes(typeBytes) * n + 2
  }

  lemma Quotient(size: nat, b: nat)
    requires 0 < b
    ensures Offset(size / b, b) <= size < Offset(size / b, b) + b
  {
    OffsetIsProduct(size / b, b);
    assert size == size / b * b + size % b;
  }

  lemma FewerBlocks(size: nat, part: nat, b: nat)
    requires 0 < b && part <= size
    ensures part / b <= size / b
  {
    Quotient(size, b);
    Quotient(part, b);
    if size / b < part / b { OffsetGrows(size / b, part / b, b); }
  }

  lemma IndexGrows(infoBytes: nat, typeBytes: nat, n: nat, m: nat)
    requires n <= m
    ensures IndexBytes(infoBytes, typeBytes, n) <= IndexBytes(infoBytes, typeBytes, m)
  {
    var e := EntryBytes(typeBytes);
    assert e * m == e * n + e * (m - n);
  }

  predicate EmptyAt(b: Block, start: nat) { b.start == start && b.size == b.packets == 0 }

  class IndexedRingMemoryArray {
    const entries: array<Block>
    const overwriteOld: bool
    var totalSize: word
    var currentWriteBlock: nat
    var currentReadBlock: nat
    var currentReadSize: word
    var currentReadBlockSizeCached: word
    var lastBlockToRead: nat
    var lastBlockToReadSize: word

    ghost predicate Valid()
      reads this
    {
      currentWriteBlock < entries.Length && currentReadBlock < entries.Length && lastBlockToRead < entries.Length
    }

    ghost function View(): Ring
      reads this, entries
    {
      Ring(entries[..], totalSize, currentWriteBlock, currentReadBlock, currentReadSize,
           currentReadBlockSizeCached, lastBlockToRead, lastBlockToReadSize, overwriteOld)
    }

    /** The memory holds the index in front, sized for as many blocks as could fit without it, then the blocks. */
    constructor (startAddress: word, size: word, bytesPerBlock: word, infoBytes: nat, typeBytes: nat,
                 overwriteOld: bool)
      requires 0 < bytesPerBlock && startAddress + size <= WORD
      requires IndexBytes(infoBytes, typeBytes, size / bytesPerBlock) + bytesPerBlock <= size
      ensures Valid() && fresh(entries) && this.overwriteOld == overwriteOld
      ensures var base := startAddress + IndexBytes(infoBytes, typeBytes, size / bytesPerBlock);
              && LaidOut(View(), Layout(base, bytesPerBlock)) && Fits(View(), Layout(base, bytesPerBlock))
              && base + totalSize == startAddress + size && 0 < totalSize
              && startAddress + IndexBytes(infoBytes, typeBytes, entries.Length) <= base
      ensures currentWriteBlock == 0 && OldestFirst(View()) == []
    {
      var serializedSize := IndexBytes(infoBytes, typeBytes, size / bytesPerBlock);
      var useableSize := size - serializedSize;
      var trueStartAddress := startAddress + serializedSize;
      var trueNumberOfBlocks := useableSize / bytesPerBlock;
      ghost var l := Layout(trueStartAddress, bytesPerBlock);
      Quotient(useableSize, bytesPerBlock);
      FewerBlocks(size, useableSize, bytesPerBlock);
      IndexGrows(infoBytes, typeBytes, trueNumberOfBlocks, size / bytesPerBlock);
      totalSize := useableSize;
      entries := new Block[trueNumberOfBlocks];
      this.overwriteOld := overwriteOld;
      currentWriteBlock, currentReadBlock, lastBlockToRead := 0, 0, 0;
      currentReadSize, currentReadBlockSizeCached, lastBlockToReadSize := 0, 0, 0;
      new;
      FillAddresses(trueStartAddress, bytesPerBlock);
      LastBlockIsLarge(View(), l);
      var lastBlockSize := (trueStartAddress + useableSize) - entries[entries.Length - 1].start;
      if entries.Length > 1 && lastBlockSize < bytesPerBlock {
        // The last block would be removed here.
        assert false;
      }
      AllEmpty(View().blocks, Next(entries.Length, 0), 0);
    }

    method FillAddresses(trueStartAddress: nat, bytesPerBlock: word)
      requires trueStartAddress + Offset(entries.Length, bytesPerBlock) <= WORD && 0 < bytesPerBlock
      modifies entries
      ensures forall k {:trigger entries[k]} :: 0 <= k < entries.Length ==>
        EmptyAt(entries[k], trueStartAddress + Offset(k, bytesPerBlock))
    {
      OffsetGrows(0, entries.Length, bytesPerBlock);
      var address, i: nat := trueStartAddress % WORD, 0;
      while i < entries.Length
        invariant i <= entries.Length
        invariant i < entries.Length ==> address == trueStartAddress + Offset(i, bytesPerBlock) < WORD
        invariant forall k {:trigger entries[k]} :: 0 <= k < i ==>
          EmptyAt(entries[k], trueStartAddress + Offset(k, bytesPerBlock))
      {
        if i + 1 < entries.Length { OffsetGrows(i + 1, entries.Length, bytesPerBlock); }
        entries[i] := Block(address, 0, 0);
        address := (address + bytesPerBlock) % WORD;
        i := i + 1;
      }
    }

    // --- Writing ----------------------------------------------------------------------------------

    function GetNextWrite(): (next: nat)
      requires Valid()
      reads this
      ensures next == Next(entries.Length, currentWriteBlock)
    {
      if currentWriteBlock == entries.Length - 1 then 0 else currentWriteBlock + 1
    }

    method HasCurrentWriteBlockEnoughSpace(sizeToWrite: word) returns (r: bool)
      requires Valid() && 0 < totalSize
      ensures r == EnoughSpace(View(), sizeToWrite)
    {
      var next := GetNextWrite();
      var block := entries[currentWriteBlock];
      var availableSize := ((entries[next].start + totalSize) - (block.start + block.size)) % WORD % totalSize;
      r := sizeToWrite < availableSize;
    }

    method AddCurrentWriteBlock(size: word, storedPackets: word)
      requires Valid()
      modifies entries
      ensures View() == Add(old(View()), size, storedPackets)
    {
      var block := entries[currentWriteBlock];
      entries[currentWriteBlock] :=
        block.(size := (block.size + size) % WORD, packets := (block.packets + storedPackets) % WORD);
    }

    method IsNextBlockWritable() returns (r: bool)
      requires Valid()
      ensures r == NextWritable(View())
    {
      var next := GetNextWrite();
      if entries[next].size != 0 && !overwriteOld { return false; }
      return true;
    }

    method WriteNext() returns (ok: bool)
      requires Valid()
      modifies this`currentWriteBlock, entries
      ensures Valid() && ok == old(NextWritable(View())) && View() == IndexedRingMemory.WriteNext(old(View()))
    {
      var writable := IsNextBlockWritable();
      if !writable { return false; }
      currentWriteBlock := GetNextWrite();
      entries[currentWriteBlock] := entries[currentWriteBlock].(size := 0, packets := 0);
      return true;
    }

    // --- Reading ----------------------------------------------------------------------------------

    method ResetRead()
      requires Valid()
      modifies this`currentReadBlock, this`currentReadSize, this`currentReadBlockSizeCached,
               this`lastBlockToRead, this`lastBlockToReadSize
      ensures Valid() && currentReadBlock == currentReadSize == 0
      ensures lastBlockToRead == currentWriteBlock && lastBlockToReadSize == entries[currentWriteBlock].size
    {
      currentReadBlock := 0;
      currentReadSize := 0;
      currentReadBlockSizeCached := entries[0].size;
      lastBlockToRead := currentWriteBlock;
      lastBlockToReadSize := entries[currentWriteBlock].size;
    }

    method GetNextNonEmptyBlock() returns (it: nat)
      requires Valid()
      ensures it == FirstNonEmpty(entries[..], Next(entries.Length, currentWriteBlock), currentWriteBlock)
    {
      it := GetNextWrite();
      ghost var at := it;
      while it != currentWriteBlock
        invariant it <= entries.Length && at == (if it == entries.Length then 0 else it)
        invariant FirstNonEmpty(entries[..], GetNextWrite(), currentWriteBlock)
                  == FirstNonEmpty(entries[..], at, currentWriteBlock)
        decreases Distance(entries.Length, at, currentWriteBlock)
      {
        DistanceNext(entries.Length, at, currentWriteBlock);
        if it == entries.Length {
          it := 0;
          if it == currentWriteBlock { break; }
        }
        if entries[it].size != 0 { return it; }
        it := it + 1;
        at := Next(entries.Length, at);
      }
      return currentWriteBlock;
    }

    method ReadOldest()
      requires Valid()
      modifies this`currentReadBlock, this`currentReadSize, this`currentReadBlockSizeCached,
               this`lastBlockToRead, this`lastBlockToReadSize
      ensures Valid() && View() == IndexedRing.ReadOldest(old(View()))
    {
      ResetRead();
      currentReadBlock := GetNextNonEmptyBlock();
      currentReadBlockSizeCached := entries[currentReadBlock].size;
    }

    method ReadNext()
      requires Valid()
      modifies this`currentReadBlock, this`currentReadSize, this`currentReadBlockSizeCached
      ensures Valid() && View() == IndexedRing.ReadNext(old(View()))
    {
      currentReadSize := 0;
      if currentReadBlock == entries.Length - 1 {
        currentReadBlock := 0;
      } else {
        currentReadBlock := currentReadBlock + 1;
      }
      currentReadBlockSizeCached := entries[currentReadBlock].size;
    }

    /** The search of addReadSize, from the current read block to the last one. */
    method FindNonEmpty() returns (it: nat)
      requires Valid()
      ensures it == FirstNonEmpty(entries[..], currentReadBlock, lastBlockToRead)
    {
      it := currentReadBlock;
      ghost var at := it;
      while it != lastBlockToRead
        invariant it <= entries.Length && at == (if it == entries.Length then 0 else it)
        invariant FirstNonEmpty(entries[..], currentReadBlock, lastBlockToRead)
                  == FirstNonEmpty(entries[..], at, lastBlockToRead)
        decreases Distance(entries.Length, at, lastBlockToRead)
      {
        DistanceNext(entries.Length, at, lastBlockToRead);
        if it == entries.Length {
          it := 0;
          if it == lastBlockToRead { break; }
        }
        if entries[it].size != 0 { return it; }
        it := it + 1;
        at := Next(entries.Length, at);
      }
      return lastBlockToRead;
    }

    method AddReadSize(readSize: word) returns (more: bool)
      requires Valid()
      modifies this`currentReadBlock, this`currentReadSize, this`currentReadBlockSizeCached
      ensures Valid() && (View(), more) == Advance(old(View()), readSize)
    {
      if currentReadBlock == lastBlockToRead {
        if (currentReadSize + readSize) % WORD < lastBlockToReadSize {
          currentReadSize := (currentReadSize + readSize) % WORD;
          return true;
        }
        currentReadSize := lastBlockToReadSize;
        return false;
      }
      if (currentReadSize + readSize) % WORD < currentReadBlockSizeCached {
        currentReadSize := (currentReadSize + readSize) % WORD;
        return true;
      }
      ReadNext();
      if currentReadBlockSizeCached != 0 { return true; }
      var it := FindNonEmpty();
      if it != lastBlockToRead {
        currentReadBlock := it;
        currentReadBlockSizeCached := entries[it].size;
        return true;
      }
      if lastBlockToReadSize != 0 {
        currentReadBlock := lastBlockToRead;
        currentReadBlockSizeCached := lastBlockToReadSize;
        return true;
      }
      return false;
    }

    method GetRemainingSizeOfCurrentReadBlock() returns (r: word)
      requires Valid() && Readable(View())
      ensures r == Remaining(View())
    {
      if currentReadBlock == lastBlockToRead { return lastBlockToReadSize - currentReadSize; }
      return currentReadBlockSizeCached - currentReadSize;
    }

    method GetCurrentReadAddress() returns (r: nat)
      requires Valid() && Readable(View())
      ensures r == ReadAddress(View())
      ensures Remaining(View()) != 0 ==> Pending(View()) != [] && Pending(View())[0] == r
    {
      r := entries[currentReadBlock].start + currentReadSize;
    }

    // --- Statistics -------------------------------------------------------------------------------

    method GetCurrentSize() returns (size: word)
      requires Valid()
      ensures size == |OldestFirst(View())| % WORD
    {
      size := 0;
      var i := 0;
      while i < entries.Length
        invariant i <= entries.Length && size == Total(entries[..i]) % WORD
      {
        assert entries[..i + 1][..i] == entries[..i];
        size := (size + entries[i].size) % WORD;
        i := i + 1;
      }
      assert entries[..i] == entries[..];
      OldestFirstHasAll(View());
    }
  }

  lemma {:induction false} AllEmpty(blocks: seq<Block>, i: nat, last: nat)
    requires i < |blocks| && last < |blocks| && forall k :: 0 <= k < |blocks| ==> blocks[k].size == 0
    ensures Tail(blocks, i, last, 0) == []
    decreases Distance(|blocks|, i, last)
  {
    if i != last { AllEmpty(blocks, Next(|blocks|, i), last); }
  }

  /** In a ring whose blocks fit, the 32-bit sum of sizes does not wrap around. */
  lemma {:induction false} SizesBelowTotal(v: Ring, l: Layout, k: nat)
    requires LaidOut(v, l) && Fits(v, l) && k <= |v.blocks|
    ensures k < |v.blocks| ==> Total(v.blocks[..k]) <= Offset(k, l.bytesPerBlock)
    ensures k == |v.blocks| ==> Total(v.blocks) < v.total <= WORD
    decreases k
  {
    if 0 < k {
      SizesBelowTotal(v, l, k - 1);
      assert v.blocks[..k][..k - 1] == v.blocks[..k - 1];
    }
    assert v.blocks[..|v.blocks|] == v.blocks;
  }
}
