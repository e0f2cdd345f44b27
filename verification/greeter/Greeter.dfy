/**
 The compiled Greeter contract: storing and loading its string, with contract storage and memory updated in
 place. The loops are recursive methods because the compiled text writes them as tail recursion. A revert
 leaves storage as it was, as an aborted transaction does.
 */
module Greeter {
  import opened Common
  import opened Words
  import opened StringLayout

  /** Where the free memory pointer is kept, and its value at the start of a call. */
  const FREE_POINTER: nat := 64
  const INITIAL_FREE: nat := 128

  function RoundUp(n: nat): nat {
    32 * ChunkCount(n)
  }

  /** Strings short enough for memory at the start of a call, length word included. */
  predicate Fits(s: Bytes) {
    INITIAL_FREE + 32 + RoundUp(|s|) <= MAX_UINT64
  }

  lemma SlotSpace(n: nat)
    requires n <= MAX_UINT64
    ensures 0 <= ChunkCount(n) <= ChunkCount(MAX_UINT64)
    ensures RoundUp(n) < n + 32
  {
  }

  lemma RoundUpBounds(n: nat)
    ensures n <= RoundUp(n) < n + 32 && RoundUp(n) % 32 == 0 && RoundUp(n) == 32 * ((n + 31) / 32)
  {
  }

  /** What an allocation of the given size moves the free pointer by. */
  function Reserved(size: nat): nat {
    if size + 31 < WORD_LIMIT then RoundUp(size) else 0
  }

  lemma WholeWords(size: nat, whole: nat)
    requires size < WORD_LIMIT && whole == 32 * (Add(size, 31) / 32)
    ensures whole == Reserved(size) < WORD_LIMIT
  {
  }

  lemma RoundUpOfMultiple(n: nat)
    requires n % 32 == 0
    ensures RoundUp(n) == n
  {
  }

  lemma WordSteps(k: nat, n: nat)
    ensures 32 * k < n <==> k < ChunkCount(n)
  {
  }

  /** What a load leaves in memory: the bytes of the string, and the length word before them as it was. */
  lemma LoadedString(m: Memory, memory: Memory, ptr: nat, s: Bytes, to: nat)
    requires |s| <= to && Loaded(m, memory, ptr + 32, s, 0, to)
    ensures HoldsBytes(m, ptr + 32, s)
    ensures MLoad(m, ptr) == MLoad(memory, ptr)
  {
    MLoadElsewhere(memory, m, ptr);
  }

  function SizeInMemory(n: nat): nat {
    if n < 32 then 64 else 32 + RoundUp(n)
  }

  lemma SizeOfLoaded(n: nat)
    requires n <= MAX_UINT64
    ensures SizeInMemory(n) % 32 == 0 && SizeInMemory(n) <= 2 * MAX_UINT64
  {
  }

  /** Words written from the second on complete the first one. */
  lemma OneWordFirst(st2: Storage, st1: Storage, st0: Storage, dst: nat, memory: Memory, ptr: nat, k: nat)
    requires k > 0
    requires MemoryWritten(st2, st1, dst + 1, memory, ptr + 32, k - 1)
    requires forall key: nat :: Read(st1, key) == if key == dst then MLoad(memory, ptr) else Read(st0, key)
    ensures MemoryWritten(st2, st0, dst, memory, ptr, k)
  {
    forall key: nat
      ensures Read(st2, key) == if dst <= key < dst + k then MLoad(memory, ptr + 32 * (key - dst)) else Read(st0, key)
    {
      if dst < key < dst + k {
        assert ptr + 32 + 32 * (key - (dst + 1)) == ptr + 32 * (key - dst);
      }
    }
  }

  lemma OddBit(x: nat)
    ensures And(x, 1) == x % 2
  {
    SmallPowers();
    LowMask(x, 1);
  }

  /** The low bit of slot 0 tells the long form from the short one. */
  lemma HeaderParity(dataSlot: nat, s: Bytes)
    ensures Encoding(dataSlot, s, 0) % 2 == if |s| < 32 then 0 else 1
  {
    if |s| < 32 {
      PaddedIsMultiple(s);
      ShortHeader(WordOf(s + Zeros(32 - |s|)), |s|);
    }
  }

  /** The string as the calldata decoder lays it out: length, bytes, and a zero word after them. */
  function PlaceString(memory: Memory, ptr: nat, s: Bytes): Memory {
    MStore(StoreBytes(MStore(memory, ptr, |s|), ptr + WORD_BYTES, s), ptr + |s| + WORD_BYTES, 0)
  }

  lemma StringIsPlaced(memory: Memory, m: Memory, ptr: nat, s: Bytes)
    requires |s| < WORD_LIMIT && m == PlaceString(memory, ptr, s)
    ensures HoldsString(m, ptr, s)
  {
    var m1 := MStore(memory, ptr, |s|);
    MLoadAfterMStore(memory, ptr, |s|);
    MLoadElsewhere(m1, m, ptr);
  }

  function LastFitting(greetings: seq<Bytes>, first: Bytes): Bytes {
    if greetings == [] then first
    else
      var last := greetings[|greetings| - 1];
      if Fits(last) then last else LastFitting(greetings[..|greetings| - 1], first)
  }

  class Contract {
    // The Pedersen hash of 32 zero bytes: where the data area of slot 0 starts.
    const dataSlot: nat

    var storage: Storage
    var memory: Memory

    // The last string set.
    ghost var greeting: Bytes

    /** The storage is the canonical encoding of the greeting. */
    ghost predicate Stored()
      reads this
    {
      DataSlotOk(dataSlot) && Canonical(storage, dataSlot, greeting)
    }

    ghost predicate Valid()
      reads this
    {
      Stored() && Fits(greeting)
    }

    /** A fresh contract: storage is all zeros, the encoding of the empty string. */
    constructor (dataSlot: nat)
      requires DataSlotOk(dataSlot)
      ensures Valid() && greeting == [] && this.dataSlot == dataSlot
    {
      this.dataSlot := dataSlot;
      storage, memory, greeting := map[], ZERO_MEMORY, [];
      new;
      WordOfZeros(32);
      assert [] + Zeros(32) == Zeros(32);
    }

    /** And with the mask that clears the low five bits: the part of a length that fills whole words. */
    method LoopEnd(length: nat) returns (whole: nat)
      requires length < WORD_LIMIT
      ensures whole == 32 * (length / 32)
    {
      ClearLowBits(length);
      whole := And(length, WORD_LIMIT - 32);
    }

    // ---------- Storing ----------

    /** `array_dataslot_string_storage`: the hash is taken over the scratch word at 0. */
    method ArrayDataSlot() returns (data: nat)
      modifies this`memory
      ensures data == dataSlot && memory == MStore(old(memory), 0, 0)
    {
      memory := MStore(memory, 0, 0);
      data := dataSlot;
    }

    /** `__warp_loop_4`: zero the slots from `start` up to `end`. */
    method ClearSlots(end: nat, start: nat) returns (start': nat)
      requires end < WORD_LIMIT
      modifies this`storage
      ensures forall key: nat :: Read(storage, key) == if start <= key < end then 0 else Read(old(storage), key)
      decreases end - start
    {
      if !(start < end) {
        return start;
      }
      storage := storage[start := 0];
      start' := ClearSlots(end, Add(start, 1));
    }

    /** `clean_up_bytearray_end_slots_string_storage` */
    method CleanUp(len: nat, startIndex: nat)
      requires DataSlotOk(dataSlot) && len <= MAX_UINT64 && startIndex <= MAX_UINT64
      modifies this`storage, this`memory
      ensures memory == old(memory) || memory == MStore(old(memory), 0, 0)
      ensures Cleared(storage, old(storage), dataSlot, len, startIndex)
    {
      if len > 31 {
        FiveBitShift(startIndex + 31);
        FiveBitShift(len + 31);
        SlotSpace(len);
        SlotSpace(startIndex);
        var data := ArrayDataSlot();
        var deleteStart := Add(data, Shr(5, Add(startIndex, 31)));
        if startIndex < 32 {
          deleteStart := data;
        }
        var end := Add(data, Shr(5, Add(len, 31)));
        var start := ClearSlots(end, deleteStart);
      }
    }

    /** `__warp_loop_5`: copy k full words of a long string. */
    method CopyWords(dstPtr: nat, i: nat, loopEnd: nat, src: nat, srcOffset: nat, ghost k: nat)
      returns (dstPtr': nat, srcOffset': nat)
      requires loopEnd <= MAX_UINT64 && loopEnd == i + 32 * k
      requires dstPtr + k < WORD_LIMIT && src + srcOffset + 32 * k < WORD_LIMIT
      modifies this`storage
      ensures dstPtr' == dstPtr + k && srcOffset' == srcOffset + 32 * k
      ensures MemoryWritten(storage, old(storage), dstPtr, memory, src + srcOffset, k)
      decreases k
    {
      if !(i < loopEnd) {
        return dstPtr, srcOffset;
      }
      storage := storage[dstPtr := MLoad(memory, Add(src, srcOffset))];
      ghost var stored := storage;
      ReadAfterWrite(old(storage), dstPtr, MLoad(memory, src + srcOffset));
      dstPtr', srcOffset' := CopyWords(Add(dstPtr, 1), Add(i, 32), loopEnd, src, Add(srcOffset, 32), k - 1);
      OneWordFirst(storage, stored, old(storage), dstPtr, memory, src + srcOffset, k);
    }

    /** The k full words of a long string. */
    method CopyFullWords(loopEnd: nat, src: nat, ghost s: Bytes, ghost k: nat) returns (dst: nat, srcOffset: nat)
      requires DataSlotOk(dataSlot) && loopEnd == 32 * k <= |s| <= MAX_UINT64
      requires 32 <= src <= MAX_UINT64
      requires HoldsBytes(memory, src + WORD_BYTES, s)
      modifies this`storage, this`memory
      ensures dst == dataSlot + k && srcOffset == 32 + loopEnd
      ensures memory == MStore(old(memory), 0, 0)
      ensures WordsWritten(storage, old(storage), dataSlot, s, k)
    {
      SlotSpace(|s|);
      var dstPtr := ArrayDataSlot();
      ScratchKeepsBytes(old(memory), src + WORD_BYTES, s);
      dst, srcOffset := CopyWords(dstPtr, 0, loopEnd, src, 32, k);
      FullWordsWritten(storage, old(storage), dataSlot, memory, src + 32, s, k);
    }

    /** The data words of a long string. */
    method CopyData(newLen: nat, src: nat, ghost s: Bytes)
      requires DataSlotOk(dataSlot) && newLen == |s| && 31 < newLen <= MAX_UINT64
      requires 32 <= src <= MAX_UINT64
      requires HoldsBytes(memory, src + WORD_BYTES, s)
      modifies this`storage, this`memory
      ensures WordsWritten(storage, old(storage), dataSlot, s, ChunkCount(newLen))
    {
      var loopEnd := LoopEnd(newLen);
      ghost var k := newLen / 32;
      ScratchKeepsBytes(memory, src + WORD_BYTES, s);
      var dst, srcOffset := CopyFullWords(loopEnd, src, s, k);
      ghost var full := storage;
      CopyTail(dst, loopEnd, newLen, src, srcOffset, s, k);
      TailWritten(old(storage), full, storage, dataSlot, s, k);
    }

    /** `__warp_if_9`: the last word, if the string does not end at a word boundary. */
    method CopyTail(dst: nat, loopEnd: nat, newLen: nat, src: nat, srcOffset: nat, ghost s: Bytes, ghost k: nat)
      requires newLen == |s| && 31 < newLen <= MAX_UINT64 && src <= MAX_UINT64
      requires loopEnd == 32 * k <= newLen < 32 * k + 32
      requires srcOffset == 32 + 32 * k
      requires HoldsBytes(memory, src + WORD_BYTES, s)
      modifies this`storage
      ensures storage == if loopEnd < newLen then old(storage)[dst := DataWord(s, k)] else old(storage)
    {
      if loopEnd < newLen {
        CopyLastWord(dst, newLen, src, srcOffset, s, k);
      }
    }

    /** `__warp_block_10`: the long form. */
    method CopyLong(newLen: nat, src: nat, ghost s: Bytes)
      requires DataSlotOk(dataSlot) && newLen == |s| && 31 < newLen <= MAX_UINT64
      requires 32 <= src <= MAX_UINT64
      requires HoldsBytes(memory, src + WORD_BYTES, s)
      modifies this`storage, this`memory
      ensures Written(storage, old(storage), dataSlot, s)
    {
      CopyData(newLen, src, s);
      ghost var words := storage;
      WriteHeader(newLen);
      HeaderWritten(old(storage), words, storage, dataSlot, s);
    }

    /** The slot of a long string's length. */
    method WriteHeader(newLen: nat)
      requires newLen <= MAX_UINT64
      modifies this`storage
      ensures storage == old(storage)[0 := 2 * newLen + 1]
    {
      ShiftsOfLength(newLen);
      storage := storage[0 := Add(Shl(1, newLen), 1)];
    }

    /** `__warp_block_11`: the last word of a long string, with what follows it masked off. */
    method CopyLastWord(dstPtr: nat, newLen: nat, src: nat, srcOffset: nat, ghost s: Bytes, ghost k: nat)
      requires newLen == |s| && 31 < newLen <= MAX_UINT64 && 32 * k < newLen < 32 * k + 32
      requires src <= MAX_UINT64 && srcOffset == 32 + 32 * k
      requires HoldsBytes(memory, src + WORD_BYTES, s)
      modifies this`storage
      ensures storage == old(storage)[dstPtr := DataWord(s, k)]
    {
      var addr := Add(src, srcOffset);
      var lastValue := MLoad(memory, addr);
      ghost var bs := LoadBytes(memory, addr, WORD_BYTES);
      ghost var tail := s[32 * k..];
      assert forall j :: 0 <= j < |tail| ==> bs[j] == s[32 * k + j];
      assert bs[..|tail|] == tail;
      LastChunk(bs, s, k);
      storage := storage[dstPtr := LastWord(lastValue, newLen)];
    }

    /** `__warp_block_12`: the short form. */
    method CopyShort(newLen: nat, src: nat, ghost s: Bytes)
      requires newLen == |s| <= 31 && src <= MAX_UINT64
      requires HoldsBytes(memory, src + WORD_BYTES, s)
      modifies this`storage
      ensures Written(storage, old(storage), dataSlot, s)
    {
      var value := 0;
      ghost var bs := Zeros(32);
      WordOfZeros(32);
      if newLen != 0 {
        value := MLoad(memory, Add(src, 32));
        bs := LoadBytes(memory, src + 32, WORD_BYTES);
      }
      assert bs[..|s|] == s;
      ShortEncoding(dataSlot, bs, s);
      storage := storage[0 := UsedPartAndLength(value, newLen)];
    }

    /**
     `copy_byte_array_to_storage_from_string_to_string`. The storage is the canonical encoding of the new
     string, however long the old one was and whatever follows the new one in memory; a string longer than
     2^64 - 1 bytes reverts.
     */
    method CopyToStorage(src: nat, ghost s: Bytes) returns (ok: bool)
      requires Stored() && HoldsString(memory, src, s) && 32 <= src <= MAX_UINT64
      modifies this
      ensures Stored()
      ensures ok <==> |s| <= MAX_UINT64
      ensures greeting == if ok then s else old(greeting)
      ensures !ok ==> storage == old(storage)
    {
      var newLen := MLoad(memory, src);
      if newLen > MAX_UINT64 {
        return false;
      }
      ExtractLengthOfEncoding(dataSlot, greeting);
      var len := ExtractByteArrayLength(Read(storage, 0));
      if len.None? {
        return false;
      }
      ScratchKeepsBytes(memory, src + WORD_BYTES, s);
      CleanUp(len.value, newLen);
      ghost var cleared := storage;
      if newLen > 31 {
        CopyLong(newLen, src, s);
      } else {
        CopyShort(newLen, src, s);
      }
      ClearThenWrite(old(storage), cleared, storage, dataSlot, greeting, s);
      greeting := s;
      return true;
    }

    // ---------- Loading ----------

    /**
     `finalize_allocation`, for any two words: it reverts exactly when the free pointer would leave 64 bits. A
     size within 31 bytes of 2^256 wraps and reserves nothing.
     */
    method FinalizeAllocation(memPtr: nat, size: nat) returns (ok: bool)
      requires memPtr < WORD_LIMIT && size < WORD_LIMIT
      modifies this`memory
      ensures ok <==> memPtr + Reserved(size) <= MAX_UINT64
      ensures memory == if ok then MStore(old(memory), FREE_POINTER, memPtr + Reserved(size)) else old(memory)
    {
      var whole := LoopEnd(Add(size, 31));
      WholeWords(size, whole);
      var newFreePtr := Add(memPtr, whole);
      if newFreePtr > MAX_UINT64 || newFreePtr < memPtr {
        return false;
      }
      memory := MStore(memory, FREE_POINTER, newFreePtr);
      return true;
    }

    /** `__warp_loop_body_3`: copy one data word to memory. */
    method LoadWord(dataPos: nat, i: nat, memPtr: nat, ghost s: Bytes, ghost k: nat) returns (dataPos': nat)
      requires memPtr <= MAX_UINT64 && i == 32 * k < |s| <= MAX_UINT64
      requires dataPos + 1 < WORD_LIMIT && Read(storage, dataPos) == DataWord(s, k)
      modifies this`memory
      ensures dataPos' == dataPos + 1
      ensures Loaded(memory, old(memory), memPtr + 32, s, i, i + 32)
    {
      MStoreDataWord(memory, memPtr + 32, s, k);
      memory := MStore(memory, Add(Add(memPtr, i), 32), Read(storage, dataPos));
      dataPos' := Add(dataPos, 1);
    }

    /** `__warp_loop_3`: copy the data words to memory. */
    method LoadWords(dataPos: nat, i: nat, length: nat, memPtr: nat, ghost s: Bytes, ghost k: nat)
      returns (dataPos': nat, i': nat)
      requires DataSlotOk(dataSlot) && length == |s| <= MAX_UINT64 && memPtr <= MAX_UINT64
      requires forall j: nat :: SlotHolds(storage, dataSlot, s, j)
      requires i == 32 * k && dataPos == dataSlot + k && k <= ChunkCount(length)
      modifies this`memory
      ensures i' == RoundUp(length)
      ensures Loaded(memory, old(memory), memPtr + 32, s, i, i')
      decreases ChunkCount(length) - k
    {
      SlotSpace(length);
      WordSteps(k, length);
      if !(i < length) {
        return dataPos, i;
      }
      assert SlotHolds(storage, dataSlot, s, k);
      var nextPos := LoadWord(dataPos, i, memPtr, s, k);
      ghost var stored := memory;
      dataPos', i' := LoadWords(nextPos, Add(i, 32), length, memPtr, s, k + 1);
      LoadedInTwo(memory, stored, old(memory), memPtr + 32, s, i, i + 32, i');
    }

    /** The size of a string in memory as the load code allocates it. */
    ghost function LoadedSize(): nat
      reads this
    {
      SizeInMemory(|greeting|)
    }

    /** `__warp_block_16`: the short form. */
    method LoadShort(memPtr: nat, slotValue: nat) returns (ret: nat)
      requires Stored() && |greeting| < 32 && slotValue == Read(storage, 0) && memPtr <= MAX_UINT64
      modifies this`memory
      ensures ret == memPtr + 64
      ensures Loaded(memory, old(memory), memPtr + 32, greeting, 0, 32)
    {
      var word := And(slotValue, WORD_LIMIT - 256);
      ghost var padded := greeting + Zeros(32 - |greeting|);
      ShortSlot(dataSlot, greeting, padded);
      MStorePadded(memory, memPtr + 32, greeting, padded);
      memory := MStore(memory, Add(memPtr, 32), word);
      ret := Add(memPtr, 64);
    }

    /** `__warp_block_18`: the long form. */
    method LoadLong(length: nat, memPtr: nat) returns (ret: nat)
      requires Stored() && length == |greeting| > 31 && INITIAL_FREE <= memPtr <= MAX_UINT64
      modifies this`memory
      ensures ret == memPtr + 32 + RoundUp(length)
      ensures Loaded(memory, MStore(old(memory), 0, 0), memPtr + 32, greeting, 0, RoundUp(length))
    {
      SlotSpace(length);
      var dataPos := ArrayDataSlot();
      var i;
      forall j: nat
        ensures SlotHolds(storage, dataSlot, greeting, j)
      {
        SlotHoldsWord(storage, dataSlot, greeting, j);
      }
      dataPos, i := LoadWords(dataPos, 0, length, memPtr, greeting, 0);
      ret := Add(Add(memPtr, i), 32);
    }

    /** `__warp_block_14`: the bytes of the string, in the form the low bit of slot 0 tells. */
    method LoadContents(length: nat, memPtr: nat, slotValue: nat) returns (ret: nat)
      requires Stored() && length == |greeting| && slotValue == Read(storage, 0)
      requires INITIAL_FREE <= memPtr <= MAX_UINT64
      modifies this`memory
      ensures ret == memPtr + LoadedSize()
      ensures HoldsBytes(memory, memPtr + WORD_BYTES, greeting)
      ensures MLoad(memory, memPtr) == MLoad(old(memory), memPtr)
    {
      OddBit(slotValue);
      HeaderParity(dataSlot, greeting);
      ret := 0;
      if And(slotValue, 1) == 0 {
        ret := LoadShort(memPtr, slotValue);
        LoadedString(memory, old(memory), memPtr, greeting, 32);
      } else if And(slotValue, 1) == 1 {
        ghost var scratch := MStore(memory, 0, 0);
        MLoadElsewhere(memory, scratch, memPtr);
        ret := LoadLong(length, memPtr);
        SlotSpace(length);
        LoadedString(memory, scratch, memPtr, greeting, RoundUp(length));
      }
    }

    /** The length word and the bytes. The encoding check never fails. */
    method LoadValue(memPtr: nat) returns (checked: bool, ret: nat)
      requires Stored() && INITIAL_FREE <= memPtr <= MAX_UINT64
      modifies this`memory
      ensures checked && ret == memPtr + LoadedSize()
      ensures HoldsString(memory, memPtr, greeting)
    {
      checked, ret := false, 0;
      var slotValue := Read(storage, 0);
      ExtractLengthOfEncoding(dataSlot, greeting);
      var length := ExtractByteArrayLength(slotValue);
      if length.None? {
        return;
      }
      memory := MStore(memory, memPtr, length.value);
      MLoadAfterMStore(old(memory), memPtr, length.value);
      ret := LoadContents(length.value, memPtr, slotValue);
      checked := true;
    }

    /** Moving the free pointer past the string leaves the string alone. */
    method FinishLoad(memPtr: nat, size: nat, ghost s: Bytes) returns (ok: bool)
      requires INITIAL_FREE <= memPtr <= MAX_UINT64 && size <= 2 * MAX_UINT64 && size % 32 == 0
      requires HoldsString(memory, memPtr, s)
      modifies this`memory
      ensures ok <==> memPtr + size <= MAX_UINT64
      ensures HoldsString(memory, memPtr, s)
    {
      ghost var loaded := memory;
      RoundUpOfMultiple(size);
      ok := FinalizeAllocation(memPtr, size);
      if ok {
        MStoreElsewhere(loaded, FREE_POINTER, memPtr + size, memPtr + WORD_BYTES, s);
        MLoadElsewhere(loaded, memory, memPtr);
      }
    }

    /**
     `copy_array_from_storage_to_memory_string`. The encoding check never fails, storage is not touched, and
     the string left in memory is the one last stored.
     */
    method LoadString() returns (memPtr: nat, ok: bool)
      requires Stored() && INITIAL_FREE <= MLoad(memory, FREE_POINTER) <= MAX_UINT64
      modifies this`memory
      ensures memPtr == old(MLoad(memory, FREE_POINTER))
      ensures ok <==> memPtr + LoadedSize() <= MAX_UINT64
      ensures ok ==> HoldsString(memory, memPtr, greeting)
    {
      memPtr := MLoad(memory, FREE_POINTER);
      var checked, ret := LoadValue(memPtr);
      if !checked {
        return memPtr, false;
      }
      SizeOfLoaded(|greeting|);
      ok := FinishLoad(memPtr, ret - memPtr, greeting);
    }

    // ---------- The two entry points ----------

    /** Fresh memory, and room in it for a string of the given length. */
    method Allocate(length: nat) returns (memPtr: nat, ok: bool)
      modifies this`memory
      ensures memPtr == INITIAL_FREE
      ensures ok <==> INITIAL_FREE + 32 + RoundUp(length) <= MAX_UINT64
    {
      memory := MStore(ZERO_MEMORY, FREE_POINTER, INITIAL_FREE);
      MLoadAfterMStore(ZERO_MEMORY, FREE_POINTER, INITIAL_FREE);
      memPtr := MLoad(memory, FREE_POINTER);
      RoundUpBounds(length);
      if length > MAX_UINT64 {
        return memPtr, false;
      }
      var whole := LoopEnd(Add(length, 31));
      RoundUpOfMultiple(whole + 32);
      ok := FinalizeAllocation(memPtr, Add(whole, 32));
    }

    /** `setGreeting`: the string is copied from calldata to fresh memory and stored. */
    method SetGreeting(s: Bytes) returns (ok: bool)
      requires Valid()
      modifies this
      ensures Valid()
      ensures ok <==> Fits(s)
      ensures greeting == if ok then s else old(greeting)
      ensures !ok ==> storage == old(storage)
    {
      var memPtr;
      memPtr, ok := Allocate(|s|);
      if !ok {
        return;
      }
      RoundUpBounds(|s|);
      ghost var reserved := memory;
      memory := PlaceString(memory, memPtr, s);
      StringIsPlaced(reserved, memory, memPtr, s);
      ok := CopyToStorage(memPtr, s);
    }

    /**
     `greet`: it returns the string that is stored, and reverts exactly when that does not fit memory. After any
     run of calls it fits, so `greet` never reverts.
     */
    method Greet() returns (ok: bool, reply: Bytes)
      requires Stored()
      modifies this`memory
      ensures ok <==> Fits(greeting)
      ensures ok ==> reply == greeting
      ensures Valid() ==> ok && reply == greeting
    {
      memory := MStore(ZERO_MEMORY, FREE_POINTER, INITIAL_FREE);
      MLoadAfterMStore(ZERO_MEMORY, FREE_POINTER, INITIAL_FREE);
      var memPtr;
      memPtr, ok := LoadString();
      if !ok {
        return false, [];
      }
      reply := LoadBytes(memory, memPtr + WORD_BYTES, MLoad(memory, memPtr));
    }

    /** Any run of calls: storage ends as the canonical encoding of the last string that was not too long. */
    method SetAll(greetings: seq<Bytes>)
      requires Valid()
      modifies this
      ensures Valid() && greeting == LastFitting(greetings, old(greeting))
      ensures Canonical(storage, dataSlot, LastFitting(greetings, old(greeting)))
    {
      for i := 0 to |greetings|
        invariant Valid() && greeting == LastFitting(greetings[..i], old(greeting))
      {
        assert greetings[..i + 1][..i] == greetings[..i];
        var ok := SetGreeting(greetings[i]);
      }
      assert greetings[..|greetings|] == greetings;
    }

    /** And a call of `greet` after it answers with that string. */
    method SetAllAndGreet(greetings: seq<Bytes>) returns (reply: Bytes)
      requires Valid()
      modifies this
      ensures Valid() && reply == greeting == LastFitting(greetings, old(greeting))
    {
      SetAll(greetings);
      var ok;
      ok, reply := Greet();
    }
  }
}
