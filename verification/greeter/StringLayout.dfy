/**
 The layout of a string in contract storage, as the Solidity documentation defines it in "Layout of State
 Variables in Storage", section "bytes and string", and the pure bit arithmetic of the compiled code.
 */
module StringLayout {
  import opened Common
  import opened Words

  /** Contract storage; a slot that was never written reads as zero. */
  type Storage = map<nat, nat>

  /** Byte-addressed memory. */
  type Memory = nat -> Byte

  /** Memory at the start of a call. */
  const ZERO_MEMORY: Memory := a => 0

  const MAX_UINT64: nat := 0xFFFF_FFFF_FFFF_FFFF

  function Read(storage: Storage, key: nat): nat {
    if key in storage then storage[key] else 0
  }

  function ByteAt(memory: Memory, addr: nat): Byte {
    memory(addr)
  }

  function LoadBytes(memory: Memory, addr: nat, n: nat): Bytes {
    seq(n, i requires 0 <= i => ByteAt(memory, addr + i))
  }

  function MLoad(memory: Memory, addr: nat): nat {
    WordOf(LoadBytes(memory, addr, WORD_BYTES))
  }

  function StoreBytes(memory: Memory, addr: nat, bs: Bytes): Memory {
    (a: nat) => if addr <= a < addr + |bs| then bs[a - addr] else memory(a)
  }

  function MStore(memory: Memory, addr: nat, word: nat): Memory {
    StoreBytes(memory, addr, BytesOf(word, WORD_BYTES))
  }

  lemma MLoadOfBytes(memory: Memory, addr: nat, bs: Bytes)
    requires |bs| == WORD_BYTES && forall i :: 0 <= i < WORD_BYTES ==> ByteAt(memory, addr + i) == bs[i]
    ensures MLoad(memory, addr) == WordOf(bs)
  {
    assert LoadBytes(memory, addr, WORD_BYTES) == bs;
  }

  lemma MLoadAfterMStore(memory: Memory, addr: nat, word: nat)
    requires word < WORD_LIMIT
    ensures MLoad(MStore(memory, addr, word), addr) == word
  {
    var n := WORD_BYTES;
    WordLimitIsPower(8 * n);
    WordOfBytes(word, n);
    MLoadOfBytes(MStore(memory, addr, word), addr, BytesOf(word, WORD_BYTES));
  }

  ghost predicate HoldsBytes(memory: Memory, ptr: nat, s: Bytes) {
    forall i :: 0 <= i < |s| ==> ByteAt(memory, ptr + i) == s[i]
  }

  /** A string in memory: its length, then its bytes. Nothing is said about what follows it. */
  ghost predicate HoldsString(memory: Memory, ptr: nat, s: Bytes) {
    && MLoad(memory, ptr) == |s|
    && HoldsBytes(memory, ptr + WORD_BYTES, s)
  }

  // ---------- The canonical encoding ----------

  function ChunkCount(n: nat): nat {
    (n + 31) / 32
  }

  /** Word i of a string, filled up with zeros. */
  function Chunk(s: Bytes, i: nat): (c: Bytes)
    requires 32 * i < |s|
    ensures |c| == WORD_BYTES
  {
    if 32 * i + 32 <= |s| then s[32 * i..32 * i + 32] else s[32 * i..] + Zeros(32 * i + 32 - |s|)
  }

  /** Word i of the data area of a string. */
  function DataWord(s: Bytes, i: nat): nat {
    if 32 * i < |s| then WordOf(Chunk(s, i)) else 0
  }

  /** What slot `key` holds when the string variable in slot 0 is s and its data area starts at dataSlot. */
  function Encoding(dataSlot: nat, s: Bytes, key: nat): nat {
    if |s| < 32 then
      if key == 0 then WordOf(s + Zeros(32 - |s|)) + 2 * |s| else 0
    else if key == 0 then 2 * |s| + 1
    else if dataSlot <= key then DataWord(s, key - dataSlot)
    else 0
  }

  /** How many slots of the data area a string of length n uses. */
  function SlotsUsed(n: nat): nat {
    if n < 32 then 0 else ChunkCount(n)
  }

  ghost predicate Canonical(storage: Storage, dataSlot: nat, s: Bytes) {
    |s| <= MAX_UINT64 && forall key :: Read(storage, key) == Encoding(dataSlot, s, key)
  }

  ghost predicate SlotHolds(storage: Storage, dataSlot: nat, s: Bytes, k: nat) {
    Read(storage, dataSlot + k) == DataWord(s, k)
  }

  lemma SlotHoldsWord(storage: Storage, dataSlot: nat, s: Bytes, k: nat)
    requires dataSlot > 0 && |s| > 31 && Canonical(storage, dataSlot, s)
    ensures SlotHolds(storage, dataSlot, s, k)
  {
    assert Read(storage, dataSlot + k) == Encoding(dataSlot, s, dataSlot + k);
  }

  /** st is st0 with the slots cleared that a string of length len used and one of length newLen does not. */
  ghost predicate Cleared(st: Storage, st0: Storage, dataSlot: nat, len: nat, newLen: nat) {
    forall key: nat :: Read(st, key) ==
      if len > 31 && dataSlot + SlotsUsed(newLen) <= key < dataSlot + ChunkCount(len) then 0 else Read(st0, key)
  }

  /** st is st0 with k words of memory written from dst on. */
  ghost predicate MemoryWritten(st: Storage, st0: Storage, dst: nat, memory: Memory, ptr: nat, k: nat) {
    forall key: nat :: Read(st, key) ==
      if dst <= key < dst + k then MLoad(memory, ptr + 32 * (key - dst)) else Read(st0, key)
  }

  lemma FullWordsWritten(st: Storage, st0: Storage, dataSlot: nat, memory: Memory, ptr: nat, s: Bytes, k: nat)
    requires MemoryWritten(st, st0, dataSlot, memory, ptr, k)
    requires 32 * k <= |s| && HoldsBytes(memory, ptr, s)
    ensures WordsWritten(st, st0, dataSlot, s, k)
  {
    forall key: nat
      ensures Read(st, key) == if dataSlot <= key < dataSlot + k then DataWord(s, key - dataSlot) else Read(st0, key)
    {
      FullSlotWritten(st, st0, dataSlot, memory, ptr, s, k, key);
    }
  }

  lemma FullSlotWritten(st: Storage, st0: Storage, dataSlot: nat, memory: Memory, ptr: nat, s: Bytes, k: nat, key: nat)
    requires MemoryWritten(st, st0, dataSlot, memory, ptr, k)
    requires 32 * k <= |s| && HoldsBytes(memory, ptr, s)
    ensures Read(st, key) == if dataSlot <= key < dataSlot + k then DataWord(s, key - dataSlot) else Read(st0, key)
  {
    if dataSlot <= key < dataSlot + k {
      FullWord(memory, ptr, s, key - dataSlot);
    }
  }

  /** st is st0 with the first n words of the data area of s written. */
  ghost predicate WordsWritten(st: Storage, st0: Storage, dataSlot: nat, s: Bytes, n: nat) {
    forall key: nat :: Read(st, key) ==
      if dataSlot <= key < dataSlot + n then DataWord(s, key - dataSlot) else Read(st0, key)
  }

  /** The update at one slot; word stands for the new data word. */
  lemma OneMoreSlot(st0: Storage, st1: Storage, dataSlot: nat, s: Bytes, k: nat, word: nat, key: nat)
    requires WordsWritten(st1, st0, dataSlot, s, k) && word == DataWord(s, k)
    ensures Read(st1[dataSlot + k := word], key) ==
            if dataSlot <= key < dataSlot + k + 1 then DataWord(s, key - dataSlot) else Read(st0, key)
  {
    ReadOne(st1, dataSlot + k, word, key);
    if key == dataSlot + k {
      assert key - dataSlot == k;
    } else {
      assert dataSlot <= key < dataSlot + k + 1 <==> dataSlot <= key < dataSlot + k;
    }
  }

  lemma OneMoreWord(st0: Storage, st1: Storage, st2: Storage, dataSlot: nat, s: Bytes, k: nat)
    requires WordsWritten(st1, st0, dataSlot, s, k)
    requires st2 == st1[dataSlot + k := DataWord(s, k)]
    ensures WordsWritten(st2, st0, dataSlot, s, k + 1)
  {
    forall key: nat
      ensures Read(st2, key) == if dataSlot <= key < dataSlot + k + 1 then DataWord(s, key - dataSlot) else Read(st0, key)
    {
      OneMoreSlot(st0, st1, dataSlot, s, k, DataWord(s, k), key);
    }
  }

  /** The full words and then the rest, if there is one. */
  lemma TailWritten(st0: Storage, st1: Storage, st2: Storage, dataSlot: nat, s: Bytes, k: nat)
    requires WordsWritten(st1, st0, dataSlot, s, k) && 32 * k <= |s| < 32 * k + 32
    requires st2 == if 32 * k < |s| then st1[dataSlot + k := DataWord(s, k)] else st1
    ensures WordsWritten(st2, st0, dataSlot, s, ChunkCount(|s|))
  {
    if 32 * k < |s| {
      assert ChunkCount(|s|) == k + 1;
      OneMoreWord(st0, st1, st2, dataSlot, s, k);
    } else {
      assert ChunkCount(|s|) == k;
    }
  }

  lemma ReadOne(st: Storage, slot: nat, word: nat, key: nat)
    ensures Read(st[slot := word], key) == if key == slot then word else Read(st, key)
  {
  }

  lemma ReadAfterWrite(st: Storage, slot: nat, word: nat)
    ensures forall key: nat :: Read(st[slot := word], key) == if key == slot then word else Read(st, key)
  {
    forall key: nat
      ensures Read(st[slot := word], key) == if key == slot then word else Read(st, key)
    {
      ReadOne(st, slot, word, key);
    }
  }

  /** st is st0 with the slots of s written. */
  ghost predicate Written(st: Storage, st0: Storage, dataSlot: nat, s: Bytes) {
    forall key: nat :: Read(st, key) ==
      if key == 0 || dataSlot <= key < dataSlot + SlotsUsed(|s|) then Encoding(dataSlot, s, key) else Read(st0, key)
  }

  /** The data words and then the header make up the whole string. */
  lemma HeaderWritten(st0: Storage, st1: Storage, st2: Storage, dataSlot: nat, s: Bytes)
    requires dataSlot > 0 && |s| > 31 && WordsWritten(st1, st0, dataSlot, s, ChunkCount(|s|))
    requires st2 == st1[0 := 2 * |s| + 1]
    ensures Written(st2, st0, dataSlot, s)
  {
    forall key: nat
      ensures Read(st2, key) ==
        if key == 0 || dataSlot <= key < dataSlot + SlotsUsed(|s|) then Encoding(dataSlot, s, key) else Read(st0, key)
    {
      HeaderWrittenAt(st0, st1, dataSlot, s, 2 * |s| + 1, key);
    }
  }

  lemma HeaderWrittenAt(st0: Storage, st1: Storage, dataSlot: nat, s: Bytes, header: nat, key: nat)
    requires dataSlot > 0 && |s| > 31 && WordsWritten(st1, st0, dataSlot, s, ChunkCount(|s|))
    requires header == 2 * |s| + 1
    ensures Read(st1[0 := header], key) ==
      if key == 0 || dataSlot <= key < dataSlot + SlotsUsed(|s|) then Encoding(dataSlot, s, key) else Read(st0, key)
  {
    ReadOne(st1, 0, header, key);
  }

  /** Clearing and then writing takes the encoding of any string to the encoding of the new one. */
  lemma ClearThenWrite(st0: Storage, st1: Storage, st2: Storage, dataSlot: nat, before: Bytes, s: Bytes)
    requires dataSlot > 0 && |s| <= MAX_UINT64
    requires Canonical(st0, dataSlot, before)
    requires Cleared(st1, st0, dataSlot, |before|, |s|) && Written(st2, st1, dataSlot, s)
    ensures Canonical(st2, dataSlot, s)
  {
    forall key: nat
      ensures Read(st2, key) == Encoding(dataSlot, s, key)
    {
      if key != 0 && !(dataSlot <= key < dataSlot + SlotsUsed(|s|)) {
        assert Read(st2, key) == Read(st1, key);
        assert Read(st0, key) == Encoding(dataSlot, before, key);
      }
    }
  }

  /** The data area does not cover slot 0 and does not wrap, for any length the code accepts. */
  predicate DataSlotOk(dataSlot: nat) {
    0 < dataSlot && dataSlot + ChunkCount(MAX_UINT64) < WORD_LIMIT
  }

  // ---------- Bit arithmetic of the compiled code ----------

  /** `extract_byte_array_length`; None is its encoding check failing. */
  function ExtractByteArrayLength(data: nat): Option<nat> {
    var outOfPlaceEncoding := And(data, 1);
    var length := if outOfPlaceEncoding == 0 then And(Shr(1, data), 127) else Shr(1, data);
    if (outOfPlaceEncoding == 1) == (length < 32) then None else Some(length)
  }

  /** `extract_used_part_and_set_length_of_short_byte_array` */
  function UsedPartAndLength(data: nat, len: nat): nat
    requires Shr(Shl(3, len), MAX_WORD) < WORD_LIMIT
  {
    Or(And(data, Not(Shr(Shl(3, len), MAX_WORD))), Shl(1, len))
  }

  /** The mask of the last word of a long string, `__warp_block_11`. */
  function LastWord(lastValue: nat, newLen: nat): nat
    requires Shr(And(Shl(3, newLen), 248), MAX_WORD) < WORD_LIMIT
  {
    And(lastValue, Not(Shr(And(Shl(3, newLen), 248), MAX_WORD)))
  }

  lemma SmallPowers()
    ensures Pow2(1) == 2 && Pow2(3) == 8 && Pow2(5) == 32 && Pow2(7) == 128 && Pow2(8) == 256
  {
  }

  /** Multiples of 256 stay so when a word is split after fewer than 32 bytes. */
  lemma PaddedIsMultiple(s: Bytes)
    requires |s| < 32
    ensures WordOf(s + Zeros(32 - |s|)) % 256 == 0
  {
    var padded := s + Zeros(32 - |s|);
    ClearTail(padded, 31);
    assert padded[..31] + Zeros(1) == padded;
    SmallPowers();
  }

  lemma ShortHeader(word: nat, n: nat)
    requires word % 256 == 0 && n < 32
    ensures (word + 2 * n) % 2 == 0 && (word + 2 * n) / 2 % 128 == n
  {
    var q := word / 256;
    assert word + 2 * n == 2 * (128 * q + n);
    assert (word + 2 * n) / 2 == 128 * q + n;
  }

  /** The check never fails on a canonical slot, and the length read is the string's. */
  lemma ExtractLengthOfEncoding(dataSlot: nat, s: Bytes)
    ensures ExtractByteArrayLength(Encoding(dataSlot, s, 0)) == Some(|s|)
  {
    var data := Encoding(dataSlot, s, 0);
    ExtractInArithmetic(data);
    if |s| < 32 {
      PaddedIsMultiple(s);
      ShortHeader(WordOf(s + Zeros(32 - |s|)), |s|);
    }
  }

  /** The extraction in terms of quotients and remainders. */
  lemma ExtractInArithmetic(data: nat)
    ensures ExtractByteArrayLength(data) ==
            if data % 2 == 0 then if data / 2 % 128 < 32 then Some(data / 2 % 128) else None
            else if data / 2 < 32 then None else Some(data / 2)
  {
    SmallPowers();
    LowMask(data, 1);
    LowMask(Shr(1, data), 7);
    ShrIsQuotient(1, data);
  }

  lemma LessOneFactor(q: nat, p: nat)
    requires q > 0 && p > 0
    ensures q * p - 1 == (q - 1) * p + (p - 1) && q <= q * p
  {
  }

  lemma FiveBitShift(n: nat)
    ensures Shr(5, n) == n / 32
  {
    SmallPowers();
    ShrIsQuotient(5, n);
  }

  lemma ShiftedOnes(shift: nat, k: nat)
    requires shift + k == 256
    ensures Pow2(k) <= WORD_LIMIT
    ensures Shr(shift, MAX_WORD) == Pow2(k) - 1
  {
    WordLimitIsPower(k + shift);
    var p, q := Pow2(shift), Pow2(k);
    Pow2Add(k, shift);
    LessOneFactor(q, p);
    ShrIsQuotient(shift, MAX_WORD);
    QuotientIsUnique(MAX_WORD, p, q - 1, p - 1);
  }

  /** And with the mask of all bits from k on. */
  lemma HighMask(x: nat, k: nat)
    requires x < WORD_LIMIT && k <= 256 && Pow2(k) <= WORD_LIMIT
    ensures And(x, WORD_LIMIT - Pow2(k)) == x - x % Pow2(k)
  {
    HighMaskOf(x, k, 256);
  }

  lemma HighMaskOf(x: nat, k: nat, n: nat)
    requires n == 256 && x < WORD_LIMIT && k <= n && Pow2(k) <= WORD_LIMIT
    ensures And(x, WORD_LIMIT - Pow2(k)) == x - x % Pow2(k)
  {
    WordLimitIsPower(n);
    RangeMask(x, k, n);
    SmallModulo(x, Pow2(n));
  }

  lemma SmallModulo(x: nat, d: nat)
    requires x < d
    ensures x % d == x
  {
  }

  lemma MaskHigh(x: nat, shift: nat, k: nat)
    requires x < WORD_LIMIT && shift + k == 256
    ensures Shr(shift, MAX_WORD) < WORD_LIMIT
    ensures And(x, Not(Shr(shift, MAX_WORD))) == x - x % Pow2(k)
  {
    ShiftedOnes(shift, k);
    HighMask(x, k);
  }

  /** Masking a word with `not(shr(8 * n, MAX))` keeps its first n bytes. */
  lemma MaskKeepsPrefix(bs: Bytes, n: nat)
    requires |bs| == 32 && n <= 32
    ensures Shr(8 * n, MAX_WORD) < WORD_LIMIT
    ensures And(WordOf(bs), Not(Shr(8 * n, MAX_WORD))) == WordOf(bs[..n] + Zeros(32 - n))
  {
    WordBound(bs);
    MaskHigh(WordOf(bs), 8 * n, 8 * (32 - n));
    ClearTail(bs, n);
  }

  lemma ShiftsOfLength(n: nat)
    requires n <= MAX_UINT64
    ensures Shl(3, n) == 8 * n && Shl(1, n) == 2 * n
    ensures And(Shl(3, n), 248) == 8 * (n % 32)
  {
    SmallPowers();
    RangeMask(8 * n, 3, 8);
    MultiplesOfEight(n);
  }

  lemma MultiplesOfEight(n: nat)
    ensures 8 * n % 256 == 8 * (n % 32) && 8 * n % 8 == 0
  {
    EightTimes(n, n / 32, n % 32);
    DivisibleByEight(n);
  }

  lemma EightTimes(n: nat, q: nat, r: nat)
    requires n == 32 * q + r && r < 32
    ensures 8 * n % 256 == 8 * r
  {
    RestOf256(8 * n, q, 8 * r);
  }

  lemma RestOf256(a: nat, q: nat, r: nat)
    requires a == 256 * q + r && r < 256
    ensures a % 256 == r
  {
  }

  lemma DivisibleByEight(n: nat)
    ensures 8 * n % 8 == 0
  {
  }

  /** The slot written for a short string is its canonical encoding, whatever follows it in memory. */
  lemma ShortEncoding(dataSlot: nat, bs: Bytes, s: Bytes)
    requires |s| < 32 && |bs| == 32 && bs[..|s|] == s
    ensures Shr(Shl(3, |s|), MAX_WORD) < WORD_LIMIT
    ensures UsedPartAndLength(WordOf(bs), |s|) == Encoding(dataSlot, s, 0)
  {
    ShiftsOfLength(|s|);
    MaskKeepsPrefix(bs, |s|);
    PaddedIsMultiple(s);
    SmallPowers();
    DisjointOr(WordOf(s + Zeros(32 - |s|)), 2 * |s|, 8);
  }

  /** The last word written for a long string is its canonical last chunk, whatever follows it in memory. */
  lemma LastChunk(bs: Bytes, s: Bytes, k: nat)
    requires 32 <= |s| <= MAX_UINT64 && 32 * k < |s| < 32 * k + 32
    requires |bs| == 32 && bs[..|s| - 32 * k] == s[32 * k..]
    ensures Shr(And(Shl(3, |s|), 248), MAX_WORD) < WORD_LIMIT
    ensures LastWord(WordOf(bs), |s|) == DataWord(s, k)
  {
    var n := |s| - 32 * k;
    RestOfDivision(|s|, k);
    ShiftsOfLength(|s|);
    MaskKeepsPrefix(bs, n);
    assert Chunk(s, k) == bs[..n] + Zeros(32 - n);
  }

  lemma RestOfDivision(n: nat, k: nat)
    requires 32 * k <= n < 32 * k + 32
    ensures n % 32 == n - 32 * k && n / 32 == k
  {
  }

  /** And with the mask that clears the low five or eight bits. */
  lemma ClearLowBits(x: nat)
    requires x < WORD_LIMIT
    ensures And(x, WORD_LIMIT - 32) == x - x % 32
    ensures And(x, WORD_LIMIT - 256) == x - x % 256
  {
    SmallPowers();
    HighMask(x, 5);
    HighMask(x, 8);
  }

  /** A full word read from memory is the canonical chunk. */
  lemma FullWord(memory: Memory, ptr: nat, s: Bytes, i: nat)
    requires 32 * i + 32 <= |s| && HoldsBytes(memory, ptr, s)
    ensures MLoad(memory, ptr + 32 * i) == DataWord(s, i)
  {
    MLoadOfBytes(memory, ptr + 32 * i, Chunk(s, i));
  }

  /** Writing the scratch word at 0 does not touch what lies above it. */
  lemma ScratchKeepsBytes(memory: Memory, ptr: nat, s: Bytes)
    requires ptr >= 32 && HoldsBytes(memory, ptr, s)
    ensures HoldsBytes(MStore(memory, 0, 0), ptr, s)
  {
  }

  /** A word write does not touch bytes and words elsewhere. */
  lemma MStoreElsewhere(memory: Memory, addr: nat, word: nat, ptr: nat, s: Bytes)
    requires ptr + |s| <= addr || addr + 32 <= ptr
    ensures HoldsBytes(memory, ptr, s) ==> HoldsBytes(MStore(memory, addr, word), ptr, s)
  {
  }

  lemma MLoadElsewhere(memory: Memory, m: Memory, ptr: nat)
    requires forall a: nat :: ptr <= a < ptr + 32 ==> ByteAt(m, a) == ByteAt(memory, a)
    ensures MLoad(m, ptr) == MLoad(memory, ptr)
  {
    assert LoadBytes(m, ptr, 32) == LoadBytes(memory, ptr, 32);
  }

  /** Byte k of a string followed by zeros. */
  function PaddedByte(s: Bytes, k: nat): Byte {
    if k < |s| then s[k] else 0
  }

  /** m is memory with bytes from..to of the string, filled up with zeros, written at ptr. */
  ghost predicate Loaded(m: Memory, memory: Memory, ptr: nat, s: Bytes, from: nat, to: nat) {
    forall a: nat :: ByteAt(m, a) == if ptr + from <= a < ptr + to then PaddedByte(s, a - ptr) else ByteAt(memory, a)
  }

  lemma LoadedInTwo(m2: Memory, m1: Memory, m0: Memory, ptr: nat, s: Bytes, from: nat, mid: nat, to: nat)
    requires from <= mid <= to && Loaded(m1, m0, ptr, s, from, mid) && Loaded(m2, m1, ptr, s, mid, to)
    ensures Loaded(m2, m0, ptr, s, from, to)
  {
  }

  /** Storing word i of the data area writes that part of the string, filled up with zeros. */
  lemma MStoreDataWord(memory: Memory, ptr: nat, s: Bytes, i: nat)
    requires 32 * i < |s|
    ensures Loaded(MStore(memory, ptr + 32 * i, DataWord(s, i)), memory, ptr, s, 32 * i, 32 * i + 32)
  {
    BytesOfWord(Chunk(s, i));
    assert forall k: nat :: k < 32 ==> Chunk(s, i)[k] == PaddedByte(s, 32 * i + k);
  }

  lemma ClearHeader(word: nat, n: nat)
    requires word % 256 == 0 && word < WORD_LIMIT && n < 32
    ensures word + 2 * n < WORD_LIMIT && And(word + 2 * n, WORD_LIMIT - 256) == word
  {
    BelowLimit(word);
    ClearLowBits(word + 2 * n);
    HeaderIsLowByte(word, n);
  }

  lemma BelowLimit(word: nat)
    requires word % 256 == 0 && word < WORD_LIMIT
    ensures word + 256 <= WORD_LIMIT
  {
  }

  lemma HeaderIsLowByte(word: nat, n: nat)
    requires word % 256 == 0 && n < 32
    ensures (word + 2 * n) % 256 == 2 * n
  {
  }

  /** The word left of a short slot once its length byte is cleared is the string, filled up with zeros. */
  lemma ShortSlot(dataSlot: nat, s: Bytes, padded: Bytes)
    requires |s| < 32 && padded == s + Zeros(32 - |s|)
    ensures And(Encoding(dataSlot, s, 0), WORD_LIMIT - 256) == WordOf(padded)
  {
    var word := WordOf(padded);
    PaddedIsMultiple(s);
    WordBound(padded);
    ClearHeader(word, |s|);
    assert Encoding(dataSlot, s, 0) == word + 2 * |s|;
  }

  lemma MStorePadded(memory: Memory, ptr: nat, s: Bytes, padded: Bytes)
    requires |s| < 32 && padded == s + Zeros(32 - |s|)
    ensures Loaded(MStore(memory, ptr, WordOf(padded)), memory, ptr, s, 0, 32)
  {
    BytesOfWord(padded);
  }

  // ---------- The encoding determines the string ----------

  lemma PaddedIsInjective(s: Bytes, t: Bytes)
    requires |s| == |t| < 32 && WordOf(s + Zeros(32 - |s|)) == WordOf(t + Zeros(32 - |t|))
    ensures s == t
  {
    var a, b := s + Zeros(32 - |s|), t + Zeros(32 - |t|);
    BytesOfWord(a);
    BytesOfWord(b);
    assert a[..|s|] == s && b[..|t|] == t;
  }

  lemma ChunkIsInjective(s: Bytes, t: Bytes, i: nat)
    requires |s| == |t| && 32 * i < |s| && WordOf(Chunk(s, i)) == WordOf(Chunk(t, i))
    ensures forall k :: 32 * i <= k < 32 * i + 32 && k < |s| ==> s[k] == t[k]
  {
    BytesOfWord(Chunk(s, i));
    BytesOfWord(Chunk(t, i));
    assert forall k :: 32 * i <= k < 32 * i + 32 && k < |s| ==>
        Chunk(s, i)[k - 32 * i] == s[k] && Chunk(t, i)[k - 32 * i] == t[k];
  }

  lemma LongIsInjective(dataSlot: nat, s: Bytes, t: Bytes)
    requires dataSlot > 0 && |s| == |t| >= 32
    requires forall key :: Encoding(dataSlot, s, key) == Encoding(dataSlot, t, key)
    ensures s == t
  {
    forall k | 0 <= k < |s|
      ensures s[k] == t[k]
    {
      var i := k / 32;
      assert Encoding(dataSlot, s, dataSlot + i) == Encoding(dataSlot, t, dataSlot + i);
      ChunkIsInjective(s, t, i);
    }
  }

  /** One storage cannot be the canonical encoding of two strings. */
  lemma CanonicalIsUnique(storage: Storage, dataSlot: nat, s: Bytes, t: Bytes)
    requires dataSlot > 0 && Canonical(storage, dataSlot, s) && Canonical(storage, dataSlot, t)
    ensures s == t
  {
    assert Read(storage, 0) == Encoding(dataSlot, s, 0) == Encoding(dataSlot, t, 0);
    ExtractLengthOfEncoding(dataSlot, s);
    ExtractLengthOfEncoding(dataSlot, t);
    if |s| < 32 {
      PaddedIsInjective(s, t);
    } else {
      forall key
        ensures Encoding(dataSlot, s, key) == Encoding(dataSlot, t, key)
      {
        assert Read(storage, key) == Encoding(dataSlot, s, key);
      }
      LongIsInjective(dataSlot, s, t);
    }
  }
}
