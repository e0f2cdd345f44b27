/**
 The text in which a transaction declares its state leaves: one line for each leaf, an address or a contract
 and a storage index, in hex.
 */
module Leaves {
  import opened Common

  const ADDRESS_BYTES: nat := 20
  const INDEX_BYTES: nat := 32

  datatype Leaf = Address(account: Bytes) | Storage(contract: Bytes, index: Bytes)

  predicate WellFormed(leaf: Leaf) {
    match leaf
    case Address(account) => |account| == ADDRESS_BYTES
    case Storage(contract, index) => |contract| == ADDRESS_BYTES && |index| == INDEX_BYTES
  }

  /** The bytes a leaf is known by. */
  function Key(leaf: Leaf): Bytes {
    match leaf
    case Address(account) => account
    case Storage(contract, index) => contract + index
  }

  // ---------- Library functions ----------

  /** strings.Split with a separator of one character. */
  function Split(s: string, sep: char): (parts: seq<string>)
    ensures |parts| > 0
  {
    if s == "" then [""]
    else
      var rest := Split(s[1..], sep);
      if s[0] == sep then [""] + rest else [[s[0]] + rest[0]] + rest[1..]
  }

  function HexValue(c: char): Option<nat> {
    if '0' <= c <= '9' then Some(c as nat - '0' as nat)
    else if 'a' <= c <= 'f' then Some(c as nat - 'a' as nat + 10)
    else if 'A' <= c <= 'F' then Some(c as nat - 'A' as nat + 10)
    else None
  }

  function DecodeDigits(s: string): Option<Bytes> {
    if s == "" then Some([])
    else if |s| == 1 then None
    else
      var high, low, rest := HexValue(s[0]), HexValue(s[1]), DecodeDigits(s[2..]);
      if high.None? || low.None? || rest.None? || high.value > 15 || low.value > 15 then None
      else Some([(16 * high.value + low.value) as Byte] + rest.value)
  }

  /** hexutil.MustDecode; None is its panic. */
  function MustDecode(s: string): Option<Bytes> {
    if |s| < 2 || s[0] != '0' || (s[1] != 'x' && s[1] != 'X') then None else DecodeDigits(s[2..])
  }

  // ---------- Parsing ----------

  /** The bytes of one line that is not empty; None is a panic. */
  function ParseLine(line: string): Option<Bytes> {
    var parts := Split(line, ' ');
    if parts[0] == "address" then
      if |parts| < 2 then None else NonEmpty(MustDecode(parts[1]))
    else if parts[0] == "storage" then
      if |parts| < 3 then None
      else
        var contract, index := MustDecode(parts[1]), MustDecode(parts[2]);
        if contract.None? || index.None? then None else NonEmpty(Some(contract.value + index.value))
    else None
  }

  function NonEmpty(buf: Option<Bytes>): Option<Bytes> {
    if buf.Some? && |buf.value| == 0 then None else buf
  }

  function ParseLines(lines: seq<string>): Option<seq<Bytes>> {
    if lines == [] then Some([])
    else
      var before := ParseLines(lines[..|lines| - 1]);
      var line := lines[|lines| - 1];
      if before.None? then None
      else if line == "" then before
      else if ParseLine(line).None? then None
      else Some(before.value + [ParseLine(line).value])
  }

  method ParseStateLeaves(data: string) returns (leaves: Option<seq<Bytes>>)
    ensures leaves == ParseLines(Split(data, '\n'))
    ensures forall keys :: leaves == Some(keys) <==> ParsedAs(NonBlank(Split(data, '\n')), keys)
  {
    forall keys
      ensures ParseLines(Split(data, '\n')) == Some(keys) <==> ParsedAs(NonBlank(Split(data, '\n')), keys)
    {
      ParseLinesExactly(Split(data, '\n'), keys);
    }
    var lines := Split(data, '\n');
    var found: seq<Bytes> := [];
    for i := 0 to |lines|
      invariant ParseLines(lines[..i]) == Some(found)
    {
      assert lines[..i + 1][..i] == lines[..i];
      if lines[i] == "" {
        continue;
      }
      var buf := ParseLine(lines[i]);
      if buf.None? {
        PanicIsFinal(lines, i + 1);
        return None;
      }
      found := found + [buf.value];
    }
    assert lines[..|lines|] == lines;
    return Some(found);
  }

  lemma {:induction false} PanicIsFinal(lines: seq<string>, i: nat)
    requires i <= |lines| && ParseLines(lines[..i]).None?
    ensures ParseLines(lines).None?
    decreases |lines|
  {
    if i < |lines| {
      var before := lines[..|lines| - 1];
      assert before[..i] == lines[..i];
      PanicIsFinal(before, i);
    } else {
      assert lines[..i] == lines;
    }
  }

  // ---------- Printing ----------

  const HEX_DIGITS := "0123456789abcdef"

  function HexOf(bs: Bytes): string {
    if bs == [] then ""
    else [HEX_DIGITS[bs[0] as nat / 16], HEX_DIGITS[bs[0] as nat % 16]] + HexOf(bs[1..])
  }

  function PrintLeaf(leaf: Leaf): string {
    match leaf
    case Address(account) => "address" + [' '] + ("0x" + HexOf(account))
    case Storage(contract, index) => "storage" + [' '] + ("0x" + HexOf(contract)) + [' '] + ("0x" + HexOf(index))
  }

  function Print(leaves: seq<Leaf>): string {
    if leaves == [] then "" else PrintLeaf(leaves[0]) + ['\n'] + Print(leaves[1..])
  }

  // ---------- Round trip ----------

  lemma {:induction false} SplitFirst(a: string, b: string, sep: char)
    requires sep !in a
    ensures Split(a + [sep] + b, sep) == [a] + Split(b, sep)
  {
    var s := a + [sep] + b;
    if a == "" {
      assert s[1..] == b;
    } else {
      assert s[1..] == a[1..] + [sep] + b;
      SplitFirst(a[1..], b, sep);
      assert [s[0]] + a[1..] == a;
    }
  }

  lemma {:induction false} SplitOne(a: string, sep: char)
    requires sep !in a
    ensures Split(a, sep) == [a]
  {
    if a != "" {
      SplitOne(a[1..], sep);
      assert [a[0]] + a[1..] == a;
    }
  }

  /** Printed digits are one of the spellings. */
  lemma {:induction false} HexSpells(bs: Bytes)
    ensures SpellsBytes(HexOf(bs), bs)
  {
    if bs != [] {
      HexSpells(bs[1..]);
      assert HexOf(bs)[2..] == HexOf(bs[1..]);
      SpellsFirst(HexOf(bs), bs);
    }
  }

  lemma PrefixedSpells(bs: Bytes)
    ensures Spells("0x" + HexOf(bs), bs)
  {
    HexSpells(bs);
    assert ("0x" + HexOf(bs))[2..] == HexOf(bs);
  }

  lemma SplitTwo(tag: string, a: string)
    requires ' ' !in tag && ' ' !in a
    ensures Split(tag + [' '] + a, ' ') == [tag, a]
  {
    SplitFirst(tag, a, ' ');
    SplitOne(a, ' ');
  }

  lemma SplitThree(tag: string, a: string, b: string)
    requires ' ' !in tag && ' ' !in a && ' ' !in b
    ensures Split(tag + [' '] + a + [' '] + b, ' ') == [tag, a, b]
  {
    SplitTwo(a, b);
    SplitFirst(tag, a + [' '] + b, ' ');
    assert tag + [' '] + a + [' '] + b == tag + [' '] + (a + [' '] + b);
  }

  lemma AddressLine(hex: string, account: Bytes)
    requires Split("address" + [' '] + hex, ' ') == ["address", hex] && MustDecode(hex) == Some(account) && account != []
    ensures ParseLine("address" + [' '] + hex) == Some(account)
  {
  }

  lemma StorageLine(c: string, i: string, contract: Bytes, index: Bytes)
    requires Split("storage" + [' '] + c + [' '] + i, ' ') == ["storage", c, i]
    requires MustDecode(c) == Some(contract) && MustDecode(i) == Some(index) && contract + index != []
    ensures ParseLine("storage" + [' '] + c + [' '] + i) == Some(contract + index)
  {
  }

  lemma PrintedSpells(leaf: Leaf)
    ensures SpellsLeaf(PrintLeaf(leaf), leaf) && '\n' !in PrintLeaf(leaf)
  {
    match leaf
    case Address(account) =>
      PrefixedSpells(account);
      SpellingHasNoBreak("0x" + HexOf(account), account, '\n');
    case Storage(contract, index) =>
      PrefixedSpells(contract);
      PrefixedSpells(index);
      SpellingHasNoBreak("0x" + HexOf(contract), contract, '\n');
      SpellingHasNoBreak("0x" + HexOf(index), index, '\n');
  }

  function Keys(leaves: seq<Leaf>): seq<Bytes> {
    seq(|leaves|, i requires 0 <= i < |leaves| => Key(leaves[i]))
  }

  /** The lines of a printed text. */
  function PrintedLines(leaves: seq<Leaf>): seq<string> {
    seq(|leaves|, i requires 0 <= i < |leaves| => PrintLeaf(leaves[i]))
  }

  /** A printed text is its lines, and an empty one after the last line break. */
  lemma {:induction false} SplitPrinted(leaves: seq<Leaf>, text: string)
    requires text == Print(leaves)
    ensures Split(text, '\n') == PrintedLines(leaves) + [""]
    decreases |leaves|
  {
    if leaves == [] {
      assert PrintedLines(leaves) == [];
    } else {
      var others := leaves[1..];
      var rest := Print(others);
      SplitPrinted(others, rest);
      PrintedSpells(leaves[0]);
      SplitOneMore(PrintLeaf(leaves[0]), rest, text, PrintedLines(others));
      PrintedFirst(leaves);
    }
  }

  lemma PrintedFirst(leaves: seq<Leaf>)
    requires leaves != []
    ensures PrintedLines(leaves) == [PrintLeaf(leaves[0])] + PrintedLines(leaves[1..])
  {
  }

  lemma SplitOneMore(line: string, rest: string, text: string, lines: seq<string>)
    requires text == line + ['\n'] + rest && '\n' !in line && Split(rest, '\n') == lines + [""]
    ensures Split(text, '\n') == [line] + lines + [""]
  {
    SplitFirst(line, rest, '\n');
    assert [line] + (lines + [""]) == [line] + lines + [""];
  }

  lemma {:induction false} NothingBlank(lines: seq<string>)
    requires forall i :: 0 <= i < |lines| ==> lines[i] != ""
    ensures NonBlank(lines) == lines
  {
    if lines != [] {
      NothingBlank(lines[..|lines| - 1]);
    }
  }

  lemma LastIsBlank(lines: seq<string>)
    ensures NonBlank(lines + [""]) == NonBlank(lines)
  {
    assert (lines + [""])[..|lines|] == lines;
  }

  lemma PrintedLinesSpell(leaves: seq<Leaf>, i: nat)
    requires i < |leaves|
    ensures PrintedLines(leaves)[i] != "" && SpellsLeaf(PrintedLines(leaves)[i], leaves[i])
  {
    PrintedSpells(leaves[i]);
  }

  /** Parsing what was printed gives the keys of the leaves, in order. */
  lemma ParsePrinted(leaves: seq<Leaf>)
    requires forall i :: 0 <= i < |leaves| ==> WellFormed(leaves[i])
    ensures ParseLines(Split(Print(leaves), '\n')) == Some(Keys(leaves))
  {
    SplitPrinted(leaves, Print(leaves));
    var lines := PrintedLines(leaves);
    forall i | 0 <= i < |leaves|
      ensures lines[i] != "" && SpellsLeaf(lines[i], leaves[i])
    {
      PrintedLinesSpell(leaves, i);
    }
    LastIsBlank(lines);
    NothingBlank(lines);
    ParseSpelled(Print(leaves), leaves);
  }

  // ---------- Every spelling ----------

  const UPPER_DIGITS := "0123456789ABCDEF"

  /** c is the digit for n in lower or in upper case. */
  predicate IsDigit(c: char, n: int) {
    0 <= n < 16 && (c == HEX_DIGITS[n] || c == UPPER_DIGITS[n])
  }

  lemma HexValueExactly(c: char, n: nat)
    ensures HexValue(c) == Some(n) <==> IsDigit(c, n)
  {
  }

  /** Characters 2 * i and 2 * i + 1 are the high and the low digit of byte i. */
  predicate DigitsOf(s: string, bs: Bytes, i: nat)
    requires i < |bs| && |s| == 2 * |bs|
  {
    IsDigit(s[2 * i], bs[i] as int / 16) && IsDigit(s[2 * i + 1], bs[i] as int % 16)
  }

  ghost predicate SpellsBytes(s: string, bs: Bytes) {
    |s| == 2 * |bs| && forall i :: 0 <= i < |bs| ==> DigitsOf(s, bs, i)
  }

  lemma FirstByteExactly(high: char, low: char, b: Byte)
    ensures HexValue(high).Some? && HexValue(low).Some? && 16 * HexValue(high).value + HexValue(low).value == b as nat <==>
            IsDigit(high, b as int / 16) && IsDigit(low, b as int % 16)
  {
    HexValueExactly(high, b as nat / 16);
    HexValueExactly(low, b as nat % 16);
    if HexValue(high).Some? && HexValue(low).Some? {
      HexValueExactly(high, HexValue(high).value);
      HexValueExactly(low, HexValue(low).value);
      TwoDigits(HexValue(high).value, HexValue(low).value, b as nat);
    }
  }

  lemma TwoDigits(high: nat, low: nat, n: nat)
    requires high < 16 && low < 16
    ensures 16 * high + low == n <==> high == n / 16 && low == n % 16
  {
  }

  lemma SpellsFirst(s: string, bs: Bytes)
    requires |s| >= 2 && bs != []
    ensures SpellsBytes(s, bs) <==>
            IsDigit(s[0], bs[0] as int / 16) && IsDigit(s[1], bs[0] as int % 16) && SpellsBytes(s[2..], bs[1..])
  {
    if |s| == 2 * |bs| {
      assert DigitsOf(s, bs, 0) <==> IsDigit(s[0], bs[0] as int / 16) && IsDigit(s[1], bs[0] as int % 16);
      forall i | 0 <= i < |bs| - 1
        ensures DigitsOf(s[2..], bs[1..], i) <==> DigitsOf(s, bs, i + 1)
      {
      }
      if SpellsBytes(s[2..], bs[1..]) && DigitsOf(s, bs, 0) {
        forall i | 0 <= i < |bs|
          ensures DigitsOf(s, bs, i)
        {
          assert i > 0 ==> DigitsOf(s[2..], bs[1..], i - 1);
        }
      }
    }
  }

  /** Digits of either case are decoded to the bytes they spell, and nothing else is decoded. */
  lemma {:induction false} DecodesExactly(s: string, bs: Bytes)
    ensures DecodeDigits(s) == Some(bs) <==> SpellsBytes(s, bs)
    decreases |s|
  {
    if |s| >= 2 && bs != [] {
      DecodesExactly(s[2..], bs[1..]);
      DecodeFirst(s, bs);
      SpellsFirst(s, bs);
    }
  }

  lemma DecodeFirst(s: string, bs: Bytes)
    requires |s| >= 2 && bs != []
    ensures DecodeDigits(s) == Some(bs) <==>
            IsDigit(s[0], bs[0] as int / 16) && IsDigit(s[1], bs[0] as int % 16) && DecodeDigits(s[2..]) == Some(bs[1..])
  {
    FirstByteExactly(s[0], s[1], bs[0]);
    var high, low, rest := HexValue(s[0]), HexValue(s[1]), DecodeDigits(s[2..]);
    DecodeStep(s, high, low, rest);
    if high.Some? && low.Some? && rest.Some? {
      FirstAndRest((16 * high.value + low.value) as Byte, rest.value, bs);
    }
  }

  lemma FirstAndRest(b: Byte, rest: Bytes, bs: Bytes)
    requires bs != []
    ensures [b] + rest == bs <==> b == bs[0] && rest == bs[1..]
  {
    assert bs == [bs[0]] + bs[1..];
    assert ([b] + rest)[1..] == rest;
  }

  lemma DecodeStep(s: string, high: Option<nat>, low: Option<nat>, rest: Option<Bytes>)
    requires |s| >= 2 && high == HexValue(s[0]) && low == HexValue(s[1]) && rest == DecodeDigits(s[2..])
    ensures high.Some? ==> high.value < 16
    ensures low.Some? ==> low.value < 16
    ensures DecodeDigits(s) == if high.None? || low.None? || rest.None? then None
                               else Some([(16 * high.value + low.value) as Byte] + rest.value)
  {
  }

  /** Either prefix, and digits of either case. */
  ghost predicate Spells(text: string, bs: Bytes) {
    |text| >= 2 && text[0] == '0' && (text[1] == 'x' || text[1] == 'X') && SpellsBytes(text[2..], bs)
  }

  lemma MustDecodeExactly(text: string, bs: Bytes)
    ensures MustDecode(text) == Some(bs) <==> Spells(text, bs)
  {
    if |text| >= 2 {
      DecodesExactly(text[2..], bs);
    }
  }

  lemma SpellingHasNoBreak(text: string, bs: Bytes, c: char)
    requires Spells(text, bs) && (c == ' ' || c == '\n')
    ensures c !in text
  {
    var digits := text[2..];
    forall k | 0 <= k < |text|
      ensures text[k] != c
    {
      if k >= 2 {
        assert DigitsOf(digits, bs, (k - 2) / 2);
        assert text[k] == digits[k - 2];
        DigitIsNoBreak(digits[k - 2], if (k - 2) % 2 == 0 then bs[(k - 2) / 2] as int / 16 else bs[(k - 2) / 2] as int % 16);
      }
    }
  }

  lemma DigitIsNoBreak(c: char, n: int)
    requires IsDigit(c, n)
    ensures c != ' ' && c != '\n'
  {
    HexValueExactly(c, n);
  }

  /** The line declares the leaf, in any spelling of its bytes. */
  ghost predicate SpellsLeaf(line: string, leaf: Leaf) {
    match leaf
    case Address(account) => exists a :: Spells(a, account) && line == "address" + [' '] + a
    case Storage(contract, index) =>
      exists c, i :: Spells(c, contract) && Spells(i, index) && line == "storage" + [' '] + c + [' '] + i
  }

  lemma ParseSpelledLine(line: string, leaf: Leaf)
    requires WellFormed(leaf) && SpellsLeaf(line, leaf)
    ensures line != "" && ParseLine(line) == Some(Key(leaf))
  {
    match leaf
    case Address(account) =>
      var a :| Spells(a, account) && line == "address" + [' '] + a;
      SpellingHasNoBreak(a, account, ' ');
      SplitTwo("address", a);
      MustDecodeExactly(a, account);
      AddressLine(a, account);
    case Storage(contract, index) =>
      var c, i :| Spells(c, contract) && Spells(i, index) && line == "storage" + [' '] + c + [' '] + i;
      SpellingHasNoBreak(c, contract, ' ');
      SpellingHasNoBreak(i, index, ' ');
      SplitThree("storage", c, i);
      MustDecodeExactly(c, contract);
      MustDecodeExactly(i, index);
      StorageLine(c, i, contract, index);
  }

  /** The parts of a line that is parsed, and the bytes it gives. */
  lemma ParseLineExactly(line: string, key: Bytes)
    ensures ParseLine(line) == Some(key) <==>
            var parts := Split(line, ' ');
            && key != []
            && if parts[0] == "address" then |parts| >= 2 && Spells(parts[1], key)
               else
                 && parts[0] == "storage" && |parts| >= 3
                 && exists contract, index :: Spells(parts[1], contract) && Spells(parts[2], index) && key == contract + index
  {
    var parts := Split(line, ' ');
    if parts[0] == "address" {
      if |parts| >= 2 {
        MustDecodeExactly(parts[1], key);
      }
    } else if parts[0] == "storage" && |parts| >= 3 {
      var c, i := MustDecode(parts[1]), MustDecode(parts[2]);
      if c.Some? && i.Some? {
        MustDecodeExactly(parts[1], c.value);
        MustDecodeExactly(parts[2], i.value);
      }
      if contract, index :| Spells(parts[1], contract) && Spells(parts[2], index) && key == contract + index {
        MustDecodeExactly(parts[1], contract);
        MustDecodeExactly(parts[2], index);
      }
    }
  }

  function Join(parts: seq<string>, sep: char): string
    requires |parts| > 0
  {
    if |parts| == 1 then parts[0] else parts[0] + [sep] + Join(parts[1..], sep)
  }

  /** Split cuts at every separator, and loses nothing. */
  lemma {:induction false} SplitExactly(s: string, sep: char)
    ensures Join(Split(s, sep), sep) == s
    ensures forall k :: 0 <= k < |Split(s, sep)| ==> sep !in Split(s, sep)[k]
  {
    if s != "" {
      SplitExactly(s[1..], sep);
      var rest := Split(s[1..], sep);
      assert s == [s[0]] + s[1..];
      if s[0] == sep {
        assert ([""] + rest)[1..] == rest;
        assert "" + [sep] + s[1..] == s;
      } else {
        var parts := [[s[0]] + rest[0]] + rest[1..];
        assert parts[1..] == rest[1..];
        assert forall k :: 0 < k < |parts| ==> parts[k] == rest[k];
        if |rest| > 1 {
          assert [s[0]] + rest[0] + [sep] + Join(rest[1..], sep) == [s[0]] + (rest[0] + [sep] + Join(rest[1..], sep));
        }
      }
    }
  }

  function NonBlank(lines: seq<string>): seq<string> {
    if lines == [] then []
    else
      var before, line := NonBlank(lines[..|lines| - 1]), lines[|lines| - 1];
      if line == "" then before else before + [line]
  }

  ghost predicate ParsedAs(lines: seq<string>, keys: seq<Bytes>) {
    |keys| == |lines| && forall i :: 0 <= i < |lines| ==> ParseLine(lines[i]) == Some(keys[i])
  }

  lemma ParsedOneMore(lines: seq<string>, line: string, keys: seq<Bytes>)
    ensures ParsedAs(lines + [line], keys) <==>
            keys != [] && ParsedAs(lines, keys[..|keys| - 1]) && ParseLine(line) == Some(keys[|keys| - 1])
  {
    if keys != [] && |keys| == |lines| + 1 {
      var before := keys[..|keys| - 1];
      assert forall i :: 0 <= i < |lines| ==> (lines + [line])[i] == lines[i] && before[i] == keys[i];
      assert (lines + [line])[|lines|] == line;
    }
  }

  /** The result has the bytes of every line that is not empty, in order; there is none if one of them panics. */
  lemma {:induction false} ParseLinesExactly(lines: seq<string>, keys: seq<Bytes>)
    ensures ParseLines(lines) == Some(keys) <==> ParsedAs(NonBlank(lines), keys)
    decreases |lines|
  {
    if lines != [] {
      var before, line := lines[..|lines| - 1], lines[|lines| - 1];
      if line == "" {
        ParseLinesExactly(before, keys);
      } else {
        ParsedOneMore(NonBlank(before), line, keys);
        if keys != [] {
          ParseLinesExactly(before, keys[..|keys| - 1]);
          assert keys == keys[..|keys| - 1] + [keys[|keys| - 1]];
        }
      }
    }
  }

  /** The lines of data that are not empty declare the leaves, each in any spelling. */
  ghost predicate SpellsLeaves(data: string, leaves: seq<Leaf>) {
    var lines := NonBlank(Split(data, '\n'));
    |lines| == |leaves| && forall i :: 0 <= i < |leaves| ==> WellFormed(leaves[i]) && SpellsLeaf(lines[i], leaves[i])
  }

  /** Parsing any spelling of leaves gives their keys, in order. */
  lemma ParseSpelled(data: string, leaves: seq<Leaf>)
    requires SpellsLeaves(data, leaves)
    ensures ParseLines(Split(data, '\n')) == Some(Keys(leaves))
  {
    var lines := NonBlank(Split(data, '\n'));
    forall i | 0 <= i < |lines|
      ensures ParseLine(lines[i]) == Some(Keys(leaves)[i])
    {
      ParseSpelledLine(lines[i], leaves[i]);
    }
    ParseLinesExactly(Split(data, '\n'), Keys(leaves));
  }

  /** Different leaves have different keys. */
  lemma KeysAreDistinct(a: Leaf, b: Leaf)
    requires WellFormed(a) && WellFormed(b) && Key(a) == Key(b)
    ensures a == b
  {
    if a.Storage? && b.Storage? {
      assert Key(a)[..ADDRESS_BYTES] == a.contract && Key(a)[ADDRESS_BYTES..] == a.index;
      assert Key(b)[..ADDRESS_BYTES] == b.contract && Key(b)[ADDRESS_BYTES..] == b.index;
    }
  }
}
