/** EEPROM writes by read-modify-write of aligned words (eeprom_direct over ram_direct), compared
    with the plain stores of eeprom_mmap_file. */
module Eeprom {
  import opened Bits

  const SUCCESS := 0
  const ADDRESS_MISALIGNED := -3

  type uint8 = x: nat | x < 0x100
  type uint16 = x: nat | x < 0x1_0000

  // ---------------------------------------------------------------- bytes of a word

  /** How a processor lays out a word; `little` is the byte order. */
  function Encode16(little: bool, v: uint16): (b: seq<uint8>)
    ensures |b| == 2
  {
    if little then [v % 0x100, v / 0x100] else [v / 0x100, v % 0x100]
  }

  function Join8(low: uint8, high: uint8): (v: uint16)
    ensures v % 0x100 == low && v / 0x100 == high
  {
    low + 0x100 * high
  }

  function Join16(low: uint16, high: uint16): (v: uint32)
    ensures v % 0x1_0000 == low && v / 0x1_0000 == high
  {
    low + 0x1_0000 * high
  }

  function Decode16(little: bool, b: seq<uint8>): uint16
    requires |b| == 2
  {
    if little then Join8(b[0], b[1]) else Join8(b[1], b[0])
  }

  function Encode32(little: bool, v: uint32): (b: seq<uint8>)
    ensures |b| == 4
  {
    var low, high := v % 0x1_0000, v / 0x1_0000;
    if little then Encode16(true, low) + Encode16(true, high) else Encode16(false, high) + Encode16(false, low)
  }

  function Decode32(little: bool, b: seq<uint8>): uint32
    requires |b| == 4
  {
    var first, second := Decode16(little, b[..2]), Decode16(little, b[2..]);
    if little then Join16(first, second) else Join16(second, first)
  }

  lemma Decode16Encode16(little: bool, v: uint16)
    ensures Decode16(little, Encode16(little, v)) == v
  {
  }

  lemma Encode16Decode16(little: bool, b: seq<uint8>)
    requires |b| == 2
    ensures Encode16(little, Decode16(little, b)) == b
  {
  }

  lemma Decode32Encode32(little: bool, v: uint32)
    ensures Decode32(little, Encode32(little, v)) == v
  {
    var low, high := v % 0x1_0000, v / 0x1_0000;
    var b := Encode32(little, v);
    Decode16Encode16(little, low);
    Decode16Encode16(little, high);
    assert b[..2] == Encode16(little, if little then low else high);
    assert b[2..] == Encode16(little, if little then high else low);
  }

  // ---------------------------------------------------------------- memory

  type Memory = seq<uint8>

  /** A plain store: exactly the addressed bytes change. */
  function Store(mem: Memory, a: nat, b: seq<uint8>): (m: Memory)
    requires a + |b| <= |mem|
    ensures |m| == |mem|
  {
    mem[..a] + b + mem[a + |b|..]
  }

  function Load32(little: bool, mem: Memory, a: nat): uint32
    requires a + 4 <= |mem|
  {
    Decode32(little, mem[a..a + 4])
  }

  function Load16(little: bool, mem: Memory, a: nat): uint16
    requires a + 2 <= |mem|
  {
    Decode16(little, mem[a..a + 2])
  }

  /** The memory is made of whole words and the address is in it. */
  predicate Mapped(mem: Memory, a: nat) {
    |mem| % 4 == 0 && a < |mem| <= TWO64
  }

  // ---------------------------------------------------------------- the writes as functions

  /** `address & 1`. */
  predicate Odd(a: nat)
    ensures Odd(a) <==> a % 2 == 1
  {
    Aligned(a);
    And(a, 1) != 0
  }

  /** `address & 2`. */
  predicate SecondHalf(a: nat)
    ensures SecondHalf(a) <==> a % 4 >= 2
  {
    Aligned(a);
    And(a, 2) != 0
  }

  /** `address & 3`. */
  predicate OffWord(a: nat)
    ensures OffWord(a) <==> a % 4 != 0
  {
    Aligned(a);
    And(a, 3) != 0
  }

  /** EepromWrite32. */
  function Direct32(little: bool, mem: Memory, a: nat, v: uint32): (r: (int, Memory))
    requires Mapped(mem, a)
    ensures |r.1| == |mem|
    ensures a % 4 != 0 ==> r == (ADDRESS_MISALIGNED, mem)
    ensures a % 4 == 0 ==> r == (SUCCESS, Store(mem, a, Encode32(little, v)))
  {
    if OffWord(a) then (ADDRESS_MISALIGNED, mem)
    else (SUCCESS, Store(mem, a, Encode32(little, v)))
  }

  lemma Aligned(a: nat)
    ensures And(a, 3) == a % 4 && And(a, 2) == (if a % 4 >= 2 then 2 else 0) && And(a, 1) == a % 2
  {
    assert Pow2(2) == 4 && Pow2(1) == 2;
    AndMask(a, 2);
    AndMask(a, 1);
    AndMask(a / 2, 1);
    assert And(a, 2) == 2 * And(a / 2, 1);
  }

  lemma WrapAligned(a: nat)
    ensures Wrap32(a) <= a && Wrap32(a) % 4 == a % 4 && Wrap32(a) % 2 == a % 2
  {
  }

  lemma KeepLow(word: nat, v: nat, k: nat)
    ensures Or(And(word, Pow2(k) - 1), v * Pow2(k)) == word % Pow2(k) + v * Pow2(k)
  {
    AndMask(word, k);
    DivModUnique(v * Pow2(k), Pow2(k), v, 0);
    OrDisjoint(v * Pow2(k), word % Pow2(k), k);
    OrCommutes(v * Pow2(k), word % Pow2(k));
  }

  lemma KeepHigh(word: nat, v: nat, k: nat, width: nat)
    requires k <= width && word < Pow2(width) && v < Pow2(k)
    ensures Pow2(k) <= Pow2(width)
    ensures Or(And(word, Complement(Pow2(k) - 1, width)), v) == word - word % Pow2(k) + v
  {
    AndComplementMask(word, k, width);
    MultipleBelow(word, Pow2(k));
    OrDisjoint(word - word % Pow2(k), v, k);
  }

  lemma Masks16(word: uint32, v: uint16)
    ensures Or(And(word, 0x0000_FFFF), v * 0x1_0000) == Join16(word % 0x1_0000, v)
    ensures Or(And(word, 0xFFFF_0000), v) == Join16(v, word / 0x1_0000)
  {
    Pow2Literals();
    KeepLow(word, v, 16);
    KeepHigh(word, v, 16, 32);
    assert word - word % 0x1_0000 == 0x1_0000 * (word / 0x1_0000);
  }

  lemma Masks8(half: uint16, v: uint8)
    ensures Or(And(half, 0x00FF), v * 0x100) == Join8(half % 0x100, v)
    ensures Or(And(half, 0xFF00), v) == Join8(v, half / 0x100)
  {
    Pow2Literals();
    KeepLow(half, v, 8);
    KeepHigh(half, v, 8, 16);
    assert half - half % 0x100 == 0x100 * (half / 0x100);
  }

  /** The word with a half-word replaced, as the four branches of EepromWrite16 compute it. */
  function Merge16(little: bool, second: bool, word: uint32, v: uint16): (merged: uint32)
    ensures merged == if little == second then Join16(word % 0x1_0000, v) else Join16(v, word / 0x1_0000)
  {
    Masks16(word, v);
    if little == second then Or(And(word, 0x0000_FFFF), v * 0x1_0000)
    else Or(And(word, 0xFFFF_0000), v)
  }

  /** The half-word with a byte replaced, as the four branches of EepromWrite8 compute it. */
  function Merge8(little: bool, second: bool, half: uint16, v: uint8): (merged: uint16)
    ensures merged == if little == second then Join8(half % 0x100, v) else Join8(v, half / 0x100)
  {
    Masks8(half, v);
    if little == second then Or(And(half, 0x00FF), v * 0x100)
    else Or(And(half, 0xFF00), v)
  }

  lemma MergedWord(little: bool, second: bool, b: seq<uint8>, v: uint16)
    requires |b| == 4
    ensures Encode32(little, Merge16(little, second, Decode32(little, b), v)) ==
      if second then b[..2] + Encode16(little, v) else Encode16(little, v) + b[2..]
  {
    var first, last := Decode16(little, b[..2]), Decode16(little, b[2..]);
    Encode16Decode16(little, b[..2]);
    Encode16Decode16(little, b[2..]);
    var merged := Merge16(little, second, Decode32(little, b), v);
    assert merged % 0x1_0000 == (if little == second then (if little then first else last) else v);
    assert merged / 0x1_0000 == (if little == second then v else (if little then last else first));
  }

  lemma MergedHalf(little: bool, second: bool, b: seq<uint8>, v: uint8)
    requires |b| == 2
    ensures Encode16(little, Merge8(little, second, Decode16(little, b), v)) ==
      if second then [b[0], v] else [v, b[1]]
  {
  }

  /** Storing a piece of memory with a part of it replaced is storing that part. */
  lemma StorePart(mem: Memory, a: nat, n: nat, at: nat, part: seq<uint8>)
    requires a + n <= |mem| && at + |part| <= n
    ensures Store(mem, a, mem[a..a + n][..at] + part + mem[a..a + n][at + |part|..]) == Store(mem, a + at, part)
  {
    var whole := mem[a..a + n];
    assert whole[..at] == mem[a..a + at];
    assert whole[at + |part|..] == mem[a + at + |part|..a + n];
    assert mem[..a + at] == mem[..a] + mem[a..a + at];
    assert mem[a + at + |part|..] == mem[a + at + |part|..a + n] + mem[a + n..];
  }

  lemma StoreMerged16(little: bool, mem: Memory, a: nat, second: bool, v: uint16)
    requires a + 4 <= |mem|
    ensures Store(mem, a, Encode32(little, Merge16(little, second, Load32(little, mem, a), v))) ==
            Store(mem, if second then a + 2 else a, Encode16(little, v))
  {
    MergedWord(little, second, mem[a..a + 4], v);
    StoreHalves(mem, a, Encode16(little, v));
  }

  lemma StoreHalves(mem: Memory, a: nat, half: seq<uint8>)
    requires a + 4 <= |mem| && |half| == 2
    ensures Store(mem, a, mem[a..a + 4][..2] + half) == Store(mem, a + 2, half)
    ensures Store(mem, a, half + mem[a..a + 4][2..]) == Store(mem, a, half)
  {
    var word := mem[a..a + 4];
    StorePart(mem, a, 4, 2, half);
    assert word[..2] + half + word[4..] == word[..2] + half;
    StorePart(mem, a, 4, 0, half);
    assert word[..0] + half + word[2..] == half + word[2..];
  }

  lemma StoreMerged8(little: bool, mem: Memory, a: nat, second: bool, v: uint8)
    requires a + 2 <= |mem|
    ensures Store(mem, a, Encode16(little, Merge8(little, second, Load16(little, mem, a), v))) ==
            Store(mem, if second then a + 1 else a, [v])
  {
    var half := mem[a..a + 2];
    MergedHalf(little, second, half, v);
    if second {
      StorePart(mem, a, 2, 1, [v]);
      assert half[..1] + [v] + half[2..] == [half[0], v];
    } else {
      StorePart(mem, a, 2, 0, [v]);
      assert half[..0] + [v] + half[1..] == [v, half[1]];
    }
  }

  /** Dropping the high bits of an address keeps its place in the word it belongs to. */
  lemma WrapNextHalf(base: nat)
    requires base % 4 == 0
    ensures Wrap32(base + 2) == Wrap32(base) + 2 && Wrap32(base) % 4 == 0 && Wrap32(base) <= base
  {
    WrapAligned(base);
    DivModUnique(base + 2, TWO32, base / TWO32, Wrap32(base) + 2);
  }

  lemma WrapNextByte(base: nat)
    requires base % 2 == 0
    ensures Wrap32(base + 1) == Wrap32(base) + 1
  {
    WrapAligned(base);
    DivModUnique(base + 1, TWO32, base / TWO32, Wrap32(base) + 1);
  }

  lemma StartOfWord(a: nat)
    requires a % 2 == 0
    ensures if a % 4 >= 2 then a >= 2 && (a - 2) % 4 == 0 else a % 4 == 0
  {
    var word, rest := a / 4, a % 4;
    assert a == 4 * word + rest;
  }

  lemma WordPlace(a: nat, base: nat)
    requires base % 4 == 0 && (a == base || a == base + 2)
    ensures Wrap32(base) % 4 == 0 && Wrap32(base) <= base && Wrap32(a) == Wrap32(base) + (a - base)
  {
    WrapNextHalf(base);
  }

  /** The aligned address that EepromWrite16 computes. */
  function WordAddress(a: nat): (w: uint32)
    requires a % 2 == 0
    ensures w % 4 == 0 && w <= a && Wrap32(a) == if SecondHalf(a) then w + 2 else w
  {
    StartOfWord(a);
    var base := if SecondHalf(a) then a - 2 else a;
    WordPlace(a, base);
    Wrap32(base)
  }

  /** The aligned address that EepromWrite8 computes. */
  function HalfAddress(a: nat): (h: uint32)
    ensures h % 2 == 0 && h <= a && Wrap32(a) == (if Odd(a) then h + 1 else h)
    ensures Wrap32(h) == h
  {
    var base := if Odd(a) then a - 1 else a;
    WrapNextByte(base);
    WrapAligned(base);
    Wrap32(base)
  }

  lemma WordFits(a: nat, size: nat)
    requires a % 4 == 0 && a < size && size % 4 == 0
    ensures a + 4 <= size
  {
  }

  lemma HalfFits(a: nat, size: nat)
    requires a % 2 == 0 && a < size && size % 4 == 0
    ensures a + 2 <= size
  {
  }

  /** Read the aligned word, replace a half of it, write the word. */
  function ReplaceHalf(little: bool, mem: Memory, aligned: nat, second: bool, v: uint16): (r: (int, Memory))
    requires Mapped(mem, aligned) && aligned % 4 == 0
    ensures |r.1| == |mem|
    ensures r == (SUCCESS, Store(mem, if second then aligned + 2 else aligned, Encode16(little, v)))
  {
    StoreMerged16(little, mem, aligned, second, v);
    Direct32(little, mem, aligned, Merge16(little, second, Load32(little, mem, aligned), v))
  }

  /** EepromWrite16: at an even address a plain store of the half-word, at the address reduced to 32
      bits, because the aligned address is kept in a 32-bit variable; refused at an odd address. */
  function Direct16(little: bool, mem: Memory, a: nat, v: uint16): (r: (int, Memory))
    requires Mapped(mem, a)
    ensures |r.1| == |mem|
    ensures a % 2 != 0 ==> r == (ADDRESS_MISALIGNED, mem)
    ensures a % 2 == 0 ==> Wrap32(a) + 2 <= |mem| && r == (SUCCESS, Store(mem, Wrap32(a), Encode16(little, v)))
  {
    if Odd(a) then (ADDRESS_MISALIGNED, mem)
    else
      var aligned := WordAddress(a);
      WordFits(aligned, |mem|);
      ReplaceHalf(little, mem, aligned, SecondHalf(a), v)
  }

  /** Read the aligned half-word, replace a byte of it, write the half-word. */
  function ReplaceByte(little: bool, mem: Memory, aligned: uint32, second: bool, v: uint8): (r: (int, Memory))
    requires Mapped(mem, aligned) && aligned % 2 == 0 && Wrap32(aligned) == aligned && aligned + 2 <= |mem|
    ensures |r.1| == |mem|
    ensures r == (SUCCESS, Store(mem, if second then aligned + 1 else aligned, [v]))
  {
    StoreMerged8(little, mem, aligned, second, v);
    Direct16(little, mem, aligned, Merge8(little, second, Load16(little, mem, aligned), v))
  }

  /** EepromWrite8: a plain store of the byte, at the address reduced to 32 bits. */
  function Direct8(little: bool, mem: Memory, a: nat, v: uint8): (r: (int, Memory))
    requires Mapped(mem, a)
    ensures |r.1| == |mem|
    ensures Wrap32(a) + 1 <= |mem| && r == (SUCCESS, Store(mem, Wrap32(a), [v]))
  {
    var aligned := HalfAddress(a);
    HalfFits(aligned, |mem|);
    ReplaceByte(little, mem, aligned, Odd(a), v)
  }

  // ---------------------------------------------------------------- reading back

  /** A read of the width just written returns the value written. */
  lemma ReadBack(little: bool, mem: Memory, a: nat, v16: uint16, v32: uint32)
    requires a + 4 <= |mem|
    ensures Load16(little, Store(mem, a, Encode16(little, v16)), a) == v16
    ensures Load32(little, Store(mem, a, Encode32(little, v32)), a) == v32
  {
    assert Store(mem, a, Encode16(little, v16))[a..a + 2] == Encode16(little, v16);
    assert Store(mem, a, Encode32(little, v32))[a..a + 4] == Encode32(little, v32);
    Decode16Encode16(little, v16);
    Decode32Encode32(little, v32);
  }

  /** A store leaves every other byte as it was. */
  lemma StoreFrame(mem: Memory, a: nat, b: seq<uint8>, i: nat)
    requires a + |b| <= |mem| && i < |mem|
    ensures Store(mem, a, b)[i] == if a <= i < a + |b| then b[i - a] else mem[i]
  {
  }

  // ---------------------------------------------------------------- whole sequences of writes

  datatype Write = Byte(a: nat, v8: uint8) | Half(a: nat, v16: uint16) | Word(a: nat, v32: uint32) {
    function Width(): nat {
      match this
      case Byte(_, _) => 1
      case Half(_, _) => 2
      case Word(_, _) => 4
    }

    predicate InRange(size: nat) {
      size % 4 == 0 && size <= TWO64 && a + Width() <= size
    }

    function Encoded(little: bool): seq<uint8> {
      match this
      case Byte(_, v) => [v]
      case Half(_, v) => Encode16(little, v)
      case Word(_, v) => Encode32(little, v)
    }
  }

  function Direct(little: bool, mem: Memory, w: Write): (r: (int, Memory))
    requires w.InRange(|mem|)
    ensures |r.1| == |mem|
  {
    match w
    case Byte(a, v) => Direct8(little, mem, a, v)
    case Half(a, v) => Direct16(little, mem, a, v)
    case Word(a, v) => Direct32(little, mem, a, v)
  }

  /** eeprom_mmap_file: the store alone, whatever the address. */
  function Plain(little: bool, mem: Memory, w: Write): (r: (int, Memory))
    requires w.InRange(|mem|)
    ensures |r.1| == |mem|
  {
    (SUCCESS, Store(mem, w.a, w.Encoded(little)))
  }

  /** Aligned, and below 2^32 where the direct driver computes an aligned address. */
  predicate Portable(w: Write) {
    match w
    case Byte(a, _) => a < TWO32
    case Half(a, _) => a % 2 == 0 && a < TWO32
    case Word(a, _) => a % 4 == 0
  }

  function RunDirect(little: bool, mem: Memory, ws: seq<Write>): Memory
    requires forall i :: 0 <= i < |ws| ==> ws[i].InRange(|mem|)
    decreases |ws|
  {
    if ws == [] then mem else RunDirect(little, Direct(little, mem, ws[0]).1, ws[1..])
  }

  function RunPlain(little: bool, mem: Memory, ws: seq<Write>): Memory
    requires forall i :: 0 <= i < |ws| ==> ws[i].InRange(|mem|)
    decreases |ws|
  {
    if ws == [] then mem else RunPlain(little, Plain(little, mem, ws[0]).1, ws[1..])
  }

  lemma PortableAgrees(little: bool, mem: Memory, w: Write)
    requires w.InRange(|mem|) && Portable(w)
    ensures Direct(little, mem, w) == Plain(little, mem, w)
  {
    match w
    case Byte(a, v) =>
      assert Wrap32(a) == a;
    case Half(a, v) =>
      assert Wrap32(a) == a;
    case Word(a, v) =>
  }

  /** Any sequence of portable writes leaves the same memory under both drivers. */
  lemma {:induction false} SequencesAgree(little: bool, mem: Memory, ws: seq<Write>)
    requires forall i :: 0 <= i < |ws| ==> ws[i].InRange(|mem|) && Portable(ws[i])
    ensures RunDirect(little, mem, ws) == RunPlain(little, mem, ws)
    decreases |ws|
  {
    if ws != [] {
      PortableAgrees(little, mem, ws[0]);
      SequencesAgree(little, Direct(little, mem, ws[0]).1, ws[1..]);
    }
  }

  /** A write of the same width to the same address. */
  predicate SamePlace(w: Write, other: Write) {
    w.a == other.a && w.Width() == other.Width()
  }

  /** The two drivers do the same for every value written to a place exactly when the place is
      portable. */
  lemma AgreeIffPortable(little: bool, mem: Memory, w: Write)
    requires w.InRange(|mem|)
    ensures (forall v :: SamePlace(w, v) ==> Direct(little, mem, v) == Plain(little, mem, v)) <==> Portable(w)
  {
    if Portable(w) {
      forall v | SamePlace(w, v)
        ensures Direct(little, mem, v) == Plain(little, mem, v)
      {
        PortableAgrees(little, mem, v);
      }
    } else {
      var v := Distinguishing(little, mem, w);
      assert SamePlace(w, v);
    }
  }

  /** A value whose plain store changes the first byte that the direct driver leaves alone. */
  lemma Distinguishing(little: bool, mem: Memory, w: Write) returns (v: Write)
    requires w.InRange(|mem|) && !Portable(w)
    ensures SamePlace(w, v) && Direct(little, mem, v) != Plain(little, mem, v)
  {
    var b: uint8 := if mem[w.a] == 0 then 1 else 0;
    match w
    case Byte(a, _) =>
      v := Byte(a, b);
      UntouchedByte(little, mem, a, b);
    case Half(a, _) =>
      v := Half(a, 0x101 * b);
      UntouchedHalf(little, mem, a, 0x101 * b);
      assert v.Encoded(little)[0] == b;
    case Word(a, _) =>
      v := Word(a, 0x101_0101 * b);
      assert v.Encoded(little)[0] == b;
    StoreFrame(mem, w.a, v.Encoded(little), w.a);
  }

  lemma UntouchedByte(little: bool, mem: Memory, a: nat, v: uint8)
    requires Mapped(mem, a) && a >= TWO32
    ensures Direct8(little, mem, a, v).1[a] == mem[a]
  {
    StoreFrame(mem, Wrap32(a), [v], a);
  }

  lemma UntouchedHalf(little: bool, mem: Memory, a: nat, v: uint16)
    requires Mapped(mem, a) && (a % 2 == 1 || a >= TWO32)
    ensures Direct16(little, mem, a, v).1[a] == mem[a]
  {
    if a % 2 == 0 {
      WrapAligned(a);
      assert Wrap32(a) + 2 <= a;
      StoreFrame(mem, Wrap32(a), Encode16(little, v), a);
    }
  }

  // ---------------------------------------------------------------- the drivers

  /** The memory both drivers work on, with the read functions of ram_direct. */
  class MappedMemory {
    const little: bool
    const bytes: array<uint8>

    ghost predicate Holds(a: nat)
      reads bytes
    {
      Mapped(bytes[..], a)
    }

    constructor (little: bool, size: nat)
      ensures this.little == little && fresh(bytes) && bytes[..] == seq(size, _ => 0)
    {
      this.little := little;
      bytes := new uint8[size](_ => 0);
      new;
      assert bytes[..] == seq(size, _ => 0);
    }

    /** The processor's own store of consecutive bytes. */
    method StoreBytes(a: nat, b: seq<uint8>)
      requires a + |b| <= bytes.Length
      modifies bytes
      ensures bytes[..] == Store(old(bytes[..]), a, b)
    {
      ghost var before := bytes[..];
      for i := 0 to |b|
        invariant bytes[..] == before[..a] + b[..i] + before[a + i..]
      {
        bytes[a + i] := b[i];
      }
      assert b[..|b|] == b;
    }

    method MemRead16(a: nat) returns (status: int, v: uint16)
      requires Holds(a)
      ensures status == if a % 2 == 0 then SUCCESS else ADDRESS_MISALIGNED
      ensures a % 2 == 0 ==> v == Load16(little, bytes[..], a)
    {
      if Odd(a) {
        return ADDRESS_MISALIGNED, 0;
      }
      assert bytes[..][a..a + 2] == bytes[a..a + 2];
      return SUCCESS, Decode16(little, bytes[a..a + 2]);
    }

    method MemRead32(a: nat) returns (status: int, v: uint32)
      requires Holds(a)
      ensures status == if a % 4 == 0 then SUCCESS else ADDRESS_MISALIGNED
      ensures a % 4 == 0 ==> v == Load32(little, bytes[..], a)
    {
      if OffWord(a) {
        return ADDRESS_MISALIGNED, 0;
      }
      assert bytes[..][a..a + 4] == bytes[a..a + 4];
      return SUCCESS, Decode32(little, bytes[a..a + 4]);
    }

    method EepromWrite32(a: nat, v: uint32) returns (status: int)
      requires Holds(a)
      modifies bytes
      ensures (status, bytes[..]) == Direct32(little, old(bytes[..]), a, v)
    {
      if OffWord(a) {
        return ADDRESS_MISALIGNED;
      }
      StoreBytes(a, Encode32(little, v));
      status := SUCCESS;
    }

    method EepromWrite16(a: nat, v: uint16) returns (status: int)
      requires Holds(a)
      modifies bytes
      ensures (status, bytes[..]) == Direct16(little, old(bytes[..]), a, v)
    {
      if Odd(a) {
        return ADDRESS_MISALIGNED;
      }
      var write32, s;
      var alignedAddress := WordAddress(a);
      WordFits(alignedAddress, bytes.Length);
      if SecondHalf(a) {
        s, write32 := MemRead32(alignedAddress);
        write32 := Merge16(little, true, write32, v);
      } else {
        s, write32 := MemRead32(alignedAddress);
        write32 := Merge16(little, false, write32, v);
      }
      status := EepromWrite32(alignedAddress, write32);
    }

    method EepromWrite8(a: nat, v: uint8) returns (status: int)
      requires Holds(a)
      modifies bytes
      ensures (status, bytes[..]) == Direct8(little, old(bytes[..]), a, v)
    {
      var write16, s;
      var alignedAddress := HalfAddress(a);
      HalfFits(alignedAddress, bytes.Length);
      if Odd(a) {
        s, write16 := MemRead16(alignedAddress);
        write16 := Merge8(little, true, write16, v);
      } else {
        s, write16 := MemRead16(alignedAddress);
        write16 := Merge8(little, false, write16, v);
      }
      status := EepromWrite16(alignedAddress, write16);
    }
  }
}
