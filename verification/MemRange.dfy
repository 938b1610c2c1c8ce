/** The system memory table and range validation (fsw/shared/src/cfe_psp_memrange.c). */
module MemRange {
  const SUCCESS := 0
  const INVALID_MEM_ADDR := -21
  const INVALID_MEM_TYPE := -22
  const INVALID_MEM_RANGE := -23
  const INVALID_MEM_WORDSIZE := -24
  const INVALID_MEM_ATTR := -26

  const MEM_RAM: nat := 1
  const MEM_EEPROM: nat := 2
  const MEM_ANY: nat := 3
  const MEM_INVALID: nat := 4

  datatype Entry = Entry(memoryType: nat, wordSize: nat, startAddr: nat, size: nat, attributes: nat)

  /** The last address of a range, in an address word that wraps at `span`. */
  function Last(start: nat, size: nat, span: nat): nat
    requires span > 0
  {
    (start + size - 1) % span
  }

  /** Whether an entry's own range contains the addresses `first` to `last`. */
  predicate Contains(e: Entry, first: nat, last: nat, span: nat)
    requires span > 0
  {
    e.startAddr <= first <= Last(e.startAddr, e.size, span) && last <= Last(e.startAddr, e.size, span)
  }

  /** Whether an entry's range, in a word that wraps, includes an address. */
  predicate Spans(e: Entry, a: nat, span: nat)
    requires span > 0
  {
    e.startAddr <= a <= (e.startAddr + e.size - 1) % span
  }

  ghost predicate SpansAll(e: Entry, first: nat, last: nat, span: nat)
    requires span > 0
  {
    forall a :: first <= a <= last ==> Spans(e, a, span)
  }

  /** Comparing the ends compares every address in between. */
  lemma ContainsSpans(e: Entry, first: nat, last: nat, span: nat)
    requires span > 0 && first <= last
    ensures Contains(e, first, last, span) <==> SpansAll(e, first, last, span)
  {
    if SpansAll(e, first, last, span) {
      assert Spans(e, first, span) && Spans(e, last, span);
    }
  }

  predicate TypeMatches(e: Entry, memoryType: nat) {
    memoryType == MEM_ANY || ((memoryType == MEM_RAM || memoryType == MEM_EEPROM) && e.memoryType == memoryType)
  }

  predicate Usable(e: Entry) {
    e.memoryType != MEM_INVALID
  }

  /** An entry that validates the request. */
  predicate Validates(e: Entry, first: nat, last: nat, memoryType: nat, span: nat)
    requires span > 0
  {
    Usable(e) && Contains(e, first, last, span) && TypeMatches(e, memoryType)
  }

  /** The code for an entry that does not. */
  function Refusal(e: Entry, first: nat, last: nat, span: nat): int
    requires span > 0
  {
    if Contains(e, first, last, span) then INVALID_MEM_TYPE
    else if e.startAddr <= first <= Last(e.startAddr, e.size, span) then INVALID_MEM_RANGE
    else INVALID_MEM_ADDR
  }

  predicate KnownType(memoryType: nat)
    ensures KnownType(memoryType) <==> 1 <= memoryType <= 3
  {
    memoryType == MEM_ANY || memoryType == MEM_RAM || memoryType == MEM_EEPROM
  }

  predicate InBlock(a: nat, start: nat, size: nat) {
    start <= a < start + size
  }

  /** A request that does not wrap asks for exactly its addresses, and an entry that does not wrap
      contains it exactly when its addresses do. */
  lemma ContainsAddresses(e: Entry, address: nat, size: nat, span: nat)
    requires 0 < size && address + size <= span
    requires 0 < e.size && e.startAddr + e.size <= span
    ensures address <= Last(address, size, span)
    ensures Contains(e, address, Last(address, size, span), span) <==>
      forall a :: InBlock(a, address, size) ==> InBlock(a, e.startAddr, e.size)
  {
    SmallMod(address + size - 1, span);
    SmallMod(e.startAddr + e.size - 1, span);
    assert InBlock(address, address, size) && InBlock(address + size - 1, address, size);
  }

  lemma SmallMod(x: nat, span: nat)
    requires x < span
    ensures x % span == x
  {
  }

  /** An entry of all zeros, whose type is none of the known ones, spans every address. */
  lemma ZeroedEntryCoversAll(a: nat, span: nat)
    requires a < span
    ensures Spans(Entry(0, 0, 0, 0, 0), a, span)
  {
    assert -1 == span - 1 + (-1) * span;
    assert (0 + 0 - 1) % span == span - 1;
  }

  class MemoryTable {
    const entries: array<Entry>
    /** One more than the highest address the address word can hold. */
    const span: nat

    ghost predicate Valid() {
      span > 0
    }

    constructor (count: nat, span: nat)
      requires span > 0
      ensures Valid() && this.span == span && fresh(entries)
      ensures entries.Length == count && forall i :: 0 <= i < count ==> entries[i] == Entry(0, 0, 0, 0, 0)
    {
      this.span := span;
      entries := new Entry[count](_ => Entry(0, 0, 0, 0, 0));
    }

    /** CFE_PSP_MemValidateRange: success exactly when some entry that is in use, and of the requested
        type unless any will do, spans every requested address; otherwise the last entry in use
        decides the code. */
    method MemValidateRange(address: nat, size: nat, memoryType: nat) returns (code: int)
      requires Valid() && address < span && size < span
      ensures !KnownType(memoryType) ==> code == INVALID_MEM_TYPE
      ensures KnownType(memoryType) && Last(address, size, span) < address ==> code == INVALID_MEM_RANGE
      ensures KnownType(memoryType) && Last(address, size, span) >= address ==>
        (code == SUCCESS <==>
         exists i :: (0 <= i < entries.Length
                      && entries[i].memoryType != MEM_INVALID
                      && (memoryType == MEM_ANY || entries[i].memoryType == memoryType)
                      && SpansAll(entries[i], address, Last(address, size, span), span)))
      ensures KnownType(memoryType) && Last(address, size, span) >= address && code != SUCCESS ==>
        if forall i :: 0 <= i < entries.Length ==> entries[i].memoryType == MEM_INVALID then code == INVALID_MEM_ADDR
        else exists i :: 0 <= i < entries.Length && entries[i].memoryType != MEM_INVALID
               && (forall j :: i < j < entries.Length ==> entries[j].memoryType == MEM_INVALID)
               && code == if SpansAll(entries[i], address, Last(address, size, span), span) then INVALID_MEM_TYPE
                          else if Spans(entries[i], address, span) then INVALID_MEM_RANGE
                          else INVALID_MEM_ADDR
    {
      var endAddressToTest := Last(address, size, span);
      code := INVALID_MEM_ADDR;
      if memoryType != MEM_ANY && memoryType != MEM_RAM && memoryType != MEM_EEPROM {
        return INVALID_MEM_TYPE;
      }
      if endAddressToTest < address {
        return INVALID_MEM_RANGE;
      }
      ghost var decided: int := -1;
      var i := 0;
      while i < entries.Length
        invariant 0 <= i <= entries.Length && -1 <= decided < i
        invariant forall j :: 0 <= j < i ==> !Validates(entries[j], address, endAddressToTest, memoryType, span)
        invariant forall j :: decided < j < i ==> !Usable(entries[j])
        invariant code != SUCCESS
        invariant if decided < 0 then code == INVALID_MEM_ADDR
                  else Usable(entries[decided]) && code == Refusal(entries[decided], address, endAddressToTest, span)
      {
        var e := entries[i];
        if e.memoryType != MEM_INVALID {
          var endAddressInTable := Last(e.startAddr, e.size, span);
          if address >= e.startAddr && address <= endAddressInTable {
            if endAddressToTest <= endAddressInTable {
              if memoryType == MEM_ANY {
                code := SUCCESS;
                break;
              } else if memoryType == MEM_RAM && e.memoryType == MEM_RAM {
                code := SUCCESS;
                break;
              } else if memoryType == MEM_EEPROM && e.memoryType == MEM_EEPROM {
                code := SUCCESS;
                break;
              } else {
                code := INVALID_MEM_TYPE;
              }
            } else {
              code := INVALID_MEM_RANGE;
            }
          } else {
            code := INVALID_MEM_ADDR;
          }
          decided := i;
        }
        i := i + 1;
      }
      forall j | 0 <= j < entries.Length
        ensures Contains(entries[j], address, endAddressToTest, span) <==>
                SpansAll(entries[j], address, endAddressToTest, span)
      {
        ContainsSpans(entries[j], address, endAddressToTest, span);
      }
    }

    /** CFE_PSP_MemRangeSet: checks its parameters in order, then replaces one entry. */
    method MemRangeSet(rangeNum: nat, memoryType: nat, startAddr: nat, size: nat, wordSize: nat, attributes: nat)
      returns (code: int)
      modifies entries
      ensures code ==
        if rangeNum >= entries.Length then INVALID_MEM_RANGE
        else if !(memoryType == MEM_RAM || memoryType == MEM_EEPROM) then INVALID_MEM_TYPE
        else if !(wordSize == 1 || wordSize == 2 || wordSize == 4) then INVALID_MEM_WORDSIZE
        else if !(1 <= attributes <= 3) then INVALID_MEM_ATTR
        else SUCCESS
      ensures code == SUCCESS ==>
        entries[..] == old(entries[..])[rangeNum := Entry(memoryType, wordSize, startAddr, size, attributes)]
      ensures code != SUCCESS ==> entries[..] == old(entries[..])
    {
      if rangeNum >= entries.Length {
        return INVALID_MEM_RANGE;
      }
      if memoryType != MEM_RAM && memoryType != MEM_EEPROM {
        return INVALID_MEM_TYPE;
      }
      if wordSize != 1 && wordSize != 2 && wordSize != 4 {
        return INVALID_MEM_WORDSIZE;
      }
      if attributes != 2 && attributes != 1 && attributes != 3 {
        return INVALID_MEM_ATTR;
      }
      entries[rangeNum] := Entry(memoryType, wordSize, startAddr, size, attributes);
      code := SUCCESS;
    }
  }
}
