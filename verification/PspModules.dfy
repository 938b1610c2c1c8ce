/** Module IDs and lookup (fsw/shared/src/cfe_psp_module.c), with the numbers used when OSAL does not
    define user object types. */
module PspModules {
  import opened Bits

  const SUCCESS := 0
  const INVALID_MODULE_NAME := -28
  const INVALID_MODULE_ID := -29

  const MODULE_BASE: uint32 := 0x0110_0000
  const INDEX_MASK: uint32 := 0xFFFF
  const INTERNAL_MODULE_BASE: uint32 := MODULE_BASE + INDEX_MASK - 0xFF

  /** A statically linked module: its name, whether its type is valid, and whether it has an
      initialization function. */
  datatype Entry = Entry(name: string, typeValid: bool, hasInit: bool, api: nat)

  /** The base of the internal modules as the source computes it from the module base: the start of
      the last 256 IDs. */
  lemma InternalBase(base: uint32, indexMask: nat)
    requires base % 0x1_0000 == 0 && indexMask < 0x1_0000 && indexMask % 0x100 == 0xFF
    ensures 0xFF < Pow2(32)
    ensures And(Or(base, indexMask), Complement(0xFF, 32)) == base + indexMask - 0xFF
  {
    WithIndex(base, indexMask);
    LastPage(base, indexMask);
  }

  lemma LastPage(base: uint32, index: nat)
    requires base % 0x1_0000 == 0 && index < 0x1_0000 && index % 0x100 == 0xFF
    ensures 0xFF < Pow2(32)
    ensures And(base + index, Complement(0xFF, 32)) == base + index - 0xFF
  {
    SumFits(base, index);
    WithoutLowByte(base + index);
  }

  lemma SumFits(base: uint32, index: nat)
    requires base % 0x1_0000 == 0 && index < 0x1_0000
    ensures base + index < TWO32 && (base + index) % 0x100 == index % 0x100
  {
    assert base == 0x1_0000 * (base / 0x1_0000);
  }

  lemma WithIndex(base: uint32, index: nat)
    requires base % 0x1_0000 == 0 && index < 0x1_0000
    ensures Or(base, index) == base + index
  {
    Pow2Literals();
    OrDisjoint(base, index, 16);
  }

  lemma WithoutLowByte(x: uint32)
    ensures 0xFF < Pow2(32) && And(x, Complement(0xFF, 32)) == x - x % 0x100
  {
    Pow2Literals();
    AndComplementMask(x, 8, 32);
  }

  /** The parts of an ID that GetAPIEntry looks at. */
  lemma IdParts(id: uint32)
    ensures 0xFFFF < Pow2(32)
    ensures And(id, Complement(0xFFFF, 32)) == id - id % 0x1_0000
    ensures And(id, INDEX_MASK) == id % 0x1_0000
    ensures And(id, 0xFF) == id % 0x100
  {
    Pow2Literals();
    AndComplementMask(id, 16, 32);
    AndMask(id, 16);
    AndMask(id, 8);
  }

  /** The IDs handed out: configured modules from the base up, internal ones in the last 256. */
  function ConfiguredId(i: nat): nat {
    MODULE_BASE + i
  }

  function InternalId(i: nat): nat {
    INTERNAL_MODULE_BASE + i
  }

  /** The index of the first entry of a name, or the length. */
  function FirstNamed(list: seq<Entry>, name: string): (i: nat)
    ensures i <= |list|
    ensures i < |list| ==> list[i].name == name
    ensures forall j :: 0 <= j < i ==> list[j].name != name
    decreases |list|
  {
    if list == [] || list[0].name == name then 0 else 1 + FirstNamed(list[1..], name)
  }

  lemma FirstNamedIs(list: seq<Entry>, name: string, i: nat)
    requires i <= |list| && (i < |list| ==> list[i].name == name)
    requires forall j :: 0 <= j < i ==> list[j].name != name
    ensures FirstNamed(list, name) == i
  {
    var k := FirstNamed(list, name);
    assert k < |list| ==> list[k].name == name;
  }

  class ModuleRegistry {
    /** The NULL-terminated lists; a missing configured list is `None`. */
    const baseList: seq<Entry>
    const configuredList: Option<seq<Entry>>
    var standardLength: uint32
    var configuredLength: uint32
    /** The modules initialized so far and the ID each was given. */
    ghost var initialized: seq<(Entry, uint32)>

    ghost function Configured(): seq<Entry> {
      if configuredList.Some? then configuredList.value else []
    }

    /** The sizes for which IDs are unambiguous. */
    ghost predicate Fits() {
      |baseList| <= 0x100 && |Configured()| <= 0xFF00
    }

    ghost predicate Ready()
      reads this
    {
      Fits() && standardLength == |baseList| && configuredLength == |Configured()|
    }

    constructor (baseList: seq<Entry>, configuredList: Option<seq<Entry>>)
      ensures this.baseList == baseList && this.configuredList == configuredList && initialized == []
      ensures standardLength == 0 && configuredLength == 0
    {
      this.baseList, this.configuredList := baseList, configuredList;
      standardLength, configuredLength, initialized := 0, 0, [];
    }

    method ModuleInitList(baseId: uint32, list: Option<seq<Entry>>) returns (count: uint32)
      requires list.Some? ==> baseId + |list.value| <= TWO32 && |list.value| < TWO32
      modifies this`initialized
      ensures count == if list.Some? then |list.value| else 0
      ensures initialized == old(initialized) + Initializations(if list.Some? then list.value else [], baseId)
    {
      count := 0;
      if list.Some? {
        var l := list.value;
        while count < |l|
          invariant count <= |l|
          invariant initialized == old(initialized) + Initializations(l[..count], baseId)
        {
          var entry, moduleId := l[count], Wrap32(baseId + count);
          assert l[..count + 1][..count] == l[..count];
          if entry.typeValid && entry.hasInit {
            initialized := initialized + [(entry, moduleId)];
          }
          count := count + 1;
        }
        assert l[..|l|] == l;
      }
    }

    /** CFE_PSP_ModuleInit: the fixed list first, then the configured one. */
    method ModuleInit()
      requires Fits()
      modifies this
      ensures Ready()
      ensures initialized == old(initialized) + Initializations(baseList, INTERNAL_MODULE_BASE)
                             + Initializations(Configured(), MODULE_BASE)
    {
      var standard := ModuleInitList(INTERNAL_MODULE_BASE, Some(baseList));
      standardLength := standard;
      var configured := ModuleInitList(MODULE_BASE, configuredList);
      configuredLength := configured;
    }

    /** The module an ID stands for. */
    ghost function Lookup(id: nat): Option<Entry> {
      if exists i :: 0 <= i < |Configured()| && id == ConfiguredId(i) then Some(Configured()[id - MODULE_BASE])
      else if exists i :: 0 <= i < |baseList| && id == InternalId(i) then Some(baseList[id - INTERNAL_MODULE_BASE])
      else None
    }

    /** The ID a name stands for: the first configured module of that name, else the first internal
        one. */
    ghost function Named(name: string): Option<nat> {
      var i, j := FirstNamed(Configured(), name), FirstNamed(baseList, name);
      if i < |Configured()| then Some(ConfiguredId(i))
      else if j < |baseList| then Some(InternalId(j))
      else None
    }

    /** Looking up an ID that was handed out gives the module it was handed to. */
    lemma LookupInverts(i: nat)
      requires Fits()
      ensures i < |Configured()| ==> Lookup(ConfiguredId(i)) == Some(Configured()[i])
      ensures i < |baseList| ==> Lookup(InternalId(i)) == Some(baseList[i])
    {
      assert i < |baseList| ==> forall k :: 0 <= k < |Configured()| ==> InternalId(i) != ConfiguredId(k);
    }

    /** Looking up the ID found for a name gives the first configured module of that name, else the
        first internal one; no name is missed. */
    lemma NamedThenLookup(name: string)
      requires Fits()
      ensures Named(name).Some? ==>
        var i, j := FirstNamed(Configured(), name), FirstNamed(baseList, name);
        && (i < |Configured()| || j < |baseList|)
        && Lookup(Named(name).value) == Some(if i < |Configured()| then Configured()[i] else baseList[j])
      ensures Named(name).None? ==> forall e :: e in Configured() || e in baseList ==> e.name != name
    {
      LookupInverts(FirstNamed(Configured(), name));
      LookupInverts(FirstNamed(baseList, name));
    }

    /** CFE_PSP_Module_GetAPIEntry. */
    method GetApiEntry(id: uint32) returns (code: int, entry: Option<Entry>)
      requires Ready()
      ensures entry == Lookup(id)
      ensures 0x0110_0000 <= id < 0x0110_0000 + |Configured()| ==>
        code == SUCCESS && entry == Some(Configured()[id - 0x0110_0000])
      ensures 0x0110_FF00 <= id < 0x0110_FF00 + |baseList| ==>
        code == SUCCESS && entry == Some(baseList[id - 0x0110_FF00])
      ensures
        !(0x0110_0000 <= id < 0x0110_0000 + |Configured()|) && !(0x0110_FF00 <= id < 0x0110_FF00 + |baseList|) ==>
        code == INVALID_MODULE_ID && entry == None
    {
      var group, index, low := SplitId(id);
      if group == MODULE_BASE {
        if index >= 0xFF00 {
          if low < standardLength {
            assert id == InternalId(low);
            LookupInverts(low);
            return SUCCESS, Some(baseList[low]);
          }
        } else {
          if index < configuredLength {
            assert id == ConfiguredId(index);
            LookupInverts(index);
            return SUCCESS, Some(configuredList.value[index]);
          }
        }
      }
      return INVALID_MODULE_ID, None;
    }

    /** CFE_PSP_Module_FindByName. */
    method FindByName(name: string) returns (code: int, id: uint32)
      requires Ready()
      ensures match Named(name)
              case Some(n) => code == SUCCESS && id == n
              case None => code == INVALID_MODULE_NAME
    {
      code, id := INVALID_MODULE_NAME, 0;
      var i := 0;
      while i < configuredLength
        invariant 0 <= i <= configuredLength
        invariant forall j :: 0 <= j < i ==> Configured()[j].name != name
      {
        if configuredList.value[i].name == name {
          FirstNamedIs(Configured(), name, i);
          id := JoinId(MODULE_BASE, i, 16);
          return SUCCESS, id;
        }
        i := i + 1;
      }
      FirstNamedIs(Configured(), name, |Configured()|);
      i := 0;
      while i < standardLength
        invariant 0 <= i <= standardLength
        invariant forall j :: 0 <= j < i ==> baseList[j].name != name
      {
        if baseList[i].name == name {
          FirstNamedIs(baseList, name, i);
          id := JoinId(INTERNAL_MODULE_BASE, i, 8);
          return SUCCESS, id;
        }
        i := i + 1;
      }
      FirstNamedIs(baseList, name, |baseList|);
    }
  }

  /** The masks GetAPIEntry applies to an ID. */
  method SplitId(id: uint32) returns (group: nat, index: nat, low: nat)
    ensures group == id - id % 0x1_0000 && index == id % 0x1_0000 && low == id % 0x100
  {
    IdParts(id);
    group, index, low := And(id, Complement(INDEX_MASK, 32)), And(id, INDEX_MASK), And(id, 0xFF);
  }

  lemma JoinIsSum(base: nat, i: uint32, k: nat)
    requires i < Pow2(k) && base % Pow2(k) == 0 && i < 0x1_0000
    ensures Or(base, And(i, INDEX_MASK)) == base + i
  {
    IdParts(i);
    assert i % 0x1_0000 == i;
    OrDisjoint(base, i, k);
  }

  /** `base | (i & mask)`, where the base has its low `k` bits clear. */
  method JoinId(base: uint32, i: uint32, ghost k: nat) returns (id: uint32)
    requires (k == 16 && base == MODULE_BASE && i < 0x1_0000) || (k == 8 && base == INTERNAL_MODULE_BASE && i < 0x100)
    ensures id == base + i
  {
    Pow2Literals();
    assert MODULE_BASE % 0x1_0000 == 0 && INTERNAL_MODULE_BASE % 0x100 == 0;
    JoinIsSum(base, i, k);
    id := Or(base, And(i, INDEX_MASK));
  }

  /** The calls of Init that a list gives rise to. */
  function Initializations(list: seq<Entry>, baseId: nat): seq<(Entry, nat)> {
    if list == [] then []
    else
      var n := |list| - 1;
      Initializations(list[..n], baseId)
      + if list[n].typeValid && list[n].hasInit then [(list[n], baseId + n)] else []
  }

  lemma {:induction false} InitializedIds(list: seq<Entry>, baseId: nat, x: nat)
    requires x < |Initializations(list, baseId)|
    ensures baseId <= Initializations(list, baseId)[x].1 < baseId + |list|
    ensures list[Initializations(list, baseId)[x].1 - baseId] == Initializations(list, baseId)[x].0
    decreases |list|
  {
    var n := |list| - 1;
    var front := Initializations(list[..n], baseId);
    if x < |front| {
      InitializedIds(list[..n], baseId, x);
    }
  }

  /** Init is called exactly for the entries with a valid type and an initialization function, each
      with the base plus its place. */
  lemma {:induction false} InitializedExactly(list: seq<Entry>, baseId: nat, entry: Entry, id: nat)
    ensures (entry, id) in Initializations(list, baseId) <==>
      baseId <= id < baseId + |list| && list[id - baseId] == entry && entry.typeValid && entry.hasInit
    decreases |list|
  {
    if list != [] {
      InitializedExactly(list[..|list| - 1], baseId, entry, id);
    }
  }

  lemma {:induction false} InitializationsIncrease(list: seq<Entry>, baseId: nat, x: nat, y: nat)
    requires x < y < |Initializations(list, baseId)|
    ensures Initializations(list, baseId)[x].1 < Initializations(list, baseId)[y].1
    decreases |list|
  {
    var n := |list| - 1;
    var front := Initializations(list[..n], baseId);
    if y < |front| {
      InitializationsIncrease(list[..n], baseId, x, y);
    } else {
      InitializedIds(list[..n], baseId, x);
    }
  }

  /** All IDs that ModuleInit passes to Init are different. */
  lemma IdsDistinct(baseList: seq<Entry>, configured: seq<Entry>, x: nat, y: nat)
    requires |baseList| <= 0x100 && |configured| <= 0xFF00
    requires
      var all := Initializations(baseList, INTERNAL_MODULE_BASE) + Initializations(configured, MODULE_BASE);
      x < y < |all|
    ensures
      var all := Initializations(baseList, INTERNAL_MODULE_BASE) + Initializations(configured, MODULE_BASE);
      all[x].1 != all[y].1
  {
    var first, second := Initializations(baseList, INTERNAL_MODULE_BASE), Initializations(configured, MODULE_BASE);
    if y < |first| {
      InitializationsIncrease(baseList, INTERNAL_MODULE_BASE, x, y);
    } else if x >= |first| {
      InitializationsIncrease(configured, MODULE_BASE, x - |first|, y - |first|);
    } else {
      InitializedIds(baseList, INTERNAL_MODULE_BASE, x);
      InitializedIds(configured, MODULE_BASE, y - |first|);
    }
  }
}
