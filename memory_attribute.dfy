/** The memory types a mapping can name (memory_attribute.rs): each picks a
    slot of MAIR_EL1 by its index and a shareability, and encodes both as the
    memory-attribute field of a descriptor. */
module MemoryAttribute {
  import opened PageTable

  /** The three MairType implementations. */
  datatype MairType = MairNormal | MairDevice | MairNormalNonCacheable {

    /** MairType::INDEX: the MAIR_EL1 attribute slot of this memory type. */
    function Index(): (i: bv64)
      ensures i < 3
    {
      match this
      case MairNormal => 0
      case MairDevice => 1
      case MairNormalNonCacheable => 2
    }

    /** MairType::attr_value: Normal memory is inner shareable, the other
        two are outer shareable; AttrIndx holds the type's index. */
    function AttrValue(): (a: PageTableAttribute)
      ensures InAttrField(a)
      ensures (a.value >> ATTR_INDX_SHIFT) & ATTR_INDX_MASK == Index()
      ensures (a.value >> SH_SHIFT) & SH_MASK == if this == MairNormal then 0x3 else 0x2
    {
      var sh := if this == MairNormal then ShInnerShareable() else ShOuterShareable();
      sh.Plus(AttrIndx(Index()))
    }
  }

  /** The three indices are 0, 1 and 2; no two memory types share a slot. */
  lemma IndicesDistinct(a: MairType, b: MairType)
    ensures a.Index() < 3
    ensures a.Index() == b.Index() <==> a == b
  {
  }

  /** The encoded attribute values: 0x300 for Normal, 0x204 for Device,
      0x208 for Normal non-cacheable; each covers the whole attribute field. */
  lemma AttrValues()
    ensures MairNormal.AttrValue() == FieldValue(MEMORY_ATTR_MASK, 0x300)
    ensures MairDevice.AttrValue() == FieldValue(MEMORY_ATTR_MASK, 0x204)
    ensures MairNormalNonCacheable.AttrValue() == FieldValue(MEMORY_ATTR_MASK, 0x208)
  {
  }

  /** Every attribute value survives a store into an entry and a read back,
      and reading back tells the memory types apart. */
  lemma AttrRoundTrip(e: PageTableEntry, t: MairType, u: MairType)
    ensures e.SetAttr(t.AttrValue()).Attr() == t.AttrValue()
    ensures e.SetAttr(t.AttrValue()).Attr() == e.SetAttr(u.AttrValue()).Attr() <==> t == u
  {
    AttrValues();
  }
}
