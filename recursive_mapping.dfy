/** The recursive page table on values (mapper/recursive_page_table.rs):
    physical memory as a map from table frames to their 512 entries, the
    4 KiB-page table walk on it, the virtual pages at which the
    recursive slot exposes each table, and what every operation of the
    mapper does to memory. The class in RecursivePageTable runs these
    operations in place and is proved to agree with the functions here. */
module RecursiveMapping {
  import opened Paging
  import opened PageTable
  import opened Mapper
  import opened MemoryAttribute

  /** Physical memory as far as the page tables go: the entries of every
      frame that holds a table. */
  type Memory = map<PhysFrame, seq<PageTableEntry>>

  /** Every table holds ENTRY_COUNT entries. */
  predicate WellFormed(m: Memory) {
    forall t | t in m :: |m[t]| == ENTRY_COUNT
  }

  // ---------------------------------------------------------------------
  // The hardware walk

  /** One step of the 4 KiB-page table walk: slot `i` of table `t` leads to
      the frame it references when it is a valid table (or page)
      descriptor. A block descriptor ends the walk without a translation:
      the output of blocks is not part of this walk. */
  function Descend(m: Memory, t: PhysFrame, i: Idx): (r: Option<PhysFrame>)
    ensures r.Some? ==> t in m && i as int < |m[t]| && m[t][i].Frame() == Ok(r.value)
  {
    if t in m && i as int < |m[t]| && m[t][i].Frame().Ok? then Some(m[t][i].Frame().value) else None
  }

  /** The 4 KiB-page table walk from table `t` along the indices of `path`, first index
      first; None where it faults. */
  function Walk(m: Memory, t: PhysFrame, path: seq<Idx>): Option<PhysFrame>
    decreases |path|
  {
    if path == [] then Some(t)
    else match Descend(m, t, path[0])
      case None => None
      case Some(n) => Walk(m, n, path[1..])
  }

  /** The four indices of a page, level 4 first. */
  function Indices(v: Page): (s: seq<Idx>)
    ensures |s| == 4
  {
    [v.p4, v.p3, v.p2, v.p1]
  }

  /** The frame the 4 KiB-page table walk translates page `v` to, starting from the level 4
      table `root`. */
  function Resolve(m: Memory, root: PhysFrame, v: Page): Option<PhysFrame> {
    Walk(m, root, Indices(v))
  }

  /** A page's indices are its three upper indices, then the level 1 one. */
  lemma IndicesSplit(v: Page)
    ensures Indices(v) == [v.p4, v.p3, v.p2] + [v.p1]
  {
  }

  /** Walking one index further continues from where the walk stood. */
  lemma {:induction false} WalkSnoc(m: Memory, t: PhysFrame, path: seq<Idx>, i: Idx)
    ensures Walk(m, t, path + [i]) ==
            match Walk(m, t, path) case None => None case Some(x) => Descend(m, x, i)
    decreases |path|
  {
    if path != [] {
      assert (path + [i])[0] == path[0];
      assert (path + [i])[1..] == path[1..] + [i];
      match Descend(m, t, path[0])
      case None =>
      case Some(n) => WalkSnoc(m, n, path[1..], i);
    }
  }

  // ---------------------------------------------------------------------
  // The recursive slot

  /** Slot `r` of the level 4 table references that table itself. */
  predicate RecursiveSlot(m: Memory, root: PhysFrame, r: Idx) {
    root in m && r as int < |m[root]| && m[root][r].Frame() == Ok(root)
  }

  /** `k` copies of the recursive index. */
  function Repeat(r: Idx, k: nat): (s: seq<Idx>)
    ensures |s| == k && forall i | 0 <= i < k :: s[i] == r
  {
    if k == 0 then [] else [r] + Repeat(r, k - 1)
  }

  /** Following the recursive slot any number of times leaves the walk at
      the level 4 table. */
  lemma {:induction false} Unwrap(m: Memory, root: PhysFrame, r: Idx, k: nat, path: seq<Idx>)
    requires RecursiveSlot(m, root, r)
    ensures Walk(m, root, Repeat(r, k) + path) == Walk(m, root, path)
  {
    if k > 0 {
      var s := Repeat(r, k) + path;
      assert s[0] == r && s[1..] == Repeat(r, k - 1) + path;
      assert Descend(m, root, r) == Some(root);
      assert Walk(m, root, s) == Walk(m, root, s[1..]);
      Unwrap(m, root, r, k - 1, path);
    } else {
      assert Repeat(r, k) + path == path;
    }
  }

  /** One to four copies of an index, written out. */
  lemma RepeatUpToFour(r: Idx)
    ensures Repeat(r, 1) == [r] && Repeat(r, 2) == [r, r]
    ensures Repeat(r, 3) == [r, r, r] && Repeat(r, 4) == [r, r, r, r]
  {
    assert Repeat(r, 1) == [r] + Repeat(r, 0);
    assert Repeat(r, 2) == [r] + Repeat(r, 1);
    assert Repeat(r, 3) == [r] + Repeat(r, 2);
    assert Repeat(r, 4) == [r] + Repeat(r, 3);
  }

  /** p4_page: the level 4 table is at indices (R, R, R, R). */
  function P4Page(r: Idx): Page {
    Page(r, r, r, r)
  }

  /** p3_page: the level 3 table of `v` is at (R, R, R, i4). */
  function P3Page(r: Idx, v: Page): Page {
    Page(r, r, r, v.p4)
  }

  /** p2_page: the level 2 table of `v` is at (R, R, i4, i3). */
  function P2Page(r: Idx, v: Page): Page {
    Page(r, r, v.p4, v.p3)
  }

  /** p1_page: the level 1 table of `v` is at (R, i4, i3, i2). */
  function P1Page(r: Idx, v: Page): Page {
    Page(r, v.p4, v.p3, v.p2)
  }

  /** p4_page to p1_page are the table pages of the walk after zero to
      three indices of `v`. */
  lemma TablePageIs(r: Idx, v: Page)
    ensures P4Page(r) == TablePage(r, [])
    ensures P3Page(r, v) == TablePage(r, [v.p4])
    ensures P2Page(r, v) == TablePage(r, [v.p4, v.p3])
    ensures P1Page(r, v) == TablePage(r, [v.p4, v.p3, v.p2])
  {
    RepeatUpToFour(r);
  }

  /** The table pages map_to passes, with each prefix written as the one
      before it extended by one index. */
  lemma MapPages(r: Idx, v: Page)
    ensures P3Page(r, v) == TablePage(r, [] + [v.p4])
    ensures P2Page(r, v) == TablePage(r, [] + [v.p4] + [v.p3])
    ensures P1Page(r, v) == TablePage(r, [] + [v.p4] + [v.p3] + [v.p2])
  {
    TablePageIs(r, v);
    assert [] + [v.p4] == [v.p4];
    assert [] + [v.p4] + [v.p3] == [v.p4, v.p3];
    assert [] + [v.p4] + [v.p3] + [v.p2] == [v.p4, v.p3, v.p2];
  }

  /** The recursive trick: when slot R of the level 4 table references that
      table, the table walk translates each table page to the table the walk for
      `v` passes at that level: the root, then whatever root[i4], the table
      below at i3 and the table below that at i2 reference. */
  lemma TablePages(m: Memory, root: PhysFrame, r: Idx, v: Page)
    requires RecursiveSlot(m, root, r)
    ensures Resolve(m, root, P4Page(r)) == Some(root)
    ensures Resolve(m, root, P3Page(r, v)) == Walk(m, root, [v.p4])
    ensures Resolve(m, root, P2Page(r, v)) == Walk(m, root, [v.p4, v.p3])
    ensures Resolve(m, root, P1Page(r, v)) == Walk(m, root, [v.p4, v.p3, v.p2])
  {
    RepeatUpToFour(r);
    assert Indices(P4Page(r)) == Repeat(r, 4) + [];
    Unwrap(m, root, r, 4, []);
    assert Indices(P3Page(r, v)) == Repeat(r, 3) + [v.p4];
    Unwrap(m, root, r, 3, [v.p4]);
    assert Indices(P2Page(r, v)) == Repeat(r, 2) + [v.p4, v.p3];
    Unwrap(m, root, r, 2, [v.p4, v.p3]);
    assert Indices(P1Page(r, v)) == Repeat(r, 1) + [v.p4, v.p3, v.p2];
    Unwrap(m, root, r, 1, [v.p4, v.p3, v.p2]);
  }

  /** The page of the table that the walk reaches after `q` (at most three
      indices): the recursive index fills the front. P4Page to P1Page are
      its four instances. */
  function TablePage(r: Idx, q: seq<Idx>): Page
    requires |q| <= 3
  {
    var s := Repeat(r, 4 - |q|) + q;
    Page(s[0], s[1], s[2], s[3])
  }

  /** Every table page resolves to the table the walk reaches. */
  lemma TablePageResolves(m: Memory, root: PhysFrame, r: Idx, q: seq<Idx>)
    requires RecursiveSlot(m, root, r) && |q| <= 3
    ensures Resolve(m, root, TablePage(r, q)) == Walk(m, root, q)
  {
    var s := Repeat(r, 4 - |q|) + q;
    assert Indices(TablePage(r, q)) == s;
    Unwrap(m, root, r, 4 - |q|, q);
  }

  // ---------------------------------------------------------------------
  // Slots and table references

  /** A slot: the table holding an entry and the entry's index in it. */
  datatype Slot = Slot(table: PhysFrame, index: Idx)

  /** No entry of memory references frame `f` as a table or page. */
  predicate Unreferenced(m: Memory, f: PhysFrame) {
    forall t, i | t in m && 0 <= i < |m[t]| :: m[t][i].Frame() != Ok(f)
  }

  /** The frames the allocator still holds are tables of memory that
      nothing references, each listed once. */
  predicate PoolFresh(m: Memory, pool: seq<PhysFrame>) {
    && (forall k | 0 <= k < |pool| :: pool[k] in m && Unreferenced(m, pool[k]))
    && (forall j, k | 0 <= j < k < |pool| :: pool[j] != pool[k])
  }

  /** A walk that arrives somewhere past its start arrives at a frame some
      entry references. */
  lemma {:induction false} WalkReferenced(m: Memory, t: PhysFrame, path: seq<Idx>)
    requires path != [] && Walk(m, t, path).Some?
    ensures !Unreferenced(m, Walk(m, t, path).value)
    decreases |path|
  {
    var n := Descend(m, t, path[0]).value;
    if path[1..] == [] {
      assert m[t][path[0]].Frame() == Ok(n);
    } else {
      WalkReferenced(m, n, path[1..]);
    }
  }

  /** Writing a slot that was unused cannot disturb a walk that succeeded:
      a walk reads only valid descriptors. */
  lemma {:induction false} WalkWriteUnused(m: Memory, t: PhysFrame, i: Idx, e: PageTableEntry, s: PhysFrame, path: seq<Idx>)
    requires t in m && i as int < |m[t]| && m[t][i].IsUnused()
    requires Walk(m, s, path).Some?
    ensures Walk(m[t := m[t][i := e]], s, path) == Walk(m, s, path)
    decreases |path|
  {
    if path != [] {
      var n := Descend(m, s, path[0]).value;
      assert Descend(m[t := m[t][i := e]], s, path[0]) == Some(n);
      WalkWriteUnused(m, t, i, e, n, path[1..]);
    }
  }

  /** Replacing the content of a frame nothing references, other than the
      walk's start, cannot disturb a walk that succeeded. */
  lemma {:induction false} WalkReplaceUnreferenced(m: Memory, f: PhysFrame, z: seq<PageTableEntry>, s: PhysFrame, path: seq<Idx>)
    requires f in m && Unreferenced(m, f) && s != f
    requires Walk(m, s, path).Some?
    ensures Walk(m[f := z], s, path) == Walk(m, s, path)
    decreases |path|
  {
    if path != [] {
      var n := Descend(m, s, path[0]).value;
      assert Descend(m[f := z], s, path[0]) == Some(n);
      if path[1..] != [] {
        assert n != f by {
          assert m[s][path[0]].Frame() == Ok(n);
        }
        WalkReplaceUnreferenced(m, f, z, n, path[1..]);
      }
    }
  }

  /** Clearing a slot can make a walk fault but never send it elsewhere. */
  lemma {:induction false} WalkClear(m: Memory, t: PhysFrame, i: Idx, s: PhysFrame, path: seq<Idx>)
    requires t in m && i as int < |m[t]|
    requires Walk(m[t := m[t][i := PageTableEntry.New()]], s, path).Some?
    ensures Walk(m[t := m[t][i := PageTableEntry.New()]], s, path) == Walk(m, s, path)
    decreases |path|
  {
    if path != [] {
      var m' := m[t := m[t][i := PageTableEntry.New()]];
      var n := Descend(m', s, path[0]).value;
      assert Descend(m, s, path[0]) == Some(n);
      WalkClear(m, t, i, n, path[1..]);
    }
  }

  /** Writing one slot changes that slot and nothing else. */
  lemma WriteSlot(m: Memory, t: PhysFrame, i: Idx, e: PageTableEntry)
    requires WellFormed(m) && t in m
    ensures var m' := m[t := m[t][i := e]];
      && m'.Keys == m.Keys && WellFormed(m') && m'[t][i] == e
      && (forall u, j | u in m && 0 <= j < |m[u]| && (u, j) != (t, i as int) :: m'[u][j] == m[u][j])
  {
  }

  // ---------------------------------------------------------------------
  // get_entry

  /** get_entry dereferences the next table wherever an upper entry is not
      unused; it is defined when each such entry is a table descriptor
      into memory (otherwise the source reads through an unmapped virtual
      address). */
  predicate LookupDefined(m: Memory, t: PhysFrame, upper: seq<Idx>)
    decreases |upper|
  {
    && t in m && WellFormed(m)
    && (upper != [] && !m[t][upper[0]].IsUnused() ==>
          Descend(m, t, upper[0]).Some? && LookupDefined(m, Descend(m, t, upper[0]).value, upper[1..]))
  }

  /** get_entry from table `t`: PageNotMapped at the first unused upper
      entry, otherwise the slot `leaf` of the table the upper entries lead
      to, whatever that slot holds. */
  function Lookup(m: Memory, t: PhysFrame, upper: seq<Idx>, leaf: Idx): (r: Result<Slot, EntryGetError>)
    requires LookupDefined(m, t, upper)
    ensures r.Ok? ==> r.value.table in m && r.value.index == leaf
    decreases |upper|
  {
    if upper == [] then Ok(Slot(t, leaf))
    else if m[t][upper[0]].IsUnused() then Err(EntryGetError.PageNotMapped)
    else Lookup(m, Descend(m, t, upper[0]).value, upper[1..], leaf)
  }

  /** Some upper entry the walk reaches is unused. */
  predicate UnusedOnPath(m: Memory, t: PhysFrame, upper: seq<Idx>)
    decreases |upper|
  {
    upper != [] && t in m && upper[0] as int < |m[t]| &&
    (m[t][upper[0]].IsUnused() ||
     (Descend(m, t, upper[0]).Some? && UnusedOnPath(m, Descend(m, t, upper[0]).value, upper[1..])))
  }

  /** get_entry fails exactly when an upper entry on the path is unused,
      and then only with PageNotMapped, never ParentEntryHugePage; it
      succeeds exactly when the table walk through the upper entries
      reaches a table, and it returns the leaf slot of that table. */
  lemma {:induction false} LookupCases(m: Memory, t: PhysFrame, upper: seq<Idx>, leaf: Idx)
    requires LookupDefined(m, t, upper)
    ensures Lookup(m, t, upper, leaf).Err? <==> UnusedOnPath(m, t, upper)
    ensures Lookup(m, t, upper, leaf).Err? ==> Lookup(m, t, upper, leaf).error.PageNotMapped?
    ensures Lookup(m, t, upper, leaf).Ok? <==> Walk(m, t, upper).Some?
    ensures Lookup(m, t, upper, leaf).Ok? ==>
              Lookup(m, t, upper, leaf).value == Slot(Walk(m, t, upper).value, leaf)
    decreases |upper|
  {
    if upper != [] && !m[t][upper[0]].IsUnused() {
      LookupCases(m, Descend(m, t, upper[0]).value, upper[1..], leaf);
    }
  }

  /** get_entry for a page through the recursive mapping: the level 1 slot
      of the page when the walk reaches a level 1 table, PageNotMapped
      otherwise. */
  function GetEntrySpec(m: Memory, root: PhysFrame, v: Page): (r: Result<Slot, EntryGetError>)
    requires LookupDefined(m, root, [v.p4, v.p3, v.p2])
    ensures r.Ok? <==> Walk(m, root, [v.p4, v.p3, v.p2]).Some?
    ensures r.Ok? ==> r == Ok(Slot(Walk(m, root, [v.p4, v.p3, v.p2]).value, v.p1)) && r.value.table in m
    ensures r.Err? ==> r.error == EntryGetError.PageNotMapped
  {
    LookupCases(m, root, [v.p4, v.p3, v.p2], v.p1);
    Lookup(m, root, [v.p4, v.p3, v.p2], v.p1)
  }

  /** get_entry level by level: PageNotMapped at the first unused upper
      entry, each used one leading to the table it references. */
  lemma LookupLevels(m: Memory, root: PhysFrame, v: Page)
    requires LookupDefined(m, root, [v.p4, v.p3, v.p2])
    ensures !m[root][v.p4].IsUnused() ==>
              Descend(m, root, v.p4).Some? && Descend(m, root, v.p4).value in m
    ensures !m[root][v.p4].IsUnused() && !m[Descend(m, root, v.p4).value][v.p3].IsUnused() ==>
              var t3 := Descend(m, root, v.p4).value;
              Descend(m, t3, v.p3).Some? && Descend(m, t3, v.p3).value in m
    ensures !m[root][v.p4].IsUnused() && !m[Descend(m, root, v.p4).value][v.p3].IsUnused() ==>
              var t2 := Descend(m, Descend(m, root, v.p4).value, v.p3).value;
              !m[t2][v.p2].IsUnused() ==> Descend(m, t2, v.p2).Some?
    ensures GetEntrySpec(m, root, v) ==
      if m[root][v.p4].IsUnused() then Err(EntryGetError.PageNotMapped) else
      var t3 := Descend(m, root, v.p4).value;
      if m[t3][v.p3].IsUnused() then Err(EntryGetError.PageNotMapped) else
      var t2 := Descend(m, t3, v.p3).value;
      if m[t2][v.p2].IsUnused() then Err(EntryGetError.PageNotMapped) else
      Ok(Slot(Descend(m, t2, v.p2).value, v.p1))
  {
    assert [v.p4, v.p3, v.p2][1..] == [v.p3, v.p2] && [v.p3, v.p2][1..] == [v.p2] && [v.p2][1..] == [];
    if !m[root][v.p4].IsUnused() {
      var t3 := Descend(m, root, v.p4).value;
      assert LookupDefined(m, t3, [v.p3, v.p2]);
      assert GetEntrySpec(m, root, v) == Lookup(m, t3, [v.p3, v.p2], v.p1);
      if !m[t3][v.p3].IsUnused() {
        var t2 := Descend(m, t3, v.p3).value;
        assert LookupDefined(m, t2, [v.p2]);
        assert Lookup(m, t3, [v.p3, v.p2], v.p1) == Lookup(m, t2, [v.p2], v.p1);
        if !m[t2][v.p2].IsUnused() {
          assert Lookup(m, t2, [v.p2], v.p1) == Lookup(m, Descend(m, t2, v.p2).value, [], v.p1);
        }
      }
    }
  }

  /** The slot get_entry returns is the slot the table walk reads last for the page:
      the page translates to what that slot references. */
  lemma GetEntryIsTranslationSlot(m: Memory, root: PhysFrame, v: Page)
    requires LookupDefined(m, root, [v.p4, v.p3, v.p2])
    requires GetEntrySpec(m, root, v).Ok?
    ensures Resolve(m, root, v) ==
            Descend(m, GetEntrySpec(m, root, v).value.table, GetEntrySpec(m, root, v).value.index)
  {
    LookupCases(m, root, [v.p4, v.p3, v.p2], v.p1);
    WalkSnoc(m, root, [v.p4, v.p3, v.p2], v.p1);
    assert Indices(v) == [v.p4, v.p3, v.p2] + [v.p1];
  }

  /** translate_page for a 4 KiB page through the recursive mapping: the
      4 KiB frame at the address of the page's level 1 entry when get_entry
      finds it used, PageNotMapped otherwise (never InvalidFrameAddress). */
  function TranslatePageSpec(m: Memory, root: PhysFrame, v: Page): (r: Result<SizedFrame, TranslateError>)
    requires LookupDefined(m, root, [v.p4, v.p3, v.p2])
    ensures r.Ok? <==> GetEntrySpec(m, root, v).Ok? &&
                       !m[GetEntrySpec(m, root, v).value.table][v.p1].IsUnused()
    ensures r.Ok? ==> r.value == SizedFrame(Size4KiB, m[GetEntrySpec(m, root, v).value.table][v.p1].Addr())
    ensures r.Err? ==> r.error == TranslateError.PageNotMapped
  {
    var slot := GetEntrySpec(m, root, v);
    var entry: Result<PageTableEntry, EntryGetError> :=
      if slot.Ok? then Ok(m[slot.value.table][slot.value.index]) else Err(slot.error);
    TranslatePage4KiBAligned(entry);
    TranslatePageOf(Size4KiB, entry)
  }

  /** update_flags on memory: the lookup's error converted, PageNotMapped
      for an unused leaf, otherwise the leaf's flags replaced. */
  function UpdateFlagsSpec(m: Memory, root: PhysFrame, v: Page, flags: PageTableFlags): (o: (Result<MapperFlush, FlagUpdateError>, Memory))
    requires LookupDefined(m, root, [v.p4, v.p3, v.p2])
    ensures o.0.Ok? <==> GetEntrySpec(m, root, v).Ok? &&
                         !m[GetEntrySpec(m, root, v).value.table][GetEntrySpec(m, root, v).value.index].IsUnused()
    ensures o.0.Err? ==> o.0.error.PageNotMapped? && o.1 == m
    ensures o.0.Ok? ==> (o.0.value.page == v &&
              var s := GetEntrySpec(m, root, v).value;
              var e := m[s.table][s.index];
              && o.1.Keys == m.Keys
              && WellFormed(o.1)
              && o.1[s.table][s.index].Flags() == flags
              && o.1[s.table][s.index].Addr() == e.Addr()
              && o.1[s.table][s.index].Attr().value == e.Attr().value
              && (forall t, i | t in m && 0 <= i < |m[t]| && (t, i) != (s.table, s.index as int) :: o.1[t][i] == m[t][i]))
  {
    LookupCases(m, root, [v.p4, v.p3, v.p2], v.p1);
    match GetEntrySpec(m, root, v)
    case Err(e) => (Err(FlagUpdateErrorFrom(e)), m)
    case Ok(s) =>
      var e := m[s.table][s.index];
      if e.IsUnused() then (Err(FlagUpdateError.PageNotMapped), m)
      else
        WriteSlot(m, s.table, s.index, e.SetFlags(flags));
        (Ok(NewFlush(v)), m[s.table := m[s.table][s.index := e.SetFlags(flags)]])
  }

  // ---------------------------------------------------------------------
  // create_next_table and map_to

  /** What one call of create_next_table leaves behind: its result, the
      memory and the frames still in the allocator. */
  datatype Step = Step(result: Result<PhysFrame, MapToError>, m: Memory, pool: seq<PhysFrame>)

  /** create_next_table can follow slot `i` of `t`: it is unused, a block,
      or a table descriptor into memory (otherwise the source dereferences
      an unmapped virtual address). */
  predicate NextDefined(m: Memory, t: PhysFrame, i: Idx)
    requires t in m && WellFormed(m)
  {
    m[t][i].IsUnused() || m[t][i].IsBlock() || (Descend(m, t, i).Some? && Descend(m, t, i).value in m)
  }

  /** The flags a freshly installed table descriptor reads back with are
      meant to make it a valid table descriptor. */
  predicate ResolvableFlags(installed: PageTableFlags) {
    Contains(installed, VALID) || !Contains(installed, TABLE_OR_PAGE)
  }

  /** create_next_table for slot `i` of table `t`, installing fresh tables
      with the flags `installed`: an unused slot takes the allocator's next
      frame (FrameAllocationFailed if there is none), written with
      `installed` and the Normal memory attribute; a slot that then reads
      as a block gives ParentEntryHugePage; otherwise the table it
      references is returned, zeroed first if it was just allocated. */
  function NextTableWith(installed: PageTableFlags, m: Memory, pool: seq<PhysFrame>, t: PhysFrame, i: Idx): (s: Step)
    requires ResolvableFlags(installed)
    requires WellFormed(m) && t in m && NextDefined(m, t, i)
    ensures s.result == Err(MapToError.FrameAllocationFailed) <==> m[t][i].IsUnused() && pool == []
    ensures !m[t][i].IsUnused() || pool == [] ==> s.m == m && s.pool == pool
    ensures m[t][i].IsUnused() && pool != [] ==> s.pool == pool[1..]
    ensures s.result.Err? ==> s.result.error != MapToError.PageAlreadyMapped
  {
    var e := m[t][i];
    if e.IsUnused() then
      if pool == [] then Step(Err(MapToError.FrameAllocationFailed), m, pool)
      else
        var f := pool[0];
        var installedEntry := e.SetAddr(f.start, installed, MairNormal.AttrValue());
        var m1 := m[t := m[t][i := installedEntry]];
        if installedEntry.IsBlock() then Step(Err(MapToError.ParentEntryHugePage), m1, pool[1..])
        else Step(Ok(f), m1[f := UnusedTable()], pool[1..])
    else if e.IsBlock() then Step(Err(MapToError.ParentEntryHugePage), m, pool)
    else Step(Ok(Descend(m, t, i).value), m, pool)
  }

  /** The flags create_next_table gives a new table descriptor:
      default_table(), valid and of table type. */
  function NextTableFlags(): (f: PageTableFlags)
    ensures Contains(f, VALID) && Contains(f, TABLE_OR_PAGE)
  {
    DefaultTable()
  }

  /** create_next_table as it is meant to work: new descriptors carry
      NextTableFlags. */
  function NextTable(m: Memory, pool: seq<PhysFrame>, t: PhysFrame, i: Idx): (s: Step)
    requires WellFormed(m) && t in m && NextDefined(m, t, i)
    ensures s.result == Err(MapToError.ParentEntryHugePage) <==> !m[t][i].IsUnused() && m[t][i].IsBlock()
  {
    if m[t][i].IsUnused() && pool != [] then
      InstalledTableEntry(m[t][i], pool[0]);
      NextTableWith(NextTableFlags(), m, pool, t, i)
    else NextTableWith(NextTableFlags(), m, pool, t, i)
  }

  /** create_next_table as written: new descriptors carry
      PageTableFlags::default(), the empty set. */
  function NextTableAsWritten(m: Memory, pool: seq<PhysFrame>, t: PhysFrame, i: Idx): Step
    requires WellFormed(m) && t in m && NextDefined(m, t, i)
  {
    NextTableWith(DefaultFlags(), m, pool, t, i)
  }

  /** As written, create_next_table never creates a table: the empty flags
      lack TABLE_OR_PAGE (the debug assertion of set_frame fails on them),
      so the descriptor it has just installed reads as a block. The
      allocated frame is consumed and the slot is no longer unused, so
      every later map_to through it fails the same way. */
  lemma NextTableAsWrittenFails(m: Memory, pool: seq<PhysFrame>, t: PhysFrame, i: Idx)
    requires WellFormed(m) && t in m && m[t][i].IsUnused() && pool != []
    ensures !Contains(DefaultFlags(), TABLE_OR_PAGE)
    ensures NextTableAsWritten(m, pool, t, i).result == Err(MapToError.ParentEntryHugePage)
    ensures NextTableAsWritten(m, pool, t, i).pool == pool[1..]
    ensures !NextTableAsWritten(m, pool, t, i).m[t][i].IsUnused()
    ensures NextTableAsWritten(m, pool, t, i).m[t][i].IsBlock()
    ensures NextTable(m, pool, t, i).result == Ok(pool[0])
  {
    var f := pool[0];
    var e := m[t][i].SetAddr(f.start, DefaultFlags(), MairNormal.AttrValue());
    AttrValues();
    assert e.entry == f.start | 0x300;
    assert e.entry != 0;
    var c := m[t][i].SetAddr(f.start, NextTableFlags(), MairNormal.AttrValue());
    assert c.Flags() == NextTableFlags();
  }

  /** The allocator's frames are fresh and the table `t` is not one of them. */
  predicate StepReady(m: Memory, pool: seq<PhysFrame>, t: PhysFrame) {
    WellFormed(m) && t in m && PoolFresh(m, pool) && t !in pool
  }

  /** Entries that hold something and lie outside the allocator's frames
      are the same in `m'` as in `m`. */
  predicate KeepsUsed(m: Memory, pool: seq<PhysFrame>, m': Memory) {
    && m'.Keys == m.Keys
    && (forall t | t in m && t !in pool :: |m'[t]| == |m[t]|)
    && (forall t, i | t in m && t !in pool && 0 <= i < |m[t]| && !m[t][i].IsUnused() :: m'[t][i] == m[t][i])
  }

  /** create_next_table on an unused slot with a frame left installs a
      descriptor for a new, empty table in the allocator's first frame and
      returns that frame. */
  lemma NextTableCreates(m: Memory, pool: seq<PhysFrame>, t: PhysFrame, i: Idx)
    requires WellFormed(m) && t in m && m[t][i].IsUnused() && pool != []
    ensures var s := NextTable(m, pool, t, i);
      && s.result == Ok(pool[0]) && s.pool == pool[1..]
      && WellFormed(s.m) && s.m[pool[0]] == UnusedTable()
  {
    InstalledTableEntry(m[t][i], pool[0]);
  }

  /** create_next_table on an unused slot with no frame left fails with
      FrameAllocationFailed and changes nothing; on a used slot it takes no
      frame and changes nothing, and fails with ParentEntryHugePage exactly
      when the slot is a block. */
  lemma NextTableLeavesAlone(m: Memory, pool: seq<PhysFrame>, t: PhysFrame, i: Idx)
    requires WellFormed(m) && t in m && NextDefined(m, t, i)
    ensures m[t][i].IsUnused() && pool == [] ==>
              NextTable(m, pool, t, i) == Step(Err(MapToError.FrameAllocationFailed), m, pool)
    ensures !m[t][i].IsUnused() ==>
              && NextTable(m, pool, t, i).m == m && NextTable(m, pool, t, i).pool == pool
              && (NextTable(m, pool, t, i).result == Err(MapToError.ParentEntryHugePage) <==> m[t][i].IsBlock())
  {
  }

  /** The descriptor create_next_table is meant to install for a new table
      is a valid table descriptor for it. */
  lemma InstalledTableEntry(e: PageTableEntry, f: PhysFrame)
    ensures var ne := e.SetAddr(f.start, NextTableFlags(), MairNormal.AttrValue());
      ne.Frame() == Ok(f) && !ne.IsBlock() && !ne.IsUnused()
  {
    var ne := e.SetAddr(f.start, NextTableFlags(), MairNormal.AttrValue());
    assert ne.Flags() == NextTableFlags() && ne.Addr() == f.start;
  }

  /** One step of map_to changes no entry that held something, and takes
      the frames it leaves in the allocator from those it had. */
  lemma NextTableKeeps(m: Memory, pool: seq<PhysFrame>, t: PhysFrame, i: Idx)
    requires StepReady(m, pool, t) && NextDefined(m, t, i)
    ensures var s := NextTable(m, pool, t, i);
      && KeepsUsed(m, pool, s.m) && WellFormed(s.m)
      && (forall u | u in s.pool :: u in pool)
  {
    var e := m[t][i];
    if e.IsUnused() && pool != [] {
      InstalledTableEntry(e, pool[0]);
      InstallFresh(m, pool, t, i, e.SetAddr(pool[0].start, NextTableFlags(), MairNormal.AttrValue()));
    }
  }

  /** One step of map_to keeps the allocator's frames fresh; when it
      succeeds the slot it followed references the table it returns, which
      the allocator does not hold. */
  lemma NextTableFresh(m: Memory, pool: seq<PhysFrame>, t: PhysFrame, i: Idx)
    requires StepReady(m, pool, t) && NextDefined(m, t, i)
    ensures var s := NextTable(m, pool, t, i);
      && PoolFresh(s.m, s.pool)
      && (s.result.Ok? ==> s.m[t][i].Frame() == Ok(s.result.value) && StepReady(s.m, s.pool, s.result.value)
                           && t in s.m && t !in s.pool)
  {
    var e := m[t][i];
    if e.IsUnused() && pool != [] {
      InstalledTableEntry(e, pool[0]);
      InstallFresh(m, pool, t, i, e.SetAddr(pool[0].start, NextTableFlags(), MairNormal.AttrValue()));
    } else if !e.IsUnused() && !e.IsBlock() {
      var n := Descend(m, t, i).value;
      assert n !in pool by {
        forall k | 0 <= k < |pool| ensures pool[k] != n {
          assert Unreferenced(m, pool[k]);
          assert m[t][i].Frame() == Ok(n);
        }
      }
    }
  }

  /** Installing a descriptor for the allocator's first frame in an unused
      slot and emptying that frame keeps the rest of the allocator fresh
      and every entry that held something. */
  lemma InstallFresh(m: Memory, pool: seq<PhysFrame>, t: PhysFrame, i: Idx, ne: PageTableEntry)
    requires StepReady(m, pool, t) && pool != [] && m[t][i].IsUnused() && ne.Frame() == Ok(pool[0])
    ensures var m2 := m[t := m[t][i := ne]][pool[0] := UnusedTable()];
      && PoolFresh(m2, pool[1..]) && KeepsUsed(m, pool, m2)
      && StepReady(m2, pool[1..], pool[0]) && m2[t][i] == ne
      && (forall u | u in pool[1..] :: u in pool)
  {
    var m2 := m[t := m[t][i := ne]][pool[0] := UnusedTable()];
    assert pool[0] != t;
    TailDistinct(pool);
    forall k | 0 <= k < |pool[1..]| ensures pool[1..][k] in m2 && Unreferenced(m2, pool[1..][k]) {
      InstallUnreferenced(m, pool, t, i, ne, pool[1..][k]);
    }
    InstallKeepsUsed(m, pool, t, i, ne);
  }

  /** The tail of a sequence without repetitions has none either, does not
      hold the head, and holds nothing the sequence does not. */
  lemma TailDistinct(pool: seq<PhysFrame>)
    requires pool != [] && forall j, k | 0 <= j < k < |pool| :: pool[j] != pool[k]
    ensures forall j, k | 0 <= j < k < |pool[1..]| :: pool[1..][j] != pool[1..][k]
    ensures pool[0] !in pool[1..] && forall u | u in pool[1..] :: u in pool
  {
    forall j, k | 0 <= j < k < |pool[1..]| ensures pool[1..][j] != pool[1..][k] {
      assert pool[1..][j] == pool[j + 1] && pool[1..][k] == pool[k + 1];
    }
    forall k | 0 <= k < |pool[1..]| ensures pool[1..][k] != pool[0] {
      assert pool[1..][k] == pool[k + 1];
    }
  }

  /** Installing in an unused slot of `t` and emptying the allocator's first
      frame keeps every used entry outside the allocator. */
  lemma InstallKeepsUsed(m: Memory, pool: seq<PhysFrame>, t: PhysFrame, i: Idx, ne: PageTableEntry)
    requires StepReady(m, pool, t) && pool != [] && m[t][i].IsUnused()
    ensures KeepsUsed(m, pool, m[t := m[t][i := ne]][pool[0] := UnusedTable()])
  {
  }

  /** A frame the allocator still holds after the first stays unreferenced
      when the first is installed and emptied. */
  lemma InstallUnreferenced(m: Memory, pool: seq<PhysFrame>, t: PhysFrame, i: Idx, ne: PageTableEntry, g: PhysFrame)
    requires StepReady(m, pool, t) && pool != [] && m[t][i].IsUnused() && ne.Frame() == Ok(pool[0])
    requires g in pool[1..]
    ensures Unreferenced(m[t := m[t][i := ne]][pool[0] := UnusedTable()], g)
  {
    var m2: Memory := m[t := m[t][i := ne]][pool[0] := UnusedTable()];
    var k: int :| 0 <= k < |pool[1..]| && pool[1..][k] == g;
    assert pool[k + 1] == g && g != pool[0];
    assert Unreferenced(m, g);
    forall u: PhysFrame, j: int | u in m2 && 0 <= j < |m2[u]| ensures m2[u][j].Frame() != Ok(g) {
      if u != pool[0] && !(u == t && j == i as int) {
        assert m2[u][j] == m[u][j];
      }
    }
  }

  /** The level 4 table is referenced by its own recursive slot, so the
      allocator cannot hold it. */
  lemma RootNotInPool(m: Memory, pool: seq<PhysFrame>, root: PhysFrame, r: Idx)
    requires RecursiveSlot(m, root, r) && PoolFresh(m, pool)
    ensures root !in pool
  {
    assert m[root][r as int].Frame() == Ok(root);
    assert !Unreferenced(m, root);
  }

  /** Installing a fresh table under an unused slot and zeroing the table
      cannot redirect a walk that avoids the fresh table. */
  lemma InstallKeepsWalk(m: Memory, s: PhysFrame, path: seq<Idx>, t: PhysFrame, i: Idx, f: PhysFrame, ne: PageTableEntry)
    requires t in m && f in m && f != t && f != s && Unreferenced(m, f)
    requires i as int < |m[t]| && m[t][i].IsUnused() && Walk(m, s, path).Some?
    ensures Walk(m[t := m[t][i := ne]][f := UnusedTable()], s, path) == Walk(m, s, path)
  {
    var mz := m[f := UnusedTable()];
    WalkReplaceUnreferenced(m, f, UnusedTable(), s, path);
    assert m[t := m[t][i := ne]][f := UnusedTable()] == mz[t := mz[t][i := ne]];
    WalkWriteUnused(mz, t, i, ne, s, path);
  }

  /** Installing a fresh table under an unused slot and zeroing the table
      leaves the recursive slot alone. */
  lemma InstallKeepsRecursive(m: Memory, root: PhysFrame, r: Idx, t: PhysFrame, i: Idx, f: PhysFrame, ne: PageTableEntry)
    requires t in m && i as int < |m[t]| && m[t][i].IsUnused() && Unreferenced(m, f)
    requires RecursiveSlot(m, root, r)
    ensures RecursiveSlot(m[t := m[t][i := ne]][f := UnusedTable()], root, r)
  {
    assert m[root][r as int].Frame() == Ok(root);
    assert root != f;
  }

  /** After installing `f` under slot `i` of `t`, the walk that reached `t`
      goes on to `f`. */
  lemma InstallReaches(m: Memory, root: PhysFrame, prefix: seq<Idx>, t: PhysFrame, i: Idx, f: PhysFrame, ne: PageTableEntry)
    requires t in m && i as int < |m[t]| && f != t && ne.Frame() == Ok(f)
    requires Walk(m[t := m[t][i := ne]][f := UnusedTable()], root, prefix) == Some(t)
    ensures Walk(m[t := m[t][i := ne]][f := UnusedTable()], root, prefix + [i]) == Some(f)
  {
    WalkSnoc(m[t := m[t][i := ne]][f := UnusedTable()], root, prefix, i);
  }

  /** Installing a fresh table under an unused slot the table walk reaches keeps
      the recursive slot and that walk, and makes the walk one index further
      arrive at the new table. */
  lemma InstallWalks(m: Memory, root: PhysFrame, r: Idx, prefix: seq<Idx>, t: PhysFrame, i: Idx, f: PhysFrame, ne: PageTableEntry)
    requires t in m && i as int < |m[t]| && f in m && f != t && Unreferenced(m, f)
    requires m[t][i].IsUnused() && ne.Frame() == Ok(f)
    requires RecursiveSlot(m, root, r) && Walk(m, root, prefix) == Some(t)
    ensures var m2 := m[t := m[t][i := ne]][f := UnusedTable()];
      && RecursiveSlot(m2, root, r) && Walk(m2, root, prefix) == Some(t)
      && Walk(m2, root, prefix + [i]) == Some(f)
  {
    InstallKeepsRecursive(m, root, r, t, i, f, ne);
    assert root != f by {
      assert m[root][r as int].Frame() == Ok(root);
    }
    InstallKeepsWalk(m, root, prefix, t, i, f, ne);
    InstallReaches(m, root, prefix, t, i, f, ne);
  }

  /** create_next_table on an unused slot with a frame to spare installs
      that frame as a table descriptor and zeroes it. */
  lemma NextTableInstalls(m: Memory, pool: seq<PhysFrame>, t: PhysFrame, i: Idx)
    requires WellFormed(m) && t in m && m[t][i].IsUnused() && pool != []
    ensures var ne := m[t][i].SetFrame(pool[0], NextTableFlags(), MairNormal.AttrValue());
      NextTable(m, pool, t, i) == Step(Ok(pool[0]), m[t := m[t][i := ne]][pool[0] := UnusedTable()], pool[1..])
  {
    InstalledTableEntry(m[t][i], pool[0]);
  }

  /** create_next_table on a slot that references a table returns that
      table and changes nothing. */
  lemma NextTableExisting(m: Memory, pool: seq<PhysFrame>, t: PhysFrame, i: Idx)
    requires WellFormed(m) && t in m && NextDefined(m, t, i)
    requires !m[t][i].IsUnused() && !m[t][i].IsBlock()
    ensures Descend(m, t, i).Some? && NextTable(m, pool, t, i) == Step(Ok(Descend(m, t, i).value), m, pool)
  {
  }

  /** The table page one index past a walk that reaches `t` resolves to the
      table slot `i` of `t` references. */
  lemma TablePageNext(m: Memory, root: PhysFrame, r: Idx, prefix: seq<Idx>, t: PhysFrame, i: Idx)
    requires RecursiveSlot(m, root, r) && |prefix| <= 2 && Walk(m, root, prefix) == Some(t)
    ensures Resolve(m, root, TablePage(r, prefix + [i])) == Descend(m, t, i)
  {
    WalkSnoc(m, root, prefix, i);
    TablePageResolves(m, root, r, prefix + [i]);
  }

  /** create_next_table past its first half: `m1` is memory after the
      slot was filled (when `created`) or left alone, and the slot is not a
      block. The table page one index further then resolves to the table
      create_next_table returns, and zeroing it when it was just allocated
      completes the step. */
  lemma CreateStep(m: Memory, pool: seq<PhysFrame>, root: PhysFrame, r: Idx, prefix: seq<Idx>,
                   t: PhysFrame, i: Idx, m1: Memory, created: bool)
    requires RecursiveSlot(m, root, r) && |prefix| <= 2 && Walk(m, root, prefix) == Some(t)
    requires WellFormed(m) && t in m && NextDefined(m, t, i)
    requires created ==>
               && m[t][i].IsUnused() && pool != [] && pool[0] in m
               && m1 == m[t := m[t][i := m[t][i].SetFrame(pool[0], NextTableFlags(), MairNormal.AttrValue())]]
    requires !created ==> m1 == m && !m[t][i].IsUnused()
    requires !m1[t][i].IsBlock()
    ensures Resolve(m1, root, TablePage(r, prefix + [i])).Some?
    ensures var next := Resolve(m1, root, TablePage(r, prefix + [i])).value;
      && next in m1
      && NextTable(m, pool, t, i) ==
         Step(Ok(next), if created then m1[next := UnusedTable()] else m1, if created then pool[1..] else pool)
  {
    if created {
      var ne := m[t][i].SetFrame(pool[0], NextTableFlags(), MairNormal.AttrValue());
      InstalledTableEntry(m[t][i], pool[0]);
      WriteUnusedKeepsWalk(m, root, r, prefix, t, i, ne);
      NextTableInstalls(m, pool, t, i);
      TablePageNext(m1, root, r, prefix, t, i);
    } else {
      NextTableExisting(m, pool, t, i);
      TablePageNext(m, root, r, prefix, t, i);
    }
  }

  /** Writing an unused slot keeps the recursive slot and every walk. */
  lemma WriteUnusedKeepsWalk(m: Memory, root: PhysFrame, r: Idx, prefix: seq<Idx>, t: PhysFrame, i: Idx, e: PageTableEntry)
    requires t in m && i as int < |m[t]| && m[t][i].IsUnused()
    requires RecursiveSlot(m, root, r) && Walk(m, root, prefix).Some?
    ensures RecursiveSlot(m[t := m[t][i := e]], root, r)
    ensures Walk(m[t := m[t][i := e]], root, prefix) == Walk(m, root, prefix)
  {
    assert m[root][r as int].Frame() == Ok(root);
    WalkWriteUnused(m, t, i, e, root, prefix);
  }

  /** One step of map_to from a table the table walk reaches at `prefix` keeps the
      recursive slot and that walk, and on success the table walk reaches the
      returned table one index further. */
  lemma NextTableWalks(m: Memory, pool: seq<PhysFrame>, root: PhysFrame, r: Idx, prefix: seq<Idx>, t: PhysFrame, i: Idx)
    requires StepReady(m, pool, t) && NextDefined(m, t, i)
    requires RecursiveSlot(m, root, r) && Walk(m, root, prefix) == Some(t)
    ensures var s := NextTable(m, pool, t, i);
      && RecursiveSlot(s.m, root, r) && Walk(s.m, root, prefix) == Some(t)
      && (s.result.Ok? ==> Walk(s.m, root, prefix + [i]) == Some(s.result.value))
  {
    if m[t][i].IsUnused() && pool != [] {
      var f := pool[0];
      var ne := m[t][i].SetAddr(f.start, NextTableFlags(), MairNormal.AttrValue());
      InstalledTableEntry(m[t][i], f);
      assert f in m && Unreferenced(m, f);
      InstallWalks(m, root, r, prefix, t, i, f, ne);
    } else {
      WalkSnoc(m, root, prefix, i);
    }
  }

  /** map_to can follow its upper path from `t`: each entry it reaches is
      unused, a block, or a table descriptor into memory. */
  predicate MapDefined(m: Memory, t: PhysFrame, upper: seq<Idx>)
    decreases |upper|
  {
    && t in m && WellFormed(m)
    && (upper != [] ==>
          NextDefined(m, t, upper[0]) &&
          (Descend(m, t, upper[0]).Some? ==> MapDefined(m, Descend(m, t, upper[0]).value, upper[1..])))
  }

  /** An empty table can be followed along any path. */
  lemma EmptyMapDefined(m: Memory, t: PhysFrame, upper: seq<Idx>)
    requires WellFormed(m) && t in m && m[t] == UnusedTable()
    ensures MapDefined(m, t, upper)
  {
    if upper != [] {
      assert m[t][upper[0]].IsUnused();
    }
  }

  /** After a successful step, whatever flags new tables get, map_to can
      follow the rest of its path from the table the step returned. */
  lemma NextTableWithContinues(installed: PageTableFlags, m: Memory, pool: seq<PhysFrame>, t: PhysFrame, upper: seq<Idx>)
    requires ResolvableFlags(installed) && MapDefined(m, t, upper) && upper != []
    ensures var s := NextTableWith(installed, m, pool, t, upper[0]);
      s.result.Ok? ==> MapDefined(s.m, s.result.value, upper[1..])
  {
    var s := NextTableWith(installed, m, pool, t, upper[0]);
    if s.result.Ok? && m[t][upper[0]].IsUnused() {
      assert s.m[pool[0]] == UnusedTable() && WellFormed(s.m);
      EmptyMapDefined(s.m, s.result.value, upper[1..]);
    }
  }

  /** After a successful step map_to can follow the rest of its path from
      the table the step returned. */
  lemma NextTableContinues(m: Memory, pool: seq<PhysFrame>, t: PhysFrame, upper: seq<Idx>)
    requires MapDefined(m, t, upper) && upper != []
    ensures var s := NextTable(m, pool, t, upper[0]);
      s.result.Ok? ==> MapDefined(s.m, s.result.value, upper[1..])
  {
    NextTableWithContinues(NextTableFlags(), m, pool, t, upper);
  }

  /** What map_to leaves behind: its result, the memory and the frames
      still in the allocator. */
  datatype Outcome = Outcome(result: Result<MapperFlush, MapToError>, m: Memory, pool: seq<PhysFrame>)

  /** map_to from table `t`, with new tables installed with the flags
      `installed`: create_next_table along `upper`, stopping at its first
      error; then PageAlreadyMapped if slot `leaf` of the last table holds
      something, else the slot is set to `frame` with `flags` and `attr`. */
  function MapPathWith(installed: PageTableFlags, m: Memory, pool: seq<PhysFrame>, t: PhysFrame, upper: seq<Idx>,
                       leaf: Idx, v: Page, frame: PhysFrame, flags: PageTableFlags, attr: PageTableAttribute): Outcome
    requires ResolvableFlags(installed)
    requires MapDefined(m, t, upper) && Contains(flags, TABLE_OR_PAGE)
    decreases |upper|
  {
    if upper == [] then
      if !m[t][leaf].IsUnused() then Outcome(Err(MapToError.PageAlreadyMapped), m, pool)
      else Outcome(Ok(NewFlush(v)), m[t := m[t][leaf := m[t][leaf].SetFrame(frame, flags, attr)]], pool)
    else
      NextTableWithContinues(installed, m, pool, t, upper);
      var s := NextTableWith(installed, m, pool, t, upper[0]);
      if s.result.Err? then Outcome(Err(s.result.error), s.m, s.pool)
      else MapPathWith(installed, s.m, s.pool, s.result.value, upper[1..], leaf, v, frame, flags, attr)
  }

  /** map_to from table `t` as it is meant to work: new tables are
      installed with NextTableFlags. */
  function MapPath(m: Memory, pool: seq<PhysFrame>, t: PhysFrame, upper: seq<Idx>, leaf: Idx,
                   v: Page, frame: PhysFrame, flags: PageTableFlags, attr: PageTableAttribute): Outcome
    requires MapDefined(m, t, upper) && Contains(flags, TABLE_OR_PAGE)
  {
    MapPathWith(NextTableFlags(), m, pool, t, upper, leaf, v, frame, flags, attr)
  }

  /** map_to for a 4 KiB page through the recursive mapping. */
  function MapToSpec(m: Memory, pool: seq<PhysFrame>, root: PhysFrame, v: Page,
                     frame: PhysFrame, flags: PageTableFlags, attr: PageTableAttribute): Outcome
    requires MapDefined(m, root, [v.p4, v.p3, v.p2]) && Contains(flags, TABLE_OR_PAGE)
  {
    MapPath(m, pool, root, [v.p4, v.p3, v.p2], v.p1, v, frame, flags, attr)
  }

  /** One level of map_to from a table the table walk reaches at `prefix`: on
      success everything the next level needs holds again one index further,
      and map_to goes on from the returned table. */
  lemma MapToStep(m: Memory, pool: seq<PhysFrame>, root: PhysFrame, r: Idx, prefix: seq<Idx>, t: PhysFrame,
                  upper: seq<Idx>, leaf: Idx, v: Page, frame: PhysFrame, flags: PageTableFlags, attr: PageTableAttribute)
    requires StepReady(m, pool, t) && RecursiveSlot(m, root, r) && Walk(m, root, prefix) == Some(t)
    requires MapDefined(m, t, upper) && upper != [] && Contains(flags, TABLE_OR_PAGE)
    ensures var s := NextTable(m, pool, t, upper[0]);
      && (s.result.Ok? ==>
            && StepReady(s.m, s.pool, s.result.value) && RecursiveSlot(s.m, root, r)
            && Walk(s.m, root, prefix + [upper[0]]) == Some(s.result.value)
            && MapDefined(s.m, s.result.value, upper[1..]))
      && MapPath(m, pool, t, upper, leaf, v, frame, flags, attr) ==
           (if s.result.Err? then Outcome(Err(s.result.error), s.m, s.pool)
            else MapPath(s.m, s.pool, s.result.value, upper[1..], leaf, v, frame, flags, attr))
  {
    NextTableWalks(m, pool, root, r, prefix, t, upper[0]);
    NextTableFresh(m, pool, t, upper[0]);
    NextTableContinues(m, pool, t, upper);
  }

  /** The frames a fresh allocator holds are tables of memory. */
  lemma PoolInMemory(m: Memory, pool: seq<PhysFrame>)
    requires PoolFresh(m, pool)
    ensures forall f | f in pool :: f in m
  {
    forall f | f in pool
      ensures f in m
    {
      var k :| 0 <= k < |pool| && pool[k] == f;
    }
  }

  /** map_to fails for lack of frames only when the allocator ends up
      empty. */
  lemma {:induction false} MapPathOutOfFrames(m: Memory, pool: seq<PhysFrame>, t: PhysFrame, upper: seq<Idx>, leaf: Idx,
                                              v: Page, frame: PhysFrame, flags: PageTableFlags, attr: PageTableAttribute)
    requires MapDefined(m, t, upper) && Contains(flags, TABLE_OR_PAGE)
    ensures var o := MapPath(m, pool, t, upper, leaf, v, frame, flags, attr);
      o.result == Err(MapToError.FrameAllocationFailed) ==> o.pool == []
    decreases |upper|
  {
    if upper != [] {
      NextTablePool(m, pool, t, upper[0]);
      NextTableContinues(m, pool, t, upper);
      var s := NextTable(m, pool, t, upper[0]);
      if s.result.Ok? {
        var rest := MapPath(s.m, s.pool, s.result.value, upper[1..], leaf, v, frame, flags, attr);
        assert MapPath(m, pool, t, upper, leaf, v, frame, flags, attr) == rest;
        MapPathOutOfFrames(s.m, s.pool, s.result.value, upper[1..], leaf, v, frame, flags, attr);
      } else {
        assert MapPath(m, pool, t, upper, leaf, v, frame, flags, attr) == Outcome(Err(s.result.error), s.m, s.pool);
      }
    }
  }

  /** map_to consumes at most one frame per upper level (at most three for
      a 4 KiB page), taken from the front of the allocator. */
  lemma {:induction false} MapPathPool(m: Memory, pool: seq<PhysFrame>, t: PhysFrame, upper: seq<Idx>, leaf: Idx,
                                       v: Page, frame: PhysFrame, flags: PageTableFlags, attr: PageTableAttribute)
    requires MapDefined(m, t, upper) && Contains(flags, TABLE_OR_PAGE)
    ensures TakesFront(pool, MapPath(m, pool, t, upper, leaf, v, frame, flags, attr).pool, |upper|)
    decreases |upper|
  {
    if upper == [] {
      TakesFrontNone(pool);
    } else {
      var s := NextTable(m, pool, t, upper[0]);
      NextTablePool(m, pool, t, upper[0]);
      NextTableContinues(m, pool, t, upper);
      if s.result.Ok? {
        var rest := MapPath(s.m, s.pool, s.result.value, upper[1..], leaf, v, frame, flags, attr);
        assert MapPath(m, pool, t, upper, leaf, v, frame, flags, attr) == rest;
        MapPathPool(s.m, s.pool, s.result.value, upper[1..], leaf, v, frame, flags, attr);
        TakesFrontTrans(pool, s.pool, rest.pool, |upper| - 1);
      } else {
        assert MapPath(m, pool, t, upper, leaf, v, frame, flags, attr).pool == s.pool;
        TakesFrontMore(pool, s.pool, |upper|);
      }
    }
  }

  lemma TakesFrontMore(pool: seq<PhysFrame>, q: seq<PhysFrame>, k: nat)
    requires TakesFront(pool, q, 1) && k >= 1
    ensures TakesFront(pool, q, k)
  {
  }

  /** The token a successful map_to returns is for the page asked for. */
  lemma {:induction false} MapPathToken(m: Memory, pool: seq<PhysFrame>, t: PhysFrame, upper: seq<Idx>, leaf: Idx,
                                        v: Page, frame: PhysFrame, flags: PageTableFlags, attr: PageTableAttribute)
    requires MapDefined(m, t, upper) && Contains(flags, TABLE_OR_PAGE)
    ensures var o := MapPath(m, pool, t, upper, leaf, v, frame, flags, attr);
      o.result.Ok? ==> o.result.value == NewFlush(v)
    decreases |upper|
  {
    if upper != [] {
      NextTableContinues(m, pool, t, upper);
      var s := NextTable(m, pool, t, upper[0]);
      if s.result.Ok? {
        MapPathToken(s.m, s.pool, s.result.value, upper[1..], leaf, v, frame, flags, attr);
      }
    }
  }

  /** `q` is what is left of `pool` after at most `k` frames were taken
      from its front. */
  predicate TakesFront(pool: seq<PhysFrame>, q: seq<PhysFrame>, k: nat) {
    |pool| - k <= |q| <= |pool| && q == pool[|pool| - |q|..]
  }

  lemma TakesFrontNone(pool: seq<PhysFrame>)
    ensures TakesFront(pool, pool, 0)
  {
    assert pool[|pool| - |pool|..] == pool;
  }

  lemma TakesFrontTrans(pool: seq<PhysFrame>, q1: seq<PhysFrame>, q2: seq<PhysFrame>, k: nat)
    requires TakesFront(pool, q1, 1) && TakesFront(q1, q2, k)
    ensures TakesFront(pool, q2, k + 1)
  {
    if q1 != pool {
      assert q1 == pool[1..];
    }
  }

  /** create_next_table takes no frame or the first one, and fails for
      lack of frames only with none left. */
  lemma NextTablePool(m: Memory, pool: seq<PhysFrame>, t: PhysFrame, i: Idx)
    requires WellFormed(m) && t in m && NextDefined(m, t, i)
    ensures var s := NextTable(m, pool, t, i);
      && TakesFront(pool, s.pool, 1)
      && (s.result == Err(MapToError.FrameAllocationFailed) ==> s.pool == [])
  {
    TakesFrontNone(pool);
    if pool != [] {
      assert pool[1..] == pool[|pool| - |pool[1..]|..];
    }
  }

  /** On success map_to leaves the table walk following `upper` from `t` into a table
      whose slot `leaf` is set to `frame` with `flags` and `attr`. */
  lemma {:induction false} MapPathMaps(m: Memory, pool: seq<PhysFrame>, t: PhysFrame, upper: seq<Idx>, leaf: Idx,
                                       v: Page, frame: PhysFrame, flags: PageTableFlags, attr: PageTableAttribute)
    requires StepReady(m, pool, t) && MapDefined(m, t, upper) && Contains(flags, TABLE_OR_PAGE)
    requires MapPath(m, pool, t, upper, leaf, v, frame, flags, attr).result.Ok?
    ensures var o := MapPath(m, pool, t, upper, leaf, v, frame, flags, attr);
      && WellFormed(o.m) && Walk(o.m, t, upper).Some? && Walk(o.m, t, upper).value in o.m
      && o.m[Walk(o.m, t, upper).value][leaf] == PageTableEntry(0).SetFrame(frame, flags, attr)
    decreases |upper|
  {
    var o := MapPath(m, pool, t, upper, leaf, v, frame, flags, attr);
    if upper == [] {
      assert m[t][leaf] == PageTableEntry(0);
    } else {
      NextTableFresh(m, pool, t, upper[0]);
      NextTableContinues(m, pool, t, upper);
      var s := NextTable(m, pool, t, upper[0]);
      var n := s.result.value;
      assert o == MapPath(s.m, s.pool, n, upper[1..], leaf, v, frame, flags, attr);
      MapPathMaps(s.m, s.pool, n, upper[1..], leaf, v, frame, flags, attr);
      MapPathKeeps(s.m, s.pool, n, upper[1..], leaf, v, frame, flags, attr);
      WalkThroughPath(s.m, s.pool, o.m, t, upper);
    }
  }

  /** WalkThrough for the first index of a non-empty path. */
  lemma WalkThroughPath(m1: Memory, pool1: seq<PhysFrame>, m2: Memory, t: PhysFrame, path: seq<Idx>)
    requires path != [] && KeepsUsed(m1, pool1, m2) && t in m1 && t !in pool1
    requires path[0] as int < |m1[t]| && m1[t][path[0]].Frame().Ok?
    ensures Walk(m2, t, path) == Walk(m2, m1[t][path[0]].Frame().value, path[1..])
  {
    WalkThrough(m1, pool1, m2, t, path[0], path[1..]);
    assert path == [path[0]] + path[1..];
  }

  /** A slot that held a table descriptor and survived later changes still
      leads the walk to the table it referenced. */
  lemma WalkThrough(m1: Memory, pool1: seq<PhysFrame>, m2: Memory, t: PhysFrame, i: Idx, rest: seq<Idx>)
    requires KeepsUsed(m1, pool1, m2) && t in m1 && t !in pool1 && i as int < |m1[t]| && m1[t][i].Frame().Ok?
    ensures Walk(m2, t, [i] + rest) == Walk(m2, m1[t][i].Frame().value, rest)
  {
    var q := [i] + rest;
    assert q[0] == i && q[1..] == rest;
    assert m2[t][i] == m1[t][i];
  }

  /** Writing a slot that was unused keeps every entry that held something. */
  lemma WriteUnusedKeeps(m: Memory, pool: seq<PhysFrame>, t: PhysFrame, i: Idx, e: PageTableEntry)
    requires WellFormed(m) && t in m && m[t][i].IsUnused()
    ensures KeepsUsed(m, pool, m[t := m[t][i := e]]) && WellFormed(m[t := m[t][i := e]])
  {
  }

  /** Keeping used entries composes over two steps whose second pool is
      drawn from the first. */
  lemma KeepsUsedTrans(m0: Memory, pool0: seq<PhysFrame>, m1: Memory, pool1: seq<PhysFrame>, m2: Memory)
    requires KeepsUsed(m0, pool0, m1) && KeepsUsed(m1, pool1, m2)
    requires forall u | u in pool1 :: u in pool0
    ensures KeepsUsed(m0, pool0, m2)
  {
  }

  /** map_to changes no entry that held something outside the allocator's
      frames, and keeps every table ENTRY_COUNT entries long. */
  lemma {:induction false} MapPathKeeps(m: Memory, pool: seq<PhysFrame>, t: PhysFrame, upper: seq<Idx>, leaf: Idx,
                                        v: Page, frame: PhysFrame, flags: PageTableFlags, attr: PageTableAttribute)
    requires StepReady(m, pool, t) && MapDefined(m, t, upper) && Contains(flags, TABLE_OR_PAGE)
    ensures var o := MapPath(m, pool, t, upper, leaf, v, frame, flags, attr);
      KeepsUsed(m, pool, o.m) && WellFormed(o.m)
    decreases |upper|
  {
    var o := MapPath(m, pool, t, upper, leaf, v, frame, flags, attr);
    if upper == [] {
      if m[t][leaf].IsUnused() {
        WriteUnusedKeeps(m, pool, t, leaf, m[t][leaf].SetFrame(frame, flags, attr));
      }
    } else {
      NextTableKeeps(m, pool, t, upper[0]);
      NextTableFresh(m, pool, t, upper[0]);
      NextTableContinues(m, pool, t, upper);
      var s := NextTable(m, pool, t, upper[0]);
      if s.result.Ok? {
        var n := s.result.value;
        assert o == MapPath(s.m, s.pool, n, upper[1..], leaf, v, frame, flags, attr);
        MapPathKeeps(s.m, s.pool, n, upper[1..], leaf, v, frame, flags, attr);
        KeepsUsedTrans(m, pool, s.m, s.pool, o.m);
      }
    }
  }

  /** Table `f` is in memory and the walk along some non-empty prefix of
      `upper` from `t` reaches it. */
  predicate Linked(m: Memory, t: PhysFrame, upper: seq<Idx>, f: PhysFrame) {
    f in m && exists k | 1 <= k <= |upper| :: Walk(m, t, upper[..k]) == Some(f)
  }

  /** Every frame map_to took from the allocator, on success and on failure
      alike, holds a table that the walk along a prefix of `upper` reaches:
      tables created before an error stay linked in. */
  lemma {:induction false} MapPathLinks(m: Memory, pool: seq<PhysFrame>, t: PhysFrame, upper: seq<Idx>, leaf: Idx,
                                        v: Page, frame: PhysFrame, flags: PageTableFlags, attr: PageTableAttribute)
    requires StepReady(m, pool, t) && MapDefined(m, t, upper) && Contains(flags, TABLE_OR_PAGE)
    ensures var o := MapPath(m, pool, t, upper, leaf, v, frame, flags, attr);
      && |o.pool| <= |pool|
      && forall j | 0 <= j < |pool| - |o.pool| :: Linked(o.m, t, upper, pool[j])
    decreases |upper|
  {
    var o := MapPath(m, pool, t, upper, leaf, v, frame, flags, attr);
    MapPathPool(m, pool, t, upper, leaf, v, frame, flags, attr);
    if upper != [] {
      NextTableContinues(m, pool, t, upper);
      NextTableLeavesAlone(m, pool, t, upper[0]);
      var s := NextTable(m, pool, t, upper[0]);
      if m[t][upper[0]].IsUnused() && pool != [] {
        NextTableCreates(m, pool, t, upper[0]);
      }
      if s.result.Err? {
        assert o == Outcome(Err(s.result.error), s.m, s.pool);
      } else {
        var n := s.result.value;
        NextTableFresh(m, pool, t, upper[0]);
        assert o == MapPath(s.m, s.pool, n, upper[1..], leaf, v, frame, flags, attr);
        MapPathLinks(s.m, s.pool, n, upper[1..], leaf, v, frame, flags, attr);
        MapPathKeeps(s.m, s.pool, n, upper[1..], leaf, v, frame, flags, attr);
        LinksAfterStep(pool, s, o, t, upper);
      }
    }
  }

  /** The frames one step took are linked in by the slot it followed, the
      rest by the walk beyond it. */
  lemma LinksAfterStep(pool: seq<PhysFrame>, s: Step, o: Outcome, t: PhysFrame, upper: seq<Idx>)
    requires upper != [] && s.result.Ok? && t in s.m && t !in s.pool && s.result.value in s.m
    requires upper[0] as int < |s.m[t]| && s.m[t][upper[0]].Frame() == Ok(s.result.value)
    requires s.pool == pool || (pool != [] && s.pool == pool[1..] && s.result.value == pool[0])
    requires KeepsUsed(s.m, s.pool, o.m) && |o.pool| <= |s.pool|
    requires forall j | 0 <= j < |s.pool| - |o.pool| :: Linked(o.m, s.result.value, upper[1..], s.pool[j])
    ensures forall j | 0 <= j < |pool| - |o.pool| :: Linked(o.m, t, upper, pool[j])
  {
    var n := s.result.value;
    var shift := |pool| - |s.pool|;
    forall j | 0 <= j < |pool| - |o.pool|
      ensures Linked(o.m, t, upper, pool[j])
    {
      if j < shift {
        WalkPrefixThrough(s.m, s.pool, o.m, t, upper, 0);
        assert upper[1..][..0] == [];
        assert Walk(o.m, t, upper[..1]) == Some(pool[j]);
      } else {
        assert pool[j] == s.pool[j - shift];
        assert Linked(o.m, n, upper[1..], s.pool[j - shift]);
        var k :| 1 <= k <= |upper[1..]| && Walk(o.m, n, upper[1..][..k]) == Some(pool[j]);
        WalkPrefixThrough(s.m, s.pool, o.m, t, upper, k);
        assert Walk(o.m, t, upper[..k + 1]) == Some(pool[j]);
      }
    }
  }

  /** Through a surviving table descriptor in slot `upper[0]` of `t`, the
      walk along the first k + 1 indices of `upper` is the walk along the
      next k from the table it references. */
  lemma WalkPrefixThrough(m1: Memory, pool1: seq<PhysFrame>, m2: Memory, t: PhysFrame, upper: seq<Idx>, k: nat)
    requires KeepsUsed(m1, pool1, m2) && t in m1 && t !in pool1 && upper != [] && k < |upper|
    requires upper[0] as int < |m1[t]| && m1[t][upper[0]].Frame().Ok?
    ensures Walk(m2, t, upper[..k + 1]) == Walk(m2, m1[t][upper[0]].Frame().value, upper[1..][..k])
  {
    WalkThrough(m1, pool1, m2, t, upper[0], upper[1..][..k]);
    assert upper[..k + 1] == [upper[0]] + upper[1..][..k];
  }

  /** When the table walk already follows `upper` from `t` to a table, map_to takes
      no frame and changes no table but that one: it maps slot `leaf` if it
      was unused and reports PageAlreadyMapped, changing nothing, if not. */
  lemma {:induction false} MapPathExisting(m: Memory, pool: seq<PhysFrame>, t: PhysFrame, upper: seq<Idx>, leaf: Idx,
                                           v: Page, frame: PhysFrame, flags: PageTableFlags, attr: PageTableAttribute)
    requires MapDefined(m, t, upper) && Contains(flags, TABLE_OR_PAGE)
    requires Walk(m, t, upper).Some?
    ensures var o := MapPath(m, pool, t, upper, leaf, v, frame, flags, attr);
      var u := Walk(m, t, upper).value;
      && u in m
      && o.pool == pool
      && (o.result.Ok? <==> m[u][leaf].IsUnused())
      && (o.result.Err? ==> o.result.error == MapToError.PageAlreadyMapped && o.m == m)
      && (o.result.Ok? ==> o.m == m[u := m[u][leaf := m[u][leaf].SetFrame(frame, flags, attr)]])
    decreases |upper|
  {
    if upper != [] {
      var n := Descend(m, t, upper[0]).value;
      NextTableContinues(m, pool, t, upper);
      MapPathExisting(m, pool, n, upper[1..], leaf, v, frame, flags, attr);
    }
  }

  /** From an empty table map_to needs a frame for every upper level: with
      enough frames it succeeds and takes exactly |upper| of them, with
      fewer it fails with FrameAllocationFailed and takes them all. */
  lemma {:induction false} MapPathEmpty(m: Memory, pool: seq<PhysFrame>, t: PhysFrame, upper: seq<Idx>, leaf: Idx,
                                        v: Page, frame: PhysFrame, flags: PageTableFlags, attr: PageTableAttribute)
    requires WellFormed(m) && t in m && m[t] == UnusedTable() && Contains(flags, TABLE_OR_PAGE)
    ensures MapDefined(m, t, upper)
    ensures var o := MapPath(m, pool, t, upper, leaf, v, frame, flags, attr);
      && (|pool| >= |upper| ==> o.result.Ok? && o.pool == pool[|upper|..])
      && (|pool| < |upper| ==> o.result == Err(MapToError.FrameAllocationFailed) && o.pool == [])
    decreases |upper|
  {
    EmptyMapDefined(m, t, upper);
    if upper == [] {
      assert m[t][leaf].IsUnused();
    } else if pool == [] {
      NextTableContinues(m, pool, t, upper);
      var s := NextTable(m, pool, t, upper[0]);
      assert MapPath(m, pool, t, upper, leaf, v, frame, flags, attr) == Outcome(Err(s.result.error), s.m, s.pool);
    } else {
      var m' := MapPathCreates(m, pool, t, upper, leaf, v, frame, flags, attr);
      MapPathEmpty(m', pool[1..], pool[0], upper[1..], leaf, v, frame, flags, attr);
      if |pool| >= |upper| {
        assert pool[1..][|upper| - 1..] == pool[|upper|..];
      }
    }
  }

  /** From an unused slot with a frame left, map_to creates an empty table
      in the allocator's first frame and goes on from there. */
  lemma MapPathCreates(m: Memory, pool: seq<PhysFrame>, t: PhysFrame, upper: seq<Idx>, leaf: Idx,
                       v: Page, frame: PhysFrame, flags: PageTableFlags, attr: PageTableAttribute) returns (m': Memory)
    requires MapDefined(m, t, upper) && upper != [] && m[t][upper[0]].IsUnused() && pool != []
    requires Contains(flags, TABLE_OR_PAGE)
    ensures WellFormed(m') && pool[0] in m' && m'[pool[0]] == UnusedTable()
    ensures MapDefined(m', pool[0], upper[1..])
    ensures MapPath(m, pool, t, upper, leaf, v, frame, flags, attr) ==
            MapPath(m', pool[1..], pool[0], upper[1..], leaf, v, frame, flags, attr)
  {
    NextTableContinues(m, pool, t, upper);
    NextTableCreates(m, pool, t, upper[0]);
    m' := NextTable(m, pool, t, upper[0]).m;
  }

  /** Some upper entry on the walk is a block (and the entries before it are
      table descriptors). */
  predicate BlockOnPath(m: Memory, t: PhysFrame, upper: seq<Idx>)
    decreases |upper|
  {
    upper != [] && t in m && upper[0] as int < |m[t]| &&
    ((!m[t][upper[0]].IsUnused() && m[t][upper[0]].IsBlock()) ||
     (Descend(m, t, upper[0]).Some? && BlockOnPath(m, Descend(m, t, upper[0]).value, upper[1..])))
  }

  /** map_to reports ParentEntryHugePage exactly when the walk meets a block
      descriptor among the upper entries. */
  lemma {:induction false} MapPathHuge(m: Memory, pool: seq<PhysFrame>, t: PhysFrame, upper: seq<Idx>, leaf: Idx,
                                       v: Page, frame: PhysFrame, flags: PageTableFlags, attr: PageTableAttribute)
    requires MapDefined(m, t, upper) && Contains(flags, TABLE_OR_PAGE)
    ensures MapPath(m, pool, t, upper, leaf, v, frame, flags, attr).result == Err(MapToError.ParentEntryHugePage)
            <==> BlockOnPath(m, t, upper)
    decreases |upper|
  {
    if upper != [] {
      if m[t][upper[0]].IsUnused() && pool != [] {
        NextTableCreates(m, pool, t, upper[0]);
      }
      NextTableContinues(m, pool, t, upper);
      var s := NextTable(m, pool, t, upper[0]);
      var e := m[t][upper[0]];
      if e.IsUnused() {
        assert !BlockOnPath(m, t, upper);
        if pool != [] {
          MapPathEmpty(s.m, s.pool, pool[0], upper[1..], leaf, v, frame, flags, attr);
        }
      } else if !e.IsBlock() {
        MapPathHuge(m, pool, s.result.value, upper[1..], leaf, v, frame, flags, attr);
      }
    }
  }

  /** After a successful map_to of a page through the recursive mapping, the
      table walk translates the page to the frame when `flags` holds VALID, and
      finds an invalid leaf descriptor for it when not. An attribute value
      with bits outside its field adds them to the stored address and flags,
      and the walk reads those. */
  lemma MapToTranslates(m: Memory, pool: seq<PhysFrame>, root: PhysFrame, v: Page,
                        frame: PhysFrame, flags: PageTableFlags, attr: PageTableAttribute)
    requires StepReady(m, pool, root) && MapDefined(m, root, [v.p4, v.p3, v.p2])
    requires Contains(flags, TABLE_OR_PAGE)
    requires MapToSpec(m, pool, root, v, frame, flags, attr).result.Ok?
    ensures var o := MapToSpec(m, pool, root, v, frame, flags, attr);
      && Resolve(o.m, root, v) ==
         (if Contains(flags | (attr.value & ALL_FLAGS), VALID)
          then Some(FrameAt(frame.start | (attr.value & ADDR_MASK))) else None)
      && (InAttrField(attr) ==> Resolve(o.m, root, v) == if Contains(flags, VALID) then Some(frame) else None)
  {
    MapToResolvesLeaf(m, pool, root, v, frame, flags, attr);
    LeafTranslation(frame, flags, attr);
  }

  /** The translation the entry map_to writes gives, as an optional frame. */
  lemma LeafTranslation(frame: PhysFrame, flags: PageTableFlags, attr: PageTableAttribute)
    requires Contains(flags, TABLE_OR_PAGE)
    ensures var e := PageTableEntry(0).SetFrame(frame, flags, attr);
      && (if e.Frame().Ok? then Some(e.Frame().value) else None) ==
         (if Contains(flags | (attr.value & ALL_FLAGS), VALID)
          then Some(FrameAt(frame.start | (attr.value & ADDR_MASK))) else None)
      && (InAttrField(attr) ==>
            (if e.Frame().Ok? then Some(e.Frame().value) else None) ==
            if Contains(flags, VALID) then Some(frame) else None)
  {
    StoredFrame(frame, flags, attr);
  }

  /** After a successful map_to, the walk of the page ends at the entry
      map_to wrote: it translates to the frame that entry yields, if any. */
  lemma MapToResolvesLeaf(m: Memory, pool: seq<PhysFrame>, root: PhysFrame, v: Page,
                          frame: PhysFrame, flags: PageTableFlags, attr: PageTableAttribute)
    requires StepReady(m, pool, root) && MapDefined(m, root, [v.p4, v.p3, v.p2])
    requires Contains(flags, TABLE_OR_PAGE)
    requires MapToSpec(m, pool, root, v, frame, flags, attr).result.Ok?
    ensures var e := PageTableEntry(0).SetFrame(frame, flags, attr);
      Resolve(MapToSpec(m, pool, root, v, frame, flags, attr).m, root, v) ==
      if e.Frame().Ok? then Some(e.Frame().value) else None
  {
    var o := MapToSpec(m, pool, root, v, frame, flags, attr);
    MapPathMaps(m, pool, root, [v.p4, v.p3, v.p2], v.p1, v, frame, flags, attr);
    WalkSnoc(o.m, root, [v.p4, v.p3, v.p2], v.p1);
    IndicesSplit(v);
  }

  /** Where the walk along `upper` reaches a table, get_entry can follow the
      same path and returns slot `leaf` of that table. */
  lemma {:induction false} WalkLookup(m: Memory, t: PhysFrame, upper: seq<Idx>, leaf: Idx)
    requires WellFormed(m) && Walk(m, t, upper).Some? && Walk(m, t, upper).value in m
    ensures LookupDefined(m, t, upper)
    ensures Lookup(m, t, upper, leaf) == Ok(Slot(Walk(m, t, upper).value, leaf))
    decreases |upper|
  {
    if upper != [] {
      var n := Descend(m, t, upper[0]).value;
      assert !m[t][upper[0]].IsUnused();
      WalkLookup(m, n, upper[1..], leaf);
    }
  }

  /** After a successful map_to of a page through the recursive mapping,
      get_entry and translate_page can be called for the page: get_entry
      returns the slot map_to wrote, and translate_page returns the frame
      (whether or not `flags` holds VALID, since translate_page looks only
      at whether the entry is unused). An attribute value with address bits
      outside its field adds them to the frame translate_page returns. */
  lemma MapToGetsEntry(m: Memory, pool: seq<PhysFrame>, root: PhysFrame, v: Page,
                       frame: PhysFrame, flags: PageTableFlags, attr: PageTableAttribute)
    requires StepReady(m, pool, root) && MapDefined(m, root, [v.p4, v.p3, v.p2])
    requires Contains(flags, TABLE_OR_PAGE)
    requires MapToSpec(m, pool, root, v, frame, flags, attr).result.Ok?
    ensures var o := MapToSpec(m, pool, root, v, frame, flags, attr);
      && LookupDefined(o.m, root, [v.p4, v.p3, v.p2])
      && GetEntrySpec(o.m, root, v).Ok?
      && GetEntrySpec(o.m, root, v).value.index == v.p1
      && o.m[GetEntrySpec(o.m, root, v).value.table][v.p1] == PageTableEntry(0).SetFrame(frame, flags, attr)
      && TranslatePageSpec(o.m, root, v) == Ok(SizedFrame(Size4KiB, frame.start | (attr.value & ADDR_MASK)))
      && (InAttrField(attr) ==> TranslatePageSpec(o.m, root, v) == Ok(SizedFrame(Size4KiB, frame.start)))
  {
    var o := MapToSpec(m, pool, root, v, frame, flags, attr);
    MapPathMaps(m, pool, root, [v.p4, v.p3, v.p2], v.p1, v, frame, flags, attr);
    WalkLookup(o.m, root, [v.p4, v.p3, v.p2], v.p1);
    StoredFrame(frame, flags, attr);
  }

  /** map_to leaves the recursive slot of the root as it was. */
  lemma MapToKeepsRecursive(m: Memory, pool: seq<PhysFrame>, root: PhysFrame, r: Idx, v: Page,
                            frame: PhysFrame, flags: PageTableFlags, attr: PageTableAttribute)
    requires StepReady(m, pool, root) && RecursiveSlot(m, root, r) && MapDefined(m, root, [v.p4, v.p3, v.p2])
    requires Contains(flags, TABLE_OR_PAGE)
    ensures RecursiveSlot(MapToSpec(m, pool, root, v, frame, flags, attr).m, root, r)
  {
    MapPathKeeps(m, pool, root, [v.p4, v.p3, v.p2], v.p1, v, frame, flags, attr);
  }

  /** What map_to through the recursive mapping leaves behind: the
      recursive slot intact and, on success, a page that get_entry,
      translate_page and unmap can follow, translate_page finding it mapped
      to the frame. */
  lemma MapToLeaves(m: Memory, pool: seq<PhysFrame>, root: PhysFrame, r: Idx, v: Page,
                    frame: PhysFrame, flags: PageTableFlags, attr: PageTableAttribute)
    requires WellFormed(m) && RecursiveSlot(m, root, r) && PoolFresh(m, pool)
    requires MapDefined(m, root, [v.p4, v.p3, v.p2]) && Contains(flags, TABLE_OR_PAGE)
    ensures var o := MapToSpec(m, pool, root, v, frame, flags, attr);
      && RecursiveSlot(o.m, root, r)
      && (o.result.Ok? ==> LookupDefined(o.m, root, [v.p4, v.p3, v.p2])
                           && PathPresent(o.m, root, [v.p4, v.p3, v.p2])
                           && TranslatePageSpec(o.m, root, v) ==
                              Ok(SizedFrame(Size4KiB, frame.start | (attr.value & ADDR_MASK))))
      && (o.result.Ok? && InAttrField(attr) ==>
            TranslatePageSpec(o.m, root, v) == Ok(SizedFrame(Size4KiB, frame.start)))
  {
    RootNotInPool(m, pool, root, r);
    MapToKeepsRecursive(m, pool, root, r, v, frame, flags, attr);
    if MapToSpec(m, pool, root, v, frame, flags, attr).result.Ok? {
      MapToGetsEntry(m, pool, root, v, frame, flags, attr);
      LookupPresent(MapToSpec(m, pool, root, v, frame, flags, attr).m, root, [v.p4, v.p3, v.p2]);
    }
  }

  /** With the level 4 slot of the page unused, map_to needs three frames:
      with at least three it succeeds and takes exactly the first three,
      with fewer it fails with FrameAllocationFailed having taken them all. */
  lemma MapToFreshSlot(m: Memory, pool: seq<PhysFrame>, root: PhysFrame, v: Page,
                       frame: PhysFrame, flags: PageTableFlags, attr: PageTableAttribute)
    requires WellFormed(m) && root in m && m[root][v.p4].IsUnused() && Contains(flags, TABLE_OR_PAGE)
    ensures MapDefined(m, root, [v.p4, v.p3, v.p2])
    ensures var o := MapToSpec(m, pool, root, v, frame, flags, attr);
      && (|pool| >= 3 ==> o.result.Ok? && o.pool == pool[3..])
      && (|pool| < 3 ==> o.result == Err(MapToError.FrameAllocationFailed) && o.pool == [])
  {
    var upper := [v.p4, v.p3, v.p2];
    assert upper[1..] == [v.p3, v.p2];
    NextTableContinues(m, pool, root, upper);
    var s := NextTable(m, pool, root, v.p4);
    if pool == [] {
      assert MapToSpec(m, pool, root, v, frame, flags, attr) == Outcome(Err(s.result.error), s.m, s.pool);
    } else {
      NextTableCreates(m, pool, root, v.p4);
      MapPathEmpty(s.m, s.pool, pool[0], [v.p3, v.p2], v.p1, v, frame, flags, attr);
      assert MapToSpec(m, pool, root, v, frame, flags, attr) ==
             MapPath(s.m, s.pool, pool[0], [v.p3, v.p2], v.p1, v, frame, flags, attr);
      if |pool| >= 3 {
        assert pool[1..][2..] == pool[3..];
      }
    }
  }

  /** map_to as written: new tables are installed with the empty flags. */
  function MapToAsWritten(m: Memory, pool: seq<PhysFrame>, root: PhysFrame, v: Page,
                          frame: PhysFrame, flags: PageTableFlags, attr: PageTableAttribute): Outcome
    requires MapDefined(m, root, [v.p4, v.p3, v.p2]) && Contains(flags, TABLE_OR_PAGE)
  {
    MapPathWith(DefaultFlags(), m, pool, root, [v.p4, v.p3, v.p2], v.p1, v, frame, flags, attr)
  }

  /** As written, map_to for a page whose level 4 slot is unused fails with
      ParentEntryHugePage whenever the allocator has a frame, uses that
      frame up and leaves a block descriptor in the slot; map_to as meant
      succeeds there when the allocator has three frames. */
  lemma MapToAsWrittenFails(m: Memory, pool: seq<PhysFrame>, root: PhysFrame, v: Page,
                            frame: PhysFrame, flags: PageTableFlags, attr: PageTableAttribute)
    requires WellFormed(m) && root in m && m[root][v.p4].IsUnused() && pool != []
    requires Contains(flags, TABLE_OR_PAGE)
    ensures MapDefined(m, root, [v.p4, v.p3, v.p2])
    ensures var o := MapToAsWritten(m, pool, root, v, frame, flags, attr);
      && o.result == Err(MapToError.ParentEntryHugePage)
      && o.pool == pool[1..]
      && !o.m[root][v.p4].IsUnused() && o.m[root][v.p4].IsBlock()
    ensures |pool| >= 3 ==> MapToSpec(m, pool, root, v, frame, flags, attr).result.Ok?
  {
    MapToFreshSlot(m, pool, root, v, frame, flags, attr);
    NextTableAsWrittenFails(m, pool, root, v.p4);
    NextTableWithContinues(DefaultFlags(), m, pool, root, [v.p4, v.p3, v.p2]);
    var s := NextTableAsWritten(m, pool, root, v.p4);
    assert MapToAsWritten(m, pool, root, v, frame, flags, attr) == Outcome(Err(s.result.error), s.m, s.pool);
  }

  // ---------------------------------------------------------------------
  // unmap

  /** Wherever an entry on the path is a table descriptor, the table it
      references is in memory (unmap dereferences exactly those). */
  predicate PathPresent(m: Memory, t: PhysFrame, upper: seq<Idx>)
    decreases |upper|
  {
    && t in m && WellFormed(m)
    && (upper != [] && Descend(m, t, upper[0]).Some? ==>
          PathPresent(m, Descend(m, t, upper[0]).value, upper[1..]))
  }

  /** The error unmap reports for an entry that has no frame. */
  function UnmapErrorOf(e: FrameError): (r: UnmapError)
    ensures e.FrameNotPresent? <==> r.PageNotMapped?
    ensures e.HugeFrame? <==> r.ParentEntryHugePage?
  {
    match e
    case FrameNotPresent => UnmapError.PageNotMapped
    case HugeFrame => UnmapError.ParentEntryHugePage
  }

  /** unmap's lookup from table `t`: frame() of each upper entry and of
      slot `leaf`, the first error converted; else the leaf's slot. */
  function UnmapLookup(m: Memory, t: PhysFrame, upper: seq<Idx>, leaf: Idx): (r: Result<Slot, UnmapError>)
    requires PathPresent(m, t, upper)
    ensures r.Ok? ==> r.value.table in m && r.value.index == leaf && m[r.value.table][leaf].Frame().Ok?
    decreases |upper|
  {
    if upper == [] then
      match m[t][leaf].Frame()
      case Err(e) => Err(UnmapErrorOf(e))
      case Ok(_) => Ok(Slot(t, leaf))
    else
      match m[t][upper[0]].Frame()
      case Err(e) => Err(UnmapErrorOf(e))
      case Ok(n) => UnmapLookup(m, n, upper[1..], leaf)
  }

  /** unmap succeeds exactly when the table walk of the whole path reaches
      a frame, and then the slot it clears is the one the walk read last;
      it never reports InvalidFrameAddress. */
  lemma {:induction false} UnmapLookupWalks(m: Memory, t: PhysFrame, upper: seq<Idx>, leaf: Idx)
    requires PathPresent(m, t, upper)
    ensures UnmapLookup(m, t, upper, leaf).Ok? <==> Walk(m, t, upper + [leaf]).Some?
    ensures UnmapLookup(m, t, upper, leaf).Ok? ==>
              var s := UnmapLookup(m, t, upper, leaf).value;
              Walk(m, t, upper) == Some(s.table) && s.index == leaf &&
              Walk(m, t, upper + [leaf]) == Descend(m, s.table, leaf)
    ensures !(UnmapLookup(m, t, upper, leaf).Err? && UnmapLookup(m, t, upper, leaf).error.InvalidFrameAddress?)
    decreases |upper|
  {
    WalkSnoc(m, t, upper, leaf);
    if upper != [] {
      assert (upper + [leaf])[0] == upper[0] && (upper + [leaf])[1..] == upper[1..] + [leaf];
      if m[t][upper[0]].Frame().Ok? {
        UnmapLookupWalks(m, m[t][upper[0]].Frame().value, upper[1..], leaf);
      }
    }
  }

  /** unmap's lookup level by level: the first entry without a frame gives
      the error, each entry with one leads to the table it references. */
  lemma UnmapLookupLevels(m: Memory, root: PhysFrame, v: Page)
    requires PathPresent(m, root, [v.p4, v.p3, v.p2])
    ensures m[root][v.p4].Frame().Ok? ==> m[root][v.p4].Frame().value in m
    ensures m[root][v.p4].Frame().Ok? && m[m[root][v.p4].Frame().value][v.p3].Frame().Ok? ==>
              m[m[root][v.p4].Frame().value][v.p3].Frame().value in m
    ensures m[root][v.p4].Frame().Ok? && m[m[root][v.p4].Frame().value][v.p3].Frame().Ok? ==>
              var t2 := m[m[root][v.p4].Frame().value][v.p3].Frame().value;
              m[t2][v.p2].Frame().Ok? ==> m[t2][v.p2].Frame().value in m
    ensures UnmapLookup(m, root, [v.p4, v.p3, v.p2], v.p1) ==
      var e4 := m[root][v.p4].Frame();
      if e4.Err? then Err(UnmapErrorOf(e4.error)) else
      var e3 := m[e4.value][v.p3].Frame();
      if e3.Err? then Err(UnmapErrorOf(e3.error)) else
      var e2 := m[e3.value][v.p2].Frame();
      if e2.Err? then Err(UnmapErrorOf(e2.error)) else
      var e1 := m[e2.value][v.p1].Frame();
      if e1.Err? then Err(UnmapErrorOf(e1.error)) else Ok(Slot(e2.value, v.p1))
  {
    assert [v.p4, v.p3, v.p2][1..] == [v.p3, v.p2] && [v.p3, v.p2][1..] == [v.p2] && [v.p2][1..] == [];
    var e4 := m[root][v.p4].Frame();
    if e4.Ok? {
      assert Descend(m, root, v.p4) == Some(e4.value);
      assert PathPresent(m, e4.value, [v.p3, v.p2]);
      assert UnmapLookup(m, root, [v.p4, v.p3, v.p2], v.p1) == UnmapLookup(m, e4.value, [v.p3, v.p2], v.p1);
      var e3 := m[e4.value][v.p3].Frame();
      if e3.Ok? {
        assert Descend(m, e4.value, v.p3) == Some(e3.value);
        assert PathPresent(m, e3.value, [v.p2]);
        assert UnmapLookup(m, e4.value, [v.p3, v.p2], v.p1) == UnmapLookup(m, e3.value, [v.p2], v.p1);
        var e2 := m[e3.value][v.p2].Frame();
        if e2.Ok? {
          assert Descend(m, e3.value, v.p2) == Some(e2.value);
          assert PathPresent(m, e2.value, []);
          assert UnmapLookup(m, e3.value, [v.p2], v.p1) == UnmapLookup(m, e2.value, [], v.p1);
        }
      }
    }
  }

  /** The table pages resolve level by level: each to the table the entry
      one level up references. */
  lemma TablesAlongPath(m: Memory, root: PhysFrame, r: Idx, v: Page)
    requires RecursiveSlot(m, root, r)
    ensures Resolve(m, root, P4Page(r)) == Some(root)
    ensures Resolve(m, root, P3Page(r, v)) == Descend(m, root, v.p4)
    ensures Descend(m, root, v.p4).Some? ==>
              Resolve(m, root, P2Page(r, v)) == Descend(m, Descend(m, root, v.p4).value, v.p3)
    ensures Descend(m, root, v.p4).Some? && Descend(m, Descend(m, root, v.p4).value, v.p3).Some? ==>
              Resolve(m, root, P1Page(r, v)) == Descend(m, Descend(m, Descend(m, root, v.p4).value, v.p3).value, v.p2)
  {
    TablePages(m, root, r, v);
    WalkSnoc(m, root, [], v.p4);
    assert [] + [v.p4] == [v.p4];
    WalkSnoc(m, root, [v.p4], v.p3);
    assert [v.p4] + [v.p3] == [v.p4, v.p3];
    WalkSnoc(m, root, [v.p4, v.p3], v.p2);
    assert [v.p4, v.p3] + [v.p2] == [v.p4, v.p3, v.p2];
  }

  /** unmap for a 4 KiB page through the recursive mapping: on success the
      leaf's previous frame and a token for the page, with the leaf cleared
      and every other entry as it was; on error memory as it was. */
  function UnmapSpec(m: Memory, root: PhysFrame, v: Page): (o: (Result<(PhysFrame, MapperFlush), UnmapError>, Memory))
    requires PathPresent(m, root, [v.p4, v.p3, v.p2])
    ensures o.0.Err? ==> o.1 == m
    ensures o.0.Ok? ==> o.0.value.1.page == v && Resolve(m, root, v) == Some(o.0.value.0)
    ensures o.0.Ok? <==> UnmapLookup(m, root, [v.p4, v.p3, v.p2], v.p1).Ok?
    ensures o.0.Ok? ==>
              var s := UnmapLookup(m, root, [v.p4, v.p3, v.p2], v.p1).value;
              && o.1.Keys == m.Keys && WellFormed(o.1)
              && m[s.table][s.index].Frame() == Ok(o.0.value.0)
              && o.1[s.table][s.index].IsUnused()
              && (forall t, i | t in m && 0 <= i < |m[t]| && (t, i) != (s.table, s.index as int) :: o.1[t][i] == m[t][i])
  {
    UnmapLookupWalks(m, root, [v.p4, v.p3, v.p2], v.p1);
    assert Indices(v) == [v.p4, v.p3, v.p2] + [v.p1];
    match UnmapLookup(m, root, [v.p4, v.p3, v.p2], v.p1)
    case Err(e) => (Err(e), m)
    case Ok(s) =>
      WriteSlot(m, s.table, s.index, m[s.table][s.index].SetUnused());
      (Ok((m[s.table][s.index].Frame().value, NewFlush(v))),
       m[s.table := m[s.table][s.index := m[s.table][s.index].SetUnused()]])
  }

  /** unmap succeeds exactly when the table walk translates the page, and after it
      the table walk no longer does. */
  lemma UnmapUnmaps(m: Memory, root: PhysFrame, v: Page)
    requires PathPresent(m, root, [v.p4, v.p3, v.p2])
    ensures UnmapSpec(m, root, v).0.Ok? <==> Resolve(m, root, v).Some?
    ensures Resolve(UnmapSpec(m, root, v).1, root, v).None?
  {
    var upper := [v.p4, v.p3, v.p2];
    UnmapLookupWalks(m, root, upper, v.p1);
    assert Indices(v) == upper + [v.p1];
    var o := UnmapSpec(m, root, v);
    if o.0.Ok? {
      var s := UnmapLookup(m, root, upper, v.p1).value;
      var m' := m[s.table := m[s.table][s.index := PageTableEntry.New()]];
      assert o.1 == m';
      WalkSnoc(m', root, upper, v.p1);
      if Walk(m', root, upper).Some? {
        WalkClear(m, s.table, s.index, root, upper);
      }
    }
  }

  /** Wherever get_entry can follow a path, so can unmap: every table
      descriptor on it references a table in memory. */
  lemma {:induction false} LookupPresent(m: Memory, t: PhysFrame, upper: seq<Idx>)
    requires LookupDefined(m, t, upper)
    ensures PathPresent(m, t, upper)
    decreases |upper|
  {
    if upper != [] && Descend(m, t, upper[0]).Some? {
      assert !m[t][upper[0]].IsUnused();
      LookupPresent(m, Descend(m, t, upper[0]).value, upper[1..]);
    }
  }

  /** Where the table walk of the upper indices reaches a table, unmap's
      lookup passes every upper level and decides on that table's slot
      `leaf` alone. */
  lemma {:induction false} UnmapLookupReaches(m: Memory, t: PhysFrame, upper: seq<Idx>, leaf: Idx)
    requires PathPresent(m, t, upper) && Walk(m, t, upper).Some?
    ensures Walk(m, t, upper).value in m
    ensures UnmapLookup(m, t, upper, leaf) ==
            match m[Walk(m, t, upper).value][leaf].Frame()
            case Err(e) => Err(UnmapErrorOf(e))
            case Ok(_) => Ok(Slot(Walk(m, t, upper).value, leaf))
    decreases |upper|
  {
    if upper != [] {
      UnmapLookupReaches(m, Descend(m, t, upper[0]).value, upper[1..], leaf);
    }
  }

  /** map_to followed by unmap: unmap can follow the path map_to built, and
      returns the frame the written entry yields, or PageNotMapped when its
      flags lack VALID (translate_page, which tests only is_unused, still
      succeeds then). For an attribute inside its field, that is the mapped
      frame exactly when `flags` holds VALID. */
  lemma MapToUnmaps(m: Memory, pool: seq<PhysFrame>, root: PhysFrame, v: Page,
                    frame: PhysFrame, flags: PageTableFlags, attr: PageTableAttribute)
    requires StepReady(m, pool, root) && MapDefined(m, root, [v.p4, v.p3, v.p2])
    requires Contains(flags, TABLE_OR_PAGE)
    requires MapToSpec(m, pool, root, v, frame, flags, attr).result.Ok?
    ensures var o := MapToSpec(m, pool, root, v, frame, flags, attr);
      && PathPresent(o.m, root, [v.p4, v.p3, v.p2])
      && UnmapSpec(o.m, root, v).0 ==
         (if Contains(flags | (attr.value & ALL_FLAGS), VALID)
          then Ok((FrameAt(frame.start | (attr.value & ADDR_MASK)), NewFlush(v)))
          else Err(UnmapError.PageNotMapped))
      && (InAttrField(attr) ==>
            UnmapSpec(o.m, root, v).0 ==
            if Contains(flags, VALID) then Ok((frame, NewFlush(v))) else Err(UnmapError.PageNotMapped))
  {
    var o := MapToSpec(m, pool, root, v, frame, flags, attr);
    var upper := [v.p4, v.p3, v.p2];
    MapPathMaps(m, pool, root, upper, v.p1, v, frame, flags, attr);
    MapToGetsEntry(m, pool, root, v, frame, flags, attr);
    LookupPresent(o.m, root, upper);
    UnmapLookupReaches(o.m, root, upper, v.p1);
    StoredFrame(frame, flags, attr);
  }

  /** After a successful unmap, translate_page reports PageNotMapped. get_entry
      checks only the upper entries, so where it still finds a slot it is
      the same slot as before the unmap, now unused, rather than an error. */
  lemma UnmapThenLookup(m: Memory, root: PhysFrame, v: Page)
    requires LookupDefined(m, root, [v.p4, v.p3, v.p2])
    requires PathPresent(m, root, [v.p4, v.p3, v.p2]) && UnmapSpec(m, root, v).0.Ok?
    ensures LookupDefined(UnmapSpec(m, root, v).1, root, [v.p4, v.p3, v.p2])
    ensures TranslatePageSpec(UnmapSpec(m, root, v).1, root, v) == Err(TranslateError.PageNotMapped)
    ensures var m' := UnmapSpec(m, root, v).1;
      GetEntrySpec(m', root, v).Ok? ==>
        GetEntrySpec(m', root, v) == GetEntrySpec(m, root, v)
        && m'[GetEntrySpec(m', root, v).value.table][v.p1].IsUnused()
  {
    var upper := [v.p4, v.p3, v.p2];
    var s := UnmapLookup(m, root, upper, v.p1).value;
    var m': Memory := m[s.table := m[s.table][s.index := PageTableEntry.New()]];
    assert UnmapSpec(m, root, v).1 == m';
    UnmapLookupWalks(m, root, upper, v.p1);
    LookupClear(m, s.table, s.index, root, upper);
    if Walk(m', root, upper).Some? {
      WalkClear(m, s.table, s.index, root, upper);
    }
  }

  /** Clearing one slot keeps get_entry defined along any path it was
      defined on. */
  lemma {:induction false} LookupClear(m: Memory, u: PhysFrame, i: Idx, t: PhysFrame, upper: seq<Idx>)
    requires LookupDefined(m, t, upper) && u in m
    ensures LookupDefined(m[u := m[u][i := PageTableEntry.New()]], t, upper)
    decreases |upper|
  {
    var m': Memory := m[u := m[u][i := PageTableEntry.New()]];
    WriteSlot(m, u, i, PageTableEntry.New());
    if upper != [] && !m'[t][upper[0]].IsUnused() {
      assert m'[t][upper[0]] == m[t][upper[0]];
      LookupClear(m, u, i, Descend(m, t, upper[0]).value, upper[1..]);
    }
  }
}
