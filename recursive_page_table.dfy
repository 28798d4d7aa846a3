/** The recursive page table (mapper/recursive_page_table.rs): a level 4
    table one of whose entries references the table itself, so that every
    table of the hierarchy is reachable at a virtual address built from the
    recursive index. The tables are the objects the processor's memory
    holds; the class keeps them by frame, and `Mem()` is their contents, on
    which RecursiveMapping states what each operation does. */
module RecursivePageTable {
  import opened Paging
  import opened PageTable
  import opened Mapper
  import opened MemoryAttribute
  import opened RecursiveMapping

  class RecursivePageTable {
    /** The index of the recursively mapped entry of the level 4 table. */
    const recursiveIndex: Idx
    /** The frame of the level 4 table (the one TTBR0 points at). */
    const root: PhysFrame
    /** The page tables in physical memory, by frame. */
    const tables: map<PhysFrame, PageTable>

    /** The frame each table's storage belongs to. */
    ghost const owner: map<array<PageTableEntry>, PhysFrame>

    /** Every table is 512 entries long, the level 4 table is one of them,
        and no two frames share storage. */
    ghost predicate Valid()
    {
      && root in tables
      && (forall t | t in tables :: tables[t].Valid() && tables[t].entries in owner && owner[tables[t].entries] == t)
    }

    /** The storage of all the tables. */
    ghost function Repr(): set<array<PageTableEntry>>
    {
      set t | t in tables :: tables[t].entries
    }

    /** The contents of all the tables, by frame. */
    function Mem(): (m: Memory)
      reads Repr()
      ensures m.Keys == tables.Keys
    {
      map t | t in tables :: tables[t].entries[..]
    }

    /** The level 4 table's recursive entry references the level 4 table. */
    ghost predicate Recursive()
      reads Repr()
    {
      RecursiveSlot(Mem(), root, recursiveIndex)
    }

    /** RecursivePageTable::new: the recursive index is a u16 that must fit
        in 9 bits (u9::new panics otherwise) and, unchecked, must be the
        index of the level 4 table's recursive entry; the tables are the
        ones the caller's memory holds. */
    constructor (recursiveIndex: bv16, root: PhysFrame, tables: map<PhysFrame, PageTable>,
                 ghost owner: map<array<PageTableEntry>, PhysFrame>)
      requires recursiveIndex < 512
      requires root in tables
      requires forall t | t in tables :: tables[t].Valid() && tables[t].entries in owner && owner[tables[t].entries] == t
      requires RecursiveSlot(map t | t in tables :: tables[t].entries[..], root, recursiveIndex as Idx)
      ensures this.recursiveIndex as bv16 == recursiveIndex
      ensures this.root == root && this.tables == tables && this.owner == owner
      ensures Valid() && Recursive()
    {
      this.recursiveIndex := recursiveIndex as Idx;
      this.root := root;
      this.tables := tables;
      this.owner := owner;
    }

    /** Stores `e` in slot `i` of the table at `t`. */
    method WriteEntry(t: PhysFrame, i: Idx, e: PageTableEntry)
      requires Valid() && t in tables
      modifies tables[t].entries
      ensures Mem() == old(Mem())[t := old(Mem())[t][i := e]]
    {
      ghost var m0 := Mem();
      tables[t].entries[i] := e;
      forall u | u in tables
        ensures Mem()[u] == m0[t := m0[t][i := e]][u]
      {
        if u != t {
          assert owner[tables[u].entries] != owner[tables[t].entries];
        }
      }
    }

    /** Clears the table at `t`. */
    method ZeroTable(t: PhysFrame)
      requires Valid() && t in tables
      modifies tables[t].entries
      ensures Mem() == old(Mem())[t := UnusedTable()]
    {
      ghost var m0 := Mem();
      tables[t].Zero();
      forall u | u in tables
        ensures Mem()[u] == m0[t := UnusedTable()][u]
      {
        if u != t {
          assert owner[tables[u].entries] != owner[tables[t].entries];
        }
      }
    }

    /** The entry in a slot of one of the tables. */
    function Entry(s: Slot): (e: PageTableEntry)
      requires Valid() && s.table in tables
      reads Repr()
      ensures e == Mem()[s.table][s.index]
    {
      tables[s.table].Index(s.index)
    }

    /** get_entry: through p4_ptr to p1_ptr, PageNotMapped at the first unused
        upper entry, otherwise the level 1 slot of the page. */
    method GetEntry(page: Page) returns (r: Result<Slot, EntryGetError>)
      requires Valid() && Recursive() && LookupDefined(Mem(), root, [page.p4, page.p3, page.p2])
      ensures LookupDefined(Mem(), root, [page.p4, page.p3, page.p2])
      ensures r == GetEntrySpec(Mem(), root, page)
    {
      TablesAlongPath(Mem(), root, recursiveIndex, page);
      LookupLevels(Mem(), root, page);
      var p4 := Resolve(Mem(), root, P4Page(recursiveIndex)).value;
      if Entry(Slot(p4, page.p4)).IsUnused() {
        return Err(EntryGetError.PageNotMapped);
      }
      var p3 := Resolve(Mem(), root, P3Page(recursiveIndex, page)).value;
      if Entry(Slot(p3, page.p3)).IsUnused() {
        return Err(EntryGetError.PageNotMapped);
      }
      var p2 := Resolve(Mem(), root, P2Page(recursiveIndex, page)).value;
      if Entry(Slot(p2, page.p2)).IsUnused() {
        return Err(EntryGetError.PageNotMapped);
      }
      var p1 := Resolve(Mem(), root, P1Page(recursiveIndex, page)).value;
      r := Ok(Slot(p1, page.p1));
    }

    /** get_entry_mut: the slot get_entry finds, handed out for writing. */
    method GetEntryMut(page: Page) returns (r: Result<Slot, EntryGetError>)
      requires Valid() && Recursive() && LookupDefined(Mem(), root, [page.p4, page.p3, page.p2])
      ensures LookupDefined(Mem(), root, [page.p4, page.p3, page.p2])
      ensures r == GetEntrySpec(Mem(), root, page)
    {
      var entry := GetEntry(page);
      if entry.Err? {
        return Err(entry.error);
      }
      r := Ok(entry.value);
    }

    /** translate_page: the frame the page's level 1 entry holds, or why
        there is none. */
    method TranslatePage(page: Page) returns (r: Result<SizedFrame, TranslateError>)
      requires Valid() && Recursive() && LookupDefined(Mem(), root, [page.p4, page.p3, page.p2])
      ensures LookupDefined(Mem(), root, [page.p4, page.p3, page.p2])
      ensures r == TranslatePageSpec(Mem(), root, page)
    {
      var entry := GetEntry(page);
      if entry.Err? {
        return Err(TranslateErrorFrom(entry.error));
      }
      var e := Entry(entry.value);
      if e.IsUnused() {
        return Err(TranslateError.PageNotMapped);
      }
      var frame := FrameFromStartAddress(Size4KiB, e.Addr());
      if frame.Err? {
        return Err(TranslateError.InvalidFrameAddress(e.Addr()));
      }
      r := Ok(frame.value);
    }

    /** update_flags: replaces the flags of the page's level 1 entry unless
        the lookup fails or the entry is unused. */
    method UpdateFlags(page: Page, flags: PageTableFlags) returns (r: Result<MapperFlush, FlagUpdateError>)
      requires Valid() && Recursive() && LookupDefined(Mem(), root, [page.p4, page.p3, page.p2])
      modifies Repr()
      ensures (r, Mem()) == UpdateFlagsSpec(old(Mem()), root, page, flags)
    {
      var entry := GetEntryMut(page);
      if entry.Err? {
        return Err(FlagUpdateErrorFrom(entry.error));
      }
      var e := Entry(entry.value);
      if e.IsUnused() {
        return Err(FlagUpdateError.PageNotMapped);
      }
      WriteEntry(entry.value.table, entry.value.index, e.SetFlags(flags));
      r := Ok(NewFlush(page));
    }

    /** The lookup half of unmap: frame() of each level's entry, through
        the table pages, with the first failure converted; otherwise the
        level 1 slot, whose entry references a frame. */
    method UnmapSlot(page: Page) returns (r: Result<Slot, UnmapError>)
      requires Valid() && Recursive() && PathPresent(Mem(), root, [page.p4, page.p3, page.p2])
      ensures PathPresent(Mem(), root, [page.p4, page.p3, page.p2])
      ensures r == UnmapLookup(Mem(), root, [page.p4, page.p3, page.p2], page.p1)
      ensures r.Ok? ==> r.value.table in tables && Mem()[r.value.table][r.value.index].Frame().Ok?
    {
      TablesAlongPath(Mem(), root, recursiveIndex, page);
      UnmapLookupLevels(Mem(), root, page);
      var p4 := Resolve(Mem(), root, P4Page(recursiveIndex)).value;
      var f4 := Entry(Slot(p4, page.p4)).Frame();
      if f4.Err? {
        return Err(UnmapErrorOf(f4.error));
      }
      var p3 := Resolve(Mem(), root, P3Page(recursiveIndex, page)).value;
      var f3 := Entry(Slot(p3, page.p3)).Frame();
      if f3.Err? {
        return Err(UnmapErrorOf(f3.error));
      }
      var p2 := Resolve(Mem(), root, P2Page(recursiveIndex, page)).value;
      var f2 := Entry(Slot(p2, page.p2)).Frame();
      if f2.Err? {
        return Err(UnmapErrorOf(f2.error));
      }
      var p1 := Resolve(Mem(), root, P1Page(recursiveIndex, page)).value;
      var f1 := Entry(Slot(p1, page.p1)).Frame();
      if f1.Err? {
        return Err(UnmapErrorOf(f1.error));
      }
      r := Ok(Slot(p1, page.p1));
    }

    /** unmap: the level 1 entry the lookup finds is cleared and the frame
        it referenced returned. */
    method Unmap(page: Page) returns (r: Result<(PhysFrame, MapperFlush), UnmapError>)
      requires Valid() && Recursive() && PathPresent(Mem(), root, [page.p4, page.p3, page.p2])
      modifies Repr()
      ensures (r, Mem()) == UnmapSpec(old(Mem()), root, page)
    {
      var slot := UnmapSlot(page);
      if slot.Err? {
        return Err(slot.error);
      }
      var e := Entry(slot.value);
      WriteEntry(slot.value.table, slot.value.index, e.SetUnused());
      r := Ok((e.Frame().value, NewFlush(page)));
    }

    /** The first half of create_next_table: an unused slot gets a frame
        from the allocator as a table descriptor. Ok(true) when it did,
        Ok(false) when the slot was in use. */
    method InstallNextTable(t: PhysFrame, i: Idx, alloc: FrameAllocator) returns (r: Result<bool, MapToError>)
      requires Valid() && t in tables
      modifies tables[t].entries, alloc
      ensures !old(Mem())[t][i].IsUnused() ==>
                r == Ok(false) && Mem() == old(Mem()) && alloc.pool == old(alloc.pool)
      ensures old(Mem())[t][i].IsUnused() && old(alloc.pool) == [] ==>
                r == Err(MapToError.FrameAllocationFailed) && Mem() == old(Mem()) && alloc.pool == old(alloc.pool)
      ensures old(Mem())[t][i].IsUnused() && old(alloc.pool) != [] ==>
                && r == Ok(true) && alloc.pool == old(alloc.pool)[1..]
                && Mem() == old(Mem())[t := old(Mem())[t][i := old(Mem())[t][i].SetFrame(old(alloc.pool)[0], NextTableFlags(), MairNormal.AttrValue())]]
    {
      var e := Entry(Slot(t, i));
      if e.IsUnused() {
        var frame := alloc.AllocateFrame();
        if frame.None? {
          return Err(MapToError.FrameAllocationFailed);
        }
        WriteEntry(t, i, e.SetFrame(frame.value, NextTableFlags(), MairNormal.AttrValue()));
        r := Ok(true);
      } else {
        r := Ok(false);
      }
    }

    /** The second half of create_next_table: the next table is the one the
        table walk reaches at `nextPage`; a table just installed is zeroed. */
    method EnterNextTable(nextPage: Page, created: bool) returns (next: PhysFrame)
      requires Valid() && Resolve(Mem(), root, nextPage).Some? && Resolve(Mem(), root, nextPage).value in tables
      modifies Repr()
      ensures next == old(Resolve(Mem(), root, nextPage)).value
      ensures Mem() == if created then old(Mem())[next := UnusedTable()] else old(Mem())
    {
      next := Resolve(Mem(), root, nextPage).value;
      if created {
        ZeroTable(next);
      }
    }

    /** create_next_table for slot `i` of the table at `t`, which the table walk
        reaches along `prefix`: an unused slot gets a frame from the
        allocator, a block fails, and the next table is reached at
        `nextPage`, zeroed when it was just installed. */
    method CreateNextTable(t: PhysFrame, i: Idx, nextPage: Page, alloc: FrameAllocator, ghost prefix: seq<Idx>)
      returns (r: Result<PhysFrame, MapToError>)
      requires Valid() && Recursive()
      requires |prefix| <= 2 && Walk(Mem(), root, prefix) == Some(t) && nextPage == TablePage(recursiveIndex, prefix + [i])
      requires WellFormed(Mem()) && t in tables && NextDefined(Mem(), t, i)
      requires forall f | f in alloc.pool :: f in tables
      modifies Repr(), alloc
      ensures Step(r, Mem(), alloc.pool) == NextTable(old(Mem()), old(alloc.pool), t, i)
    {
      ghost var m: Memory := Mem();
      ghost var pool: seq<PhysFrame> := alloc.pool;
      var created := InstallNextTable(t, i, alloc);
      if created.Err? {
        return Err(created.error);
      }
      if Entry(Slot(t, i)).IsBlock() {
        return Err(MapToError.ParentEntryHugePage);
      }
      CreateStep(m, pool, root, recursiveIndex, prefix, t, i, Mem(), created.value);
      var next := EnterNextTable(nextPage, created.value);
      r := Ok(next);
    }

    /** What map_to needs before a step from table `t`, reached by the walk
        along `prefix`, with `upper` the indices still to descend and
        `pool` the allocator's frames. */
    ghost predicate ReadyAt(prefix: seq<Idx>, t: PhysFrame, upper: seq<Idx>, pool: seq<PhysFrame>)
      reads Repr()
    {
      && Valid() && Recursive() && Walk(Mem(), root, prefix) == Some(t)
      && StepReady(Mem(), pool, t) && MapDefined(Mem(), t, upper)
    }

    /** map_to is on its way to `goal`: from table `t` onwards it ends where
        its specification, still to descend `upper`, ends. */
    ghost predicate MapPending(prefix: seq<Idx>, t: PhysFrame, upper: seq<Idx>, pool: seq<PhysFrame>, goal: Outcome,
                               page: Page, frame: PhysFrame, flags: PageTableFlags, attr: PageTableAttribute)
      reads Repr()
    {
      && ReadyAt(prefix, t, upper, pool) && Contains(flags, TABLE_OR_PAGE)
      && goal == MapPath(Mem(), pool, t, upper, page.p1, page, frame, flags, attr)
    }

    /** One create_next_table call of map_to: it does what the next step of
        map_to's specification does, and on success leaves the next table
        ready for the next step. */
    method MapLevel(t: PhysFrame, i: Idx, nextPage: Page, alloc: FrameAllocator, ghost prefix: seq<Idx>,
                    ghost upper: seq<Idx>, ghost goal: Outcome, ghost page: Page, ghost frame: PhysFrame,
                    ghost flags: PageTableFlags, ghost attr: PageTableAttribute)
      returns (r: Result<PhysFrame, MapToError>)
      requires MapPending(prefix, t, upper, alloc.pool, goal, page, frame, flags, attr)
      requires |prefix| <= 2 && upper != [] && upper[0] == i && nextPage == TablePage(recursiveIndex, prefix + [i])
      modifies Repr(), alloc
      ensures r.Err? ==> goal == Outcome(Err(r.error), Mem(), alloc.pool)
      ensures r.Ok? ==> MapPending(prefix + [i], r.value, upper[1..], alloc.pool, goal, page, frame, flags, attr)
    {
      ghost var m: Memory := Mem();
      ghost var pool: seq<PhysFrame> := alloc.pool;
      MapToStep(m, pool, root, recursiveIndex, prefix, t, upper, page.p1, page, frame, flags, attr);
      PoolInMemory(m, pool);
      r := CreateNextTable(t, i, nextPage, alloc, prefix);
    }

    /** The last step of map_to: PageAlreadyMapped for a used level 1
        entry, otherwise the entry maps `frame`. */
    method MapLeaf(t: PhysFrame, page: Page, frame: PhysFrame, flags: PageTableFlags, attr: PageTableAttribute,
                   ghost prefix: seq<Idx>, ghost pool: seq<PhysFrame>, ghost goal: Outcome)
      returns (r: Result<MapperFlush, MapToError>)
      requires MapPending(prefix, t, [], pool, goal, page, frame, flags, attr)
      modifies Repr()
      ensures goal == Outcome(r, Mem(), pool)
    {
      var e := Entry(Slot(t, page.p1));
      if !e.IsUnused() {
        return Err(MapToError.PageAlreadyMapped);
      }
      WriteEntry(t, page.p1, e.SetFrame(frame, flags, attr));
      r := Ok(NewFlush(page));
    }

    /** The level 1 part of map_to: the third create_next_table call, then
        the entry itself. */
    method MapLast(t: PhysFrame, page: Page, frame: PhysFrame, flags: PageTableFlags, attr: PageTableAttribute,
                   alloc: FrameAllocator, ghost goal: Outcome)
      returns (r: Result<MapperFlush, MapToError>)
      requires MapPending([] + [page.p4] + [page.p3], t, [page.p2], alloc.pool, goal, page, frame, flags, attr)
      requires P1Page(recursiveIndex, page) == TablePage(recursiveIndex, [] + [page.p4] + [page.p3] + [page.p2])
      modifies Repr(), alloc
      ensures goal == Outcome(r, Mem(), alloc.pool)
    {
      var p1 := MapLevel(t, page.p2, P1Page(recursiveIndex, page), alloc, [] + [page.p4] + [page.p3],
                         [page.p2], goal, page, frame, flags, attr);
      if p1.Err? {
        return Err(p1.error);
      }
      r := MapLeaf(p1.value, page, frame, flags, attr, [] + [page.p4] + [page.p3] + [page.p2], alloc.pool, goal);
    }

    /** Before map_to's first step the root, reached by the empty walk, is
        ready, and the level 4 table page is the root. */
    lemma MapStart(page: Page, frame: PhysFrame, flags: PageTableFlags, attr: PageTableAttribute, pool: seq<PhysFrame>)
      requires Valid() && Recursive() && Contains(flags, TABLE_OR_PAGE)
      requires MapDefined(Mem(), root, [page.p4, page.p3, page.p2]) && PoolFresh(Mem(), pool)
      ensures MapPending([], root, [page.p4, page.p3, page.p2], pool,
                         MapToSpec(Mem(), pool, root, page, frame, flags, attr), page, frame, flags, attr)
      ensures Resolve(Mem(), root, P4Page(recursiveIndex)) == Some(root)
    {
      RootNotInPool(Mem(), pool, root, recursiveIndex);
      TablePageIs(recursiveIndex, page);
      TablePageResolves(Mem(), root, recursiveIndex, []);
    }

    /** map_to: create_next_table down the three upper levels, each table
        reached at its table page; PageAlreadyMapped for a used level 1
        entry; otherwise the entry is set to `frame`. get_entry,
        translate_page and unmap can then follow the page; translate_page
        returns the frame, with any address bits of `attr` outside the
        attribute field ORed into it. */
    method MapTo(page: Page, frame: PhysFrame, flags: PageTableFlags, attr: PageTableAttribute, alloc: FrameAllocator)
      returns (r: Result<MapperFlush, MapToError>)
      requires Valid() && Recursive() && Contains(flags, TABLE_OR_PAGE)
      requires MapDefined(Mem(), root, [page.p4, page.p3, page.p2]) && PoolFresh(Mem(), alloc.pool)
      modifies Repr(), alloc
      ensures Outcome(r, Mem(), alloc.pool) == MapToSpec(old(Mem()), old(alloc.pool), root, page, frame, flags, attr)
      ensures Recursive()
      ensures r.Ok? ==> LookupDefined(Mem(), root, [page.p4, page.p3, page.p2])
                        && PathPresent(Mem(), root, [page.p4, page.p3, page.p2])
                        && TranslatePageSpec(Mem(), root, page) ==
                           Ok(SizedFrame(Size4KiB, frame.start | (attr.value & ADDR_MASK)))
      ensures r.Ok? && InAttrField(attr) ==>
                TranslatePageSpec(Mem(), root, page) == Ok(SizedFrame(Size4KiB, frame.start))
    {
      MapToLeaves(Mem(), alloc.pool, root, recursiveIndex, page, frame, flags, attr);
      r := MapLevels(page, frame, flags, attr, alloc);
    }

    /** The three levels of map_to, one create_next_table call each, then
        the level 1 slot. */
    method MapLevels(page: Page, frame: PhysFrame, flags: PageTableFlags, attr: PageTableAttribute, alloc: FrameAllocator)
      returns (r: Result<MapperFlush, MapToError>)
      requires Valid() && Recursive() && Contains(flags, TABLE_OR_PAGE)
      requires MapDefined(Mem(), root, [page.p4, page.p3, page.p2]) && PoolFresh(Mem(), alloc.pool)
      modifies Repr(), alloc
      ensures Outcome(r, Mem(), alloc.pool) == MapToSpec(old(Mem()), old(alloc.pool), root, page, frame, flags, attr)
    {
      ghost var goal := MapToSpec(Mem(), alloc.pool, root, page, frame, flags, attr);
      MapStart(page, frame, flags, attr, alloc.pool);
      MapPages(recursiveIndex, page);
      var p4 := Resolve(Mem(), root, P4Page(recursiveIndex)).value;
      var p3 := MapLevel(p4, page.p4, P3Page(recursiveIndex, page), alloc, [],
                         [page.p4, page.p3, page.p2], goal, page, frame, flags, attr);
      if p3.Err? {
        return Err(p3.error);
      }
      var p2 := MapLevel(p3.value, page.p3, P2Page(recursiveIndex, page), alloc, [] + [page.p4],
                         [page.p3, page.p2], goal, page, frame, flags, attr);
      if p2.Err? {
        return Err(p2.error);
      }
      r := MapLast(p2.value, page, frame, flags, attr, alloc, goal);
    }

    /** identity_map: maps `frame` at the page with the same address; on
        success the token is for the page starting at the frame's address. */
    method IdentityMap(frame: PhysFrame, flags: PageTableFlags, attr: PageTableAttribute, alloc: FrameAllocator)
      returns (r: Result<MapperFlush, MapToError>)
      requires Valid() && Recursive() && Contains(flags, TABLE_OR_PAGE)
      requires var page := PageContaining(frame.start);
        MapDefined(Mem(), root, [page.p4, page.p3, page.p2]) && PoolFresh(Mem(), alloc.pool)
      modifies Repr(), alloc
      ensures Outcome(r, Mem(), alloc.pool) ==
              MapToSpec(old(Mem()), old(alloc.pool), root, PageContaining(frame.start), frame, flags, attr)
      ensures r.Ok? ==> r.value.page.StartAddress() == frame.start
      ensures Recursive()
    {
      var page := PageContaining(frame.start);
      ghost var m: Memory := Mem();
      ghost var pool: seq<PhysFrame> := alloc.pool;
      MapPathToken(m, pool, root, [page.p4, page.p3, page.p2], page.p1, page, frame, flags, attr);
      IdentityPage(frame);
      r := MapTo(page, frame, flags, attr, alloc);
    }
  }
}
