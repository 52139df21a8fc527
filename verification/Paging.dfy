/**
 * Two-level i686 paging of the user half of one address space ("32-Bit Paging", Intel SDM
 * volume 3A, section 4.3).  `Space` is the page directory, the mapping table the kernel
 * edits through, and the physical frames that hold page tables; `Lookup` is the flat
 * function from user pages to page table entries that `map` and `unmap` refine.
 */
module Paging {
  const PAGE_SIZE := 4096
  const ENTRIES := 1024
  const USER_TABLES := 768                    // directory entries below 0xC0000000
  const USER_PAGES := USER_TABLES * ENTRIES

  datatype Entry = Entry(present: bool, writeable: bool, user: bool, patIndex: nat, frame: nat)

  /** The all-zero entry; `value() == 0` is equality with it. */
  const NULL_ENTRY := Entry(false, false, false, 0, 0)

  datatype Config = Config(writeable: bool, userspace: bool, patIndex: nat)

  const UNCACHEABLE := 3

  function MakeEntry(frame: nat, user: bool, writeable: bool, patIndex: nat): Entry
  {
    Entry(true, writeable, user, patIndex, frame)
  }

  datatype Space = Space(directory: seq<Entry>, mapping: seq<Entry>, frames: map<nat, seq<Entry>>, inUse: set<nat>)

  /** Directory entry i is empty, or points at the same page table the mapping table names. */
  ghost predicate TableOk(s: Space, i: nat)
    requires |s.directory| == ENTRIES && |s.mapping| == ENTRIES && i < USER_TABLES
  {
    s.directory[i] == NULL_ENTRY ||
    (&& s.directory[i].present && s.mapping[i].frame == s.directory[i].frame
     && s.directory[i].frame in s.frames && s.directory[i].frame in s.inUse
     && |s.frames[s.directory[i].frame]| == ENTRIES
     && forall e :: 0 <= e < ENTRIES ==>
          s.frames[s.directory[i].frame][e] == NULL_ENTRY || s.frames[s.directory[i].frame][e].present)
  }

  ghost predicate SameTable(s: Space, i: nat, j: nat)
    requires |s.directory| == ENTRIES && i < USER_TABLES && j < USER_TABLES
  {
    s.directory[i].present && s.directory[j].present && s.directory[i].frame == s.directory[j].frame
  }

  /** Everything except that a table must hold an entry. */
  ghost predicate Consistent(s: Space)
  {
    && |s.directory| == ENTRIES && |s.mapping| == ENTRIES
    && (forall i :: 0 <= i < USER_TABLES ==> TableOk(s, i))
    && (forall i, j :: 0 <= i < USER_TABLES && 0 <= j < USER_TABLES && SameTable(s, i, j) ==> i == j)
  }

  /** The table of directory entry i, as the processor finds it. */
  function Table(s: Space, i: nat): (t: seq<Entry>)
    requires Consistent(s) && i < USER_TABLES
    ensures |t| == ENTRIES
  {
    assert TableOk(s, i);
    if s.directory[i].present then s.frames[s.directory[i].frame] else seq(ENTRIES, e => NULL_ENTRY)
  }

  ghost predicate HoldsEntry(s: Space, i: nat)
    requires Consistent(s) && i < USER_TABLES
  {
    exists e :: 0 <= e < ENTRIES && Table(s, i)[e] != NULL_ENTRY
  }

  /** A page table exists exactly when it holds at least one entry. */
  ghost predicate Valid(s: Space)
  {
    Consistent(s) && forall i :: 0 <= i < USER_TABLES ==> (s.directory[i].present <==> HoldsEntry(s, i))
  }

  /** The entry that translates user page p, or the null entry. */
  function Lookup(s: Space, p: nat): Entry
    requires Consistent(s) && p < USER_PAGES
  {
    Table(s, p / ENTRIES)[p % ENTRIES]
  }

  /** The processor's rights on page p: both levels must grant them. */
  predicate MayWrite(s: Space, p: nat)
    requires Consistent(s) && p < USER_PAGES
  {
    Lookup(s, p).present && Lookup(s, p).writeable && s.directory[p / ENTRIES].writeable
  }

  /** The frames holding page tables; the rest of `inUse` belongs to others. */
  ghost function TableFrames(s: Space): set<nat>
    requires |s.directory| == ENTRIES
  {
    set i | 0 <= i < USER_TABLES && s.directory[i].present :: s.directory[i].frame
  }

  // ------------------------------------------------------------- single steps on values

  /** `create_pde` and storing the result: a fresh, cleared table for directory entry i. */
  function WithTable(s: Space, i: nat, frame: nat, config: Config): Space
    requires i < |s.directory| && i < |s.mapping|
  {
    s.(directory := s.directory[i := MakeEntry(frame, config.userspace, config.writeable, config.patIndex)],
       mapping := s.mapping[i := MakeEntry(frame, false, true, UNCACHEABLE)],
       frames := s.frames[frame := seq(ENTRIES, e => NULL_ENTRY)],
       inUse := s.inUse + {frame})
  }

  /** Storing one page table entry through the mapping table. */
  function WithEntry(s: Space, p: nat, entry: Entry): Space
    requires p / ENTRIES < |s.mapping| && s.mapping[p / ENTRIES].frame in s.frames
    requires |s.frames[s.mapping[p / ENTRIES].frame]| == ENTRIES
  {
    var f := s.mapping[p / ENTRIES].frame;
    s.(frames := s.frames[f := s.frames[f][p % ENTRIES := entry]])
  }

  /** Clearing directory entry i and giving its table's frame back. */
  function WithoutTable(s: Space, i: nat): Space
    requires i < |s.directory|
  {
    s.(directory := s.directory[i := NULL_ENTRY], inUse := s.inUse - {s.directory[i].frame})
  }

  lemma TableAdded(s: Space, i: nat, frame: nat, config: Config)
    requires Consistent(s) && i < USER_TABLES && !s.directory[i].present && frame !in s.inUse
    ensures var t := WithTable(s, i, frame, config);
            && Consistent(t)
            && (forall j :: 0 <= j < USER_TABLES ==> Table(t, j) == Table(s, j))
            && TableFrames(t) == TableFrames(s) + {frame} && frame !in TableFrames(s)
  {
    var t := WithTable(s, i, frame, config);
    forall j | 0 <= j < USER_TABLES
      ensures TableOk(t, j) && (j != i && s.directory[j].present ==> s.directory[j].frame != frame)
    {
      assert TableOk(s, j);
    }
    forall j, k | 0 <= j < USER_TABLES && 0 <= k < USER_TABLES && SameTable(t, j, k)
      ensures j == k
    {
      if j != i && k != i { assert SameTable(s, j, k); }
    }
    forall j | 0 <= j < USER_TABLES
      ensures Table(t, j) == Table(s, j)
    {
      assert TableOk(s, j) && TableOk(t, j);
    }
  }

  lemma EntryStored(s: Space, p: nat, entry: Entry)
    requires Consistent(s) && p < USER_PAGES && s.directory[p / ENTRIES].present
    requires entry == NULL_ENTRY || entry.present
    ensures TableOk(s, p / ENTRIES)
    ensures var t := WithEntry(s, p, entry);
            && Consistent(t) && t.directory == s.directory && t.inUse == s.inUse
            && forall q :: 0 <= q < USER_PAGES ==> Lookup(t, q) == if q == p then entry else Lookup(s, q)
  {
    var i := p / ENTRIES;
    assert TableOk(s, i);
    var t := WithEntry(s, p, entry);
    forall j | 0 <= j < USER_TABLES
      ensures TableOk(t, j) && (j != i && s.directory[j].present ==> s.directory[j].frame != s.directory[i].frame)
    {
      assert TableOk(s, j);
      assert SameTable(s, i, j) ==> i == j;
    }
    forall j, k | 0 <= j < USER_TABLES && 0 <= k < USER_TABLES && SameTable(t, j, k)
      ensures j == k
    {
      assert SameTable(s, j, k);
    }
    forall q | 0 <= q < USER_PAGES
      ensures Lookup(t, q) == if q == p then entry else Lookup(s, q)
    {
      assert TableOk(t, q / ENTRIES);
      assert q == q / ENTRIES * ENTRIES + q % ENTRIES;
    }
  }

  lemma TableDropped(s: Space, i: nat)
    requires Consistent(s) && i < USER_TABLES && s.directory[i].present && !HoldsEntry(s, i)
    ensures var t := WithoutTable(s, i);
            && Consistent(t)
            && (forall j :: 0 <= j < USER_TABLES ==> Table(t, j) == Table(s, j))
            && TableFrames(t) == TableFrames(s) - {s.directory[i].frame} && s.directory[i].frame in TableFrames(s)
  {
    var t := WithoutTable(s, i);
    forall j | 0 <= j < USER_TABLES
      ensures TableOk(t, j) && (j != i && s.directory[j].present ==> s.directory[j].frame != s.directory[i].frame)
    {
      assert TableOk(s, j);
      assert SameTable(s, i, j) ==> i == j;
    }
    forall j, k | 0 <= j < USER_TABLES && 0 <= k < USER_TABLES && SameTable(t, j, k)
      ensures j == k
    {
      assert SameTable(s, j, k);
    }
    forall j | 0 <= j < USER_TABLES
      ensures Table(t, j) == Table(s, j)
    {
      assert TableOk(s, j) && TableOk(t, j);
    }
  }

  lemma HoldsMeansLookup(s: Space, i: nat, p: nat)
    requires Consistent(s) && p < USER_PAGES && i == p / ENTRIES && Lookup(s, p) != NULL_ENTRY
    ensures HoldsEntry(s, i)
  {
  }

  /** Two spaces with the same lookups hold entries in the same tables. */
  lemma SameLookupsSameHolds(s: Space, t: Space, i: nat)
    requires Consistent(s) && Consistent(t) && i < USER_TABLES
    requires forall p :: 0 <= p < USER_PAGES && p / ENTRIES == i ==> Lookup(s, p) == Lookup(t, p)
    ensures HoldsEntry(s, i) <==> HoldsEntry(t, i)
  {
    forall e | 0 <= e < ENTRIES
      ensures Table(s, i)[e] == Table(t, i)[e]
    {
      var p := i * ENTRIES + e;
      assert p / ENTRIES == i && p % ENTRIES == e;
      assert Lookup(s, p) == Lookup(t, p);
    }
  }

  // ------------------------------------------------------------- ranges of pages

  /** Page of an address, and one past the last page of [virt, virt + size) as the page loop runs it. */
  function FirstPage(virt: nat): nat
  {
    virt / PAGE_SIZE
  }

  function EndPage(virt: nat, size: nat): nat
  {
    (virt + size + PAGE_SIZE - 1) / PAGE_SIZE
  }

  predicate UserRange(virt: nat, size: nat)
  {
    EndPage(virt, size) <= USER_PAGES
  }

  function MappedEntry(phys: nat, virt: nat, config: Config, p: nat): Entry
    requires FirstPage(virt) <= p
  {
    MakeEntry(phys / PAGE_SIZE + (p - FirstPage(virt)), config.userspace, config.writeable, config.patIndex)
  }

  /**
   * The byte at v is mapped with these rights, as far from `phys` as v is from `virt`, apart from
   * the difference of their offsets in their pages.
   */
  ghost predicate ByteMapped(s: Space, phys: nat, virt: nat, v: nat, config: Config)
    requires Consistent(s)
  {
    && v / 4096 < USER_PAGES
    && var e := Lookup(s, v / 4096);
    && e.present && e.frame * 4096 + v % 4096 == phys + (v - virt) + (virt % 4096 - phys % 4096)
    && e.user == config.userspace && e.writeable == config.writeable && e.patIndex == config.patIndex
  }

  ghost predicate ByteUnmapped(s: Space, v: nat)
    requires Consistent(s)
  {
    v / 4096 < USER_PAGES && Lookup(s, v / 4096) == NULL_ENTRY
  }

  /** The page holds no byte from `virt` to `virt + size`, and `virt` itself lies in no such page. */
  predicate PageOutside(p: nat, virt: nat, size: nat)
  {
    (p + 1) * 4096 <= virt || virt + size <= p * 4096
  }

  lemma PageOutsideMeans(p: nat, virt: nat, size: nat)
    ensures PageOutside(p, virt, size) <==> !(FirstPage(virt) <= p < EndPage(virt, size))
  {
  }

  lemma BytePage(v: nat, virt: nat, size: nat)
    requires virt <= v < virt + size
    ensures FirstPage(virt) <= v / 4096 < EndPage(virt, size)
  {
  }

  /** A range of pages that is mapped in order maps the bytes, shifted by the difference of the two offsets. */
  lemma BytesAreMapped(s: Space, phys: nat, virt: nat, size: nat, config: Config)
    requires Consistent(s) && UserRange(virt, size)
    requires forall p :: FirstPage(virt) <= p < EndPage(virt, size) ==>
                           Lookup(s, p) == MappedEntry(phys, virt, config, p)
    ensures forall v :: virt <= v < virt + size ==> ByteMapped(s, phys, virt, v, config)
  {
    hide Lookup, Consistent;
    forall v | virt <= v < virt + size
      ensures ByteMapped(s, phys, virt, v, config)
    {
      BytePage(v, virt, size);
    }
  }

  lemma BytesAreUnmapped(s: Space, virt: nat, size: nat)
    requires Consistent(s) && UserRange(virt, size)
    requires forall p :: FirstPage(virt) <= p < EndPage(virt, size) ==> Lookup(s, p) == NULL_ENTRY
    ensures forall v :: virt <= v < virt + size ==> ByteUnmapped(s, v)
  {
    hide Lookup, Consistent;
    forall v | virt <= v < virt + size
      ensures ByteUnmapped(s, v)
    {
      BytePage(v, virt, size);
    }
  }

  /** Pages outside a byte range keep their entries when those outside the page range do. */
  lemma PagesOutsideKept(s: Space, t: Space, virt: nat, size: nat)
    requires Consistent(s) && Consistent(t)
    requires forall p :: 0 <= p < USER_PAGES && !(FirstPage(virt) <= p < EndPage(virt, size)) ==>
               Lookup(t, p) == Lookup(s, p)
    ensures forall p :: 0 <= p < USER_PAGES && PageOutside(p, virt, size) ==> Lookup(t, p) == Lookup(s, p)
  {
    hide Lookup, Consistent;
    forall p | 0 <= p < USER_PAGES && PageOutside(p, virt, size)
      ensures Lookup(t, p) == Lookup(s, p)
    {
      PageOutsideMeans(p, virt, size);
    }
  }

  /** With equal offsets that is the byte asked for. */
  lemma ByteExact(s: Space, phys: nat, virt: nat, v: nat, config: Config)
    requires Consistent(s) && virt <= v && ByteMapped(s, phys, virt, v, config)
    ensures Lookup(s, v / 4096).frame * 4096 + v % 4096 == phys + (v - virt) <==> phys % 4096 == virt % 4096
  {
    hide Lookup;
  }

  class PagingSpace {
    var directory: array<Entry>
    var mapping: array<Entry>
    var frames: map<nat, seq<Entry>>
    var inUse: set<nat>

    ghost function State(): Space
      reads this, directory, mapping
    {
      Space(directory[..], mapping[..], frames, inUse)
    }

    ghost predicate Good()
      reads this, directory, mapping
    {
      directory != mapping && Valid(State())
    }

    /**
     * `create_memory_space`: an empty user half, the kernel half of the master copies, and the
     * last entries pointing at each other's table.
     */
    constructor (masterDirectory: seq<Entry>, masterMapping: seq<Entry>, directoryFrame: nat, mappingFrame: nat,
                 frames: map<nat, seq<Entry>>, inUse: set<nat>)
      requires |masterDirectory| == ENTRIES && |masterMapping| == ENTRIES
      ensures Good() && fresh(directory) && fresh(mapping) && this.frames == frames && this.inUse == inUse
      ensures forall p :: 0 <= p < USER_PAGES ==> Lookup(State(), p) == NULL_ENTRY
      ensures forall i :: 0 <= i < USER_TABLES ==> directory[i] == NULL_ENTRY
      ensures forall i :: USER_TABLES <= i < ENTRIES - 1 ==>
                directory[i] == masterDirectory[i] && mapping[i] == masterMapping[i]
      ensures directory[ENTRIES - 1] == masterDirectory[ENTRIES - 1].(frame := mappingFrame)
      ensures mapping[ENTRIES - 1] == masterMapping[ENTRIES - 1].(frame := directoryFrame)
    {
      var tables := new Entry[ENTRIES](_ => NULL_ENTRY);
      var pages := new Entry[ENTRIES](_ => NULL_ENTRY);
      var i := USER_TABLES;
      while i < ENTRIES
        invariant USER_TABLES <= i <= ENTRIES
        invariant forall j :: 0 <= j < USER_TABLES ==> tables[j] == NULL_ENTRY
        invariant forall j :: USER_TABLES <= j < i ==> tables[j] == masterDirectory[j] && pages[j] == masterMapping[j]
      {
        tables[i], pages[i] := masterDirectory[i], masterMapping[i];
        i := i + 1;
      }
      tables[ENTRIES - 1] := tables[ENTRIES - 1].(frame := mappingFrame);
      pages[ENTRIES - 1] := pages[ENTRIES - 1].(frame := directoryFrame);
      directory, mapping, this.frames, this.inUse := tables, pages, frames, inUse;
      new;
      EmptyUserHalf(State());
    }

    /** The physical allocator's part in `create_pde`: some frame nobody uses. */
    method AllocFrame() returns (frame: nat)
      ensures frame !in inUse
    {
      frame := 0;
      ghost var below: set<nat> := {};
      while frame in inUse
        invariant below <= inUse && |below| == frame && forall f :: f in below <==> 0 <= f < frame
        decreases |inUse| - frame
      {
        SubsetSize(below + {frame}, inUse);
        below := below + {frame};
        frame := frame + 1;
      }
    }

    /** The body of `map`'s page loop. */
    method MapPage(p: nat, frame: nat, config: Config)
      requires Good() && p < USER_PAGES && !Lookup(State(), p).present
      requires config.userspace && directory[p / ENTRIES].present ==> directory[p / ENTRIES].user
      modifies this, directory, mapping
      ensures Good() && directory == old(directory) && mapping == old(mapping)
      ensures forall q :: 0 <= q < USER_PAGES && q != p ==> Lookup(State(), q) == old(Lookup(State(), q))
      ensures Lookup(State(), p) == MakeEntry(frame, config.userspace, config.writeable, config.patIndex)
      ensures forall j :: 0 <= j < ENTRIES && (j != p / ENTRIES || old(directory[j]).present) ==>
                directory[j] == old(directory[j])
      ensures !old(directory[p / ENTRIES]).present ==>
                directory[p / ENTRIES].writeable == config.writeable && directory[p / ENTRIES].user == config.userspace
      ensures directory[p / ENTRIES].present
      ensures inUse - TableFrames(State()) == old(inUse - TableFrames(State()))
    {
      hide Lookup, Table, HoldsEntry;
      var i := p / ENTRIES;
      ghost var before := State();
      assert TableOk(before, i);
      if directory[i] == NULL_ENTRY {
        var table := AllocFrame();
        TableAdded(before, i, table, config);
        inUse := inUse + {table};
        mapping[i] := MakeEntry(table, false, true, UNCACHEABLE);
        frames := frames[table := seq(ENTRIES, e => NULL_ENTRY)];
        directory[i] := MakeEntry(table, config.userspace, config.writeable, config.patIndex);
        assert State() == WithTable(before, i, table, config);
      }
      ghost var middle := State();
      SameTablesSameLookups(middle, before);
      EntryStored(middle, p, MakeEntry(frame, config.userspace, config.writeable, config.patIndex));
      StorePte(p, MakeEntry(frame, config.userspace, config.writeable, config.patIndex));
      ValidAfterStore(before, State(), p);
    }

    /** `map` on a user range. */
    method Map(phys: nat, virt: nat, size: nat, config: Config)
      requires Good() && UserRange(virt, size)
      requires forall p :: FirstPage(virt) <= p < EndPage(virt, size) ==> !Lookup(State(), p).present
      requires config.userspace ==> forall p :: FirstPage(virt) <= p < EndPage(virt, size) ==>
                 directory[p / ENTRIES].present ==> directory[p / ENTRIES].user
      modifies this, directory, mapping
      ensures Good() && directory == old(directory) && mapping == old(mapping)
      ensures forall p :: FirstPage(virt) <= p < EndPage(virt, size) ==>
                Lookup(State(), p) == MappedEntry(phys, virt, config, p)
      ensures forall p :: 0 <= p < USER_PAGES && !(FirstPage(virt) <= p < EndPage(virt, size)) ==>
                Lookup(State(), p) == old(Lookup(State(), p))
      ensures forall j :: 0 <= j < ENTRIES && old(directory[j]).present ==> directory[j] == old(directory[j])
      ensures forall j :: 0 <= j < USER_TABLES && !old(directory[j]).present && directory[j].present ==>
                directory[j].writeable == config.writeable && directory[j].user == config.userspace
      // a page can be written exactly when that was asked for and an older directory entry does not forbid it
      ensures forall p :: FirstPage(virt) <= p < EndPage(virt, size) ==>
                (MayWrite(State(), p) <==>
                 config.writeable && (old(directory[p / ENTRIES]).present ==> old(directory[p / ENTRIES]).writeable))
      ensures inUse - TableFrames(State()) == old(inUse - TableFrames(State()))
      // in bytes: every byte asked for is mapped, to its own physical byte if both addresses have the same
      // offset in their page, and no page outside the range changes
      ensures forall v :: virt <= v < virt + size ==> ByteMapped(State(), phys, virt, v, config)
      ensures forall p :: 0 <= p < USER_PAGES && PageOutside(p, virt, size) ==>
                Lookup(State(), p) == old(Lookup(State(), p))
    {
      hide Lookup, TableFrames, Table, HoldsEntry, TableOk, SameTable, ByteMapped, PageOutside;
      ghost var before := State();
      var pageLimit := EndPage(virt, size) * PAGE_SIZE;
      var v, next := virt, phys;
      ghost var n := 0;
      while v < pageLimit
        invariant v == virt + n * PAGE_SIZE && next == phys + n * PAGE_SIZE
        invariant n == 0 || FirstPage(virt) + n <= EndPage(virt, size)
        invariant Good() && directory == old(directory) && mapping == old(mapping)
        invariant forall p :: FirstPage(virt) <= p < FirstPage(virt) + n ==>
                  Lookup(State(), p) == MappedEntry(phys, virt, config, p)
        invariant forall p :: 0 <= p < USER_PAGES && !(FirstPage(virt) <= p < FirstPage(virt) + n) ==>
                    Lookup(State(), p) == old(Lookup(State(), p))
        invariant forall j :: 0 <= j < ENTRIES && old(directory[j]).present ==> directory[j] == old(directory[j])
        invariant forall j :: 0 <= j < USER_TABLES && !old(directory[j]).present && directory[j].present ==>
                    directory[j].writeable == config.writeable && directory[j].user == config.userspace
        invariant inUse - TableFrames(State()) == old(inUse - TableFrames(State()))
        decreases pageLimit - v
      {
        PageOfStep(virt, phys, n);
        PageInLimit(virt, size, n);
        MapPage(v / PAGE_SIZE, next / PAGE_SIZE, config);
        next := next + PAGE_SIZE;
        v := v + PAGE_SIZE;
        n := n + 1;
      }
      LimitReached(virt, size, n);
      forall p | FirstPage(virt) <= p < EndPage(virt, size)
        ensures directory[p / ENTRIES].present
      {
        PresentTable(State(), p);
      }
      BytesAreMapped(State(), phys, virt, size, config);
      PagesOutsideKept(before, State(), virt, size);
    }

    /** The body of `unmap`'s page loop, without the list of tables to look at. */
    method UnmapPage(p: nat)
      requires directory != mapping && Consistent(State()) && p < USER_PAGES && Lookup(State(), p).present
      modifies `frames
      ensures Consistent(State()) && Lookup(State(), p) == NULL_ENTRY
      ensures forall q :: 0 <= q < USER_PAGES && q != p ==> Lookup(State(), q) == old(Lookup(State(), q))
    {
      EntryStored(State(), p, NULL_ENTRY);
      StorePte(p, NULL_ENTRY);
    }

    /** The emptiness scan of one page table. */
    method TableIsEmpty(i: nat) returns (empty: bool)
      requires directory != mapping && Consistent(State()) && i < USER_TABLES && directory[i].present
      ensures empty <==> !HoldsEntry(State(), i)
    {
      assert TableOk(State(), i);
      var table := frames[mapping[i].frame];
      var e := 0;
      while e < ENTRIES
        invariant 0 <= e <= ENTRIES
        invariant forall k :: 0 <= k < e ==> table[k] == NULL_ENTRY
      {
        if table[e] != NULL_ENTRY {
          assert Table(State(), i)[e] != NULL_ENTRY;
          return false;
        }
        e := e + 1;
      }
      return true;
    }

    method DropTable(i: nat)
      requires directory != mapping && Consistent(State())
      requires i < USER_TABLES && directory[i].present && !HoldsEntry(State(), i)
      modifies `inUse, directory
      ensures Consistent(State()) && directory[i] == NULL_ENTRY
      ensures forall j :: 0 <= j < ENTRIES && j != i ==> directory[j] == old(directory[j])
      ensures forall j :: 0 <= j < USER_TABLES ==> Table(State(), j) == old(Table(State(), j))
      ensures inUse - TableFrames(State()) == old(inUse - TableFrames(State()))
    {
      ghost var before := State();
      TableDropped(before, i);
      var frame := directory[i].frame;
      directory[i] := NULL_ENTRY;
      inUse := inUse - {frame};
      assert State() == WithoutTable(before, i);
    }

    /** `unmap`'s second loop, for one table. */
    method ReclaimIfEmpty(i: nat)
      requires directory != mapping && Consistent(State()) && i < USER_TABLES && directory[i].present
      modifies `inUse, directory
      ensures Consistent(State()) && (directory[i].present <==> HoldsEntry(State(), i))
      ensures directory[i].present ==> directory[i] == old(directory[i])
      ensures forall j :: 0 <= j < ENTRIES && j != i ==> directory[j] == old(directory[j])
      ensures forall j :: 0 <= j < USER_TABLES ==> Table(State(), j) == old(Table(State(), j))
      ensures forall j :: 0 <= j < USER_TABLES ==> (HoldsEntry(State(), j) <==> old(HoldsEntry(State(), j)))
      ensures inUse - TableFrames(State()) == old(inUse - TableFrames(State()))
    {
      hide TableFrames;
      ghost var before := State();
      var empty := TableIsEmpty(i);
      if empty {
        DropTable(i);
      }
      SameTablesSameHolds(before, State());
    }

    /** `unmap` of a mapped user range. */
    method Unmap(virt: nat, size: nat)
      requires Good() && UserRange(virt, size)
      requires forall p :: FirstPage(virt) <= p < EndPage(virt, size) ==> Lookup(State(), p).present
      modifies this, directory
      ensures Good() && directory == old(directory) && mapping == old(mapping)
      ensures forall p :: FirstPage(virt) <= p < EndPage(virt, size) ==> Lookup(State(), p) == NULL_ENTRY
      ensures forall p :: 0 <= p < USER_PAGES && !(FirstPage(virt) <= p < EndPage(virt, size)) ==>
                Lookup(State(), p) == old(Lookup(State(), p))
      ensures forall j :: 0 <= j < ENTRIES && directory[j].present ==> directory[j] == old(directory[j])
      ensures inUse - TableFrames(State()) == old(inUse - TableFrames(State()))
      // in bytes: no byte of the range is mapped any more, and no page outside it changes
      ensures forall v :: virt <= v < virt + size ==> ByteUnmapped(State(), v)
      ensures forall p :: 0 <= p < USER_PAGES && PageOutside(p, virt, size) ==>
                Lookup(State(), p) == old(Lookup(State(), p))
    {
      hide Lookup, TableFrames, HoldsEntry, Table, ByteUnmapped, PageOutside;
      ghost var before := State();
      var toCheck := ClearRange(virt, size);
      ghost var cleared := State();
      SameDirectorySameFrames(before, cleared);
      var k := 0;
      while k < |toCheck|
        invariant 0 <= k <= |toCheck| && directory == old(directory) && mapping == old(mapping)
        invariant directory != mapping && Consistent(State())
        invariant forall j :: 0 <= j < USER_TABLES ==> Table(State(), j) == Table(cleared, j)
        invariant forall j :: 0 <= j < USER_TABLES && j !in toCheck[..k] ==> directory[j] == cleared.directory[j]
        invariant forall j :: 0 <= j < USER_TABLES && j in toCheck[..k] ==>
                  (directory[j].present <==> HoldsEntry(State(), j))
        invariant forall j :: 0 <= j < ENTRIES && directory[j].present ==> directory[j] == old(directory[j])
        invariant inUse - TableFrames(State()) == old(inUse - TableFrames(State()))
      {
        var i := toCheck[k];
        assert i in toCheck && i !in toCheck[..k];
        ReclaimIfEmpty(i);
        assert toCheck[..k + 1] == toCheck[..k] + [i];
        k := k + 1;
      }
      assert toCheck[..k] == toCheck;
      SameTablesSameLookups(State(), cleared);
      SameTablesSameHolds(State(), cleared);
      BytesAreUnmapped(State(), virt, size);
      PagesOutsideKept(before, State(), virt, size);
    }

    /** `unmap`'s first loop: null the entries and collect the tables that may have become empty. */
    method ClearRange(virt: nat, size: nat) returns (toCheck: seq<nat>)
      requires Good() && UserRange(virt, size)
      requires forall p :: FirstPage(virt) <= p < EndPage(virt, size) ==> Lookup(State(), p).present
      modifies `frames
      ensures Consistent(State())
      ensures forall p :: FirstPage(virt) <= p < EndPage(virt, size) ==> Lookup(State(), p) == NULL_ENTRY
      ensures forall p :: 0 <= p < USER_PAGES && !(FirstPage(virt) <= p < EndPage(virt, size)) ==>
                Lookup(State(), p) == old(Lookup(State(), p))
      ensures forall a, b :: 0 <= a < b < |toCheck| ==> toCheck[a] < toCheck[b]
      ensures forall i :: i in toCheck ==> i < USER_TABLES && directory[i].present
      ensures forall i :: 0 <= i < USER_TABLES && i !in toCheck ==> (directory[i].present <==> HoldsEntry(State(), i))
    {
      hide Lookup, TableFrames, Table, HoldsEntry, TableOk, SameTable;
      ghost var before := State();
      var pageLimit := EndPage(virt, size) * PAGE_SIZE;
      toCheck := [];
      var current := ENTRIES;
      var v := virt;
      ghost var n := 0;
      while v < pageLimit
        invariant v == virt + n * PAGE_SIZE
        invariant n == 0 || FirstPage(virt) + n <= EndPage(virt, size)
        invariant Consistent(State())
        invariant forall p :: FirstPage(virt) <= p < FirstPage(virt) + n ==> Lookup(State(), p) == NULL_ENTRY
        invariant forall p :: 0 <= p < USER_PAGES && !(FirstPage(virt) <= p < FirstPage(virt) + n) ==>
                  Lookup(State(), p) == Lookup(before, p)
        invariant forall a, b :: 0 <= a < b < |toCheck| ==> toCheck[a] < toCheck[b]
        invariant forall i :: i in toCheck ==> i < USER_TABLES && directory[i].present
        invariant if n == 0 then toCheck == [] && current == ENTRIES
                  else toCheck != [] && current == toCheck[|toCheck| - 1] == (FirstPage(virt) + n - 1) / ENTRIES
        invariant forall p :: FirstPage(virt) <= p < FirstPage(virt) + n ==> p / ENTRIES in toCheck
        decreases pageLimit - v
      {
        PageOfStep(virt, 0, n);
        PageInLimit(virt, size, n);
        var i := v / PAGE_SIZE / ENTRIES;
        PresentTable(State(), v / PAGE_SIZE);
        UnmapPage(v / PAGE_SIZE);
        if current != i {
          toCheck := toCheck + [i];
          current := i;
        }
        v := v + PAGE_SIZE;
        n := n + 1;
      }
      LimitReached(virt, size, n);
      UncheckedKeep(before, State(), virt, size, toCheck);
    }

    /** `as_physical`: the walk through the recursive mapping of the page tables. */
    method AsPhysical(virt: nat) returns (phys: nat)
      requires Good() && virt / PAGE_SIZE < USER_PAGES && Lookup(State(), virt / PAGE_SIZE).present
      ensures phys == Lookup(State(), virt / PAGE_SIZE).frame * PAGE_SIZE + virt % PAGE_SIZE
    {
      var p := virt / PAGE_SIZE;
      assert TableOk(State(), p / ENTRIES);
      phys := frames[mapping[p / ENTRIES].frame][p % ENTRIES].frame * PAGE_SIZE + virt % PAGE_SIZE;
    }

    /**
     * Mapping a range and unmapping it again restores every translation, every directory entry and
     * the frames in use.
     */
    method MapThenUnmap(phys: nat, virt: nat, size: nat, config: Config)
      requires Good() && UserRange(virt, size)
      requires forall p :: FirstPage(virt) <= p < EndPage(virt, size) ==> !Lookup(State(), p).present
      requires config.userspace ==> forall p :: FirstPage(virt) <= p < EndPage(virt, size) ==>
                 directory[p / ENTRIES].present ==> directory[p / ENTRIES].user
      modifies this, directory, mapping
      ensures Good()
      ensures forall p :: 0 <= p < USER_PAGES ==> Lookup(State(), p) == old(Lookup(State(), p))
      ensures forall j :: 0 <= j < USER_TABLES ==> directory[j] == old(directory[j])
      ensures inUse == old(inUse)
    {
      hide Lookup;
      ghost var before := State();
      AbsentIsNull(before);
      Map(phys, virt, size, config);
      Unmap(virt, size);
      RestoredTables(before, State());
    }

    /** One write to a page table, found through the mapping table. */
    method StorePte(p: nat, entry: Entry)
      requires directory != mapping && Consistent(State()) && p < USER_PAGES && directory[p / ENTRIES].present
      requires TableOk(State(), p / ENTRIES)
      modifies `frames
      ensures State() == WithEntry(old(State()), p, entry)
    {
      var f := mapping[p / ENTRIES].frame;
      frames := frames[f := frames[f][p % ENTRIES := entry]];
    }
  }

  lemma SubsetSize(a: set<nat>, b: set<nat>)
    requires a <= b
    ensures |a| <= |b|
  {
    if a != {} {
      var x :| x in a;
      SubsetSize(a - {x}, b - {x});
    }
  }

  /** After storing a present entry for p the table of p is the only one whose contents changed, and it holds p. */
  lemma ValidAfterStore(s: Space, t: Space, p: nat)
    requires Valid(s) && Consistent(t) && p < USER_PAGES && t.directory[p / ENTRIES].present
    requires forall j :: 0 <= j < USER_TABLES && j != p / ENTRIES ==> t.directory[j] == s.directory[j]
    requires forall q :: 0 <= q < USER_PAGES && q != p ==> Lookup(t, q) == Lookup(s, q)
    requires Lookup(t, p) != NULL_ENTRY
    ensures Valid(t)
  {
    forall i | 0 <= i < USER_TABLES
      ensures t.directory[i].present <==> HoldsEntry(t, i)
    {
      if i == p / ENTRIES {
        HoldsMeansLookup(t, i, p);
      } else {
        SameLookupsSameHolds(s, t, i);
      }
    }
  }

  lemma PageOfStep(virt: nat, phys: nat, n: nat)
    ensures (virt + n * PAGE_SIZE) / PAGE_SIZE == FirstPage(virt) + n
    ensures (phys + n * PAGE_SIZE) / PAGE_SIZE == phys / PAGE_SIZE + n
  {
  }

  lemma PageInLimit(virt: nat, size: nat, n: nat)
    requires virt + n * PAGE_SIZE < EndPage(virt, size) * PAGE_SIZE
    ensures FirstPage(virt) + n < EndPage(virt, size)
  {
  }

  lemma LimitReached(virt: nat, size: nat, n: nat)
    requires virt + n * PAGE_SIZE >= EndPage(virt, size) * PAGE_SIZE
    ensures EndPage(virt, size) <= FirstPage(virt) + n
  {
  }

  lemma PresentTable(s: Space, p: nat)
    requires Consistent(s) && p < USER_PAGES && Lookup(s, p).present
    ensures s.directory[p / ENTRIES].present
  {
  }

  lemma SameTablesSameHolds(s: Space, t: Space)
    requires Consistent(s) && Consistent(t)
    requires forall j :: 0 <= j < USER_TABLES ==> Table(s, j) == Table(t, j)
    ensures forall j :: 0 <= j < USER_TABLES ==> (HoldsEntry(s, j) <==> HoldsEntry(t, j))
  {
  }

  lemma SameTablesSameLookups(s: Space, t: Space)
    requires Consistent(s) && Consistent(t)
    requires forall j :: 0 <= j < USER_TABLES ==> Table(s, j) == Table(t, j)
    ensures forall p :: 0 <= p < USER_PAGES ==> Lookup(s, p) == Lookup(t, p)
  {
  }

  /** A table none of whose pages was unmapped still holds an entry exactly when it exists. */
  lemma UncheckedKeep(s: Space, t: Space, virt: nat, size: nat, toCheck: seq<nat>)
    requires Valid(s) && Consistent(t) && UserRange(virt, size) && t.directory == s.directory
    requires forall p :: 0 <= p < USER_PAGES && !(FirstPage(virt) <= p < EndPage(virt, size)) ==>
              Lookup(t, p) == Lookup(s, p)
    requires forall p :: FirstPage(virt) <= p < EndPage(virt, size) ==> p / ENTRIES in toCheck
    ensures forall i :: 0 <= i < USER_TABLES && i !in toCheck ==> (t.directory[i].present <==> HoldsEntry(t, i))
  {
    forall i | 0 <= i < USER_TABLES && i !in toCheck
      ensures t.directory[i].present <==> HoldsEntry(t, i)
    {
      SameLookupsSameHolds(s, t, i);
    }
  }

  lemma AbsentIsNull(s: Space)
    requires Consistent(s)
    ensures forall p :: 0 <= p < USER_PAGES && !Lookup(s, p).present ==> Lookup(s, p) == NULL_ENTRY
  {
    forall p | 0 <= p < USER_PAGES && !Lookup(s, p).present
      ensures Lookup(s, p) == NULL_ENTRY
    {
      assert TableOk(s, p / ENTRIES);
    }
  }

  /** Equal lookups leave no choice for the directory: tables exist exactly where entries are. */
  lemma RestoredTables(s: Space, t: Space)
    requires Valid(s) && Valid(t)
    requires forall p :: 0 <= p < USER_PAGES ==> Lookup(s, p) == Lookup(t, p)
    requires forall j :: 0 <= j < USER_TABLES && s.directory[j].present && t.directory[j].present ==>
              t.directory[j] == s.directory[j]
    requires t.inUse - TableFrames(t) == s.inUse - TableFrames(s)
    ensures forall j :: 0 <= j < USER_TABLES ==> t.directory[j] == s.directory[j]
    ensures t.inUse == s.inUse
  {
    forall j | 0 <= j < USER_TABLES
      ensures t.directory[j] == s.directory[j]
    {
      SameLookupsSameHolds(s, t, j);
      assert TableOk(s, j) && TableOk(t, j);
    }
    assert TableFrames(s) == TableFrames(t);
    TableFramesInUse(s);
    TableFramesInUse(t);
    assert s.inUse == (s.inUse - TableFrames(s)) + TableFrames(s);
    assert t.inUse == (t.inUse - TableFrames(t)) + TableFrames(t);
  }

  lemma SameDirectorySameFrames(s: Space, t: Space)
    requires |s.directory| == ENTRIES && s.directory == t.directory
    ensures TableFrames(s) == TableFrames(t)
  {
  }

  lemma TableFramesInUse(s: Space)
    requires Consistent(s)
    ensures TableFrames(s) <= s.inUse
  {
    forall f | f in TableFrames(s)
      ensures f in s.inUse
    {
      var i :| 0 <= i < USER_TABLES && s.directory[i].present && s.directory[i].frame == f;
      assert TableOk(s, i);
    }
  }

  /** Byte addresses translate to phys + (v - virt) exactly when both addresses have the same offset in their page. */
  lemma TranslationExactIff(phys: nat, virt: nat, v: nat, config: Config)
    requires FirstPage(virt) <= v / PAGE_SIZE
    ensures MappedEntry(phys, virt, config, v / PAGE_SIZE).frame * PAGE_SIZE + v % PAGE_SIZE == phys + v - virt
            <==> phys % PAGE_SIZE == virt % PAGE_SIZE
  {
  }

  /** A byte mapped from virtual address 1 to physical address 4096 is found at 4097. */
  lemma TranslationExample(config: Config)
    ensures MappedEntry(PAGE_SIZE, 1, config, FirstPage(1)).frame * PAGE_SIZE + 1 % PAGE_SIZE != PAGE_SIZE + 1 - 1
  {
    TranslationExactIff(PAGE_SIZE, 1, 1, config);
  }

  /** A page table that was created for a read-only page takes write access from every page mapped into it later. */
  method WriteExample(master: seq<Entry>) returns (space: PagingSpace)
    requires |master| == ENTRIES
    ensures space.Good() && Lookup(space.State(), 1) == MakeEntry(8, true, true, 0) && !MayWrite(space.State(), 1)
  {
    hide Lookup, TableFrames, HoldsEntry, TableOk, SameTable;
    space := new PagingSpace(master, master, 0, 0, map[], {});
    PagesOf();
    space.Map(7 * PAGE_SIZE, 0, PAGE_SIZE, Config(false, true, 0));
    PresentTable(space.State(), 0);
    assert !space.directory[0].writeable;
    space.Map(8 * PAGE_SIZE, PAGE_SIZE, PAGE_SIZE, Config(true, true, 0));
  }

  lemma PagesOf()
    ensures FirstPage(0) == 0 && EndPage(0, PAGE_SIZE) == 1
    ensures FirstPage(PAGE_SIZE) == 1 && EndPage(PAGE_SIZE, PAGE_SIZE) == 2
    ensures 0 / ENTRIES == 0 && 1 / ENTRIES == 0 && 7 * PAGE_SIZE / PAGE_SIZE == 7 && 8 * PAGE_SIZE / PAGE_SIZE == 8
  {
  }

  lemma EmptyUserHalf(s: Space)
    requires |s.directory| == ENTRIES && |s.mapping| == ENTRIES
    requires forall i :: 0 <= i < USER_TABLES ==> s.directory[i] == NULL_ENTRY
    ensures Valid(s) && forall p :: 0 <= p < USER_PAGES ==> Lookup(s, p) == NULL_ENTRY
  {
  }
}
