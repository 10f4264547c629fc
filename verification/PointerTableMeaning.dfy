/** What the pointer-table scan finds, said with section headers and the little-endian words of the file. */
module PointerTableMeaning {
  import opened Prelude
  import opened ByteStrings
  import opened ElfModel
  import opened Sorting
  import opened PointerTables

  /** Flags: SHF_ALLOC is 0x2, SHF_EXECINSTR 0x4; section type 8 holds no file bytes. */
  ghost predicate Stores(elf: ElfImage, s: Section) {
    s in elf.sections && s.flags / 2 % 2 == 1 && s.flags / 4 % 2 == 0 && s.size > 0 && s.stype != 8
  }

  /** The aligned address `a` lies in the section with all four bytes, and the file holds `v` there. */
  ghost predicate Holds(elf: ElfImage, s: Section, a: int, v: int) {
    && a % 4 == 0 && s.addr <= a && a + 4 <= s.addr + s.size
    && var p := s.offset + (a - s.addr);
       0 <= p && p + 4 <= |elf.rawData| && v == LE(elf.rawData[p..p + 4])
  }

  ghost predicate PointsIntoImage(elf: ElfImage, v: int) {
    exists t :: t in elf.sections && t.flags / 2 % 2 == 1 && t.size > 0 && t.addr <= v < t.addr + t.size
  }

  /** A slot outside the ranges whose word `v` is the address of something in the image. */
  ghost predicate PointerAt(c: Context, s: Section, ranges: seq<(int, int)>, a: int, v: int) {
    && Holds(c.elf, s, a, v) && PointsIntoImage(c.elf, v)
    && forall range :: range in ranges ==> !(range.0 <= a < range.1)
  }

  ghost predicate NoPointerAt(c: Context, s: Section, ranges: seq<(int, int)>, a: int) {
    forall v :: !PointerAt(c, s, ranges, a, v)
  }

  /** `n` pointers in a row with no pointer directly before or after them. */
  ghost predicate MaximalRun(c: Context, s: Section, ranges: seq<(int, int)>, a: int, words: seq<int>) {
    && (forall k :: 0 <= k < |words| ==> PointerAt(c, s, ranges, a + 4 * k, words[k]))
    && NoPointerAt(c, s, ranges, a - 4) && NoPointerAt(c, s, ranges, a + 4 * |words|)
  }

  ghost predicate Known(c: Context, v: int) {
    v in c.functionTargets || v in c.knownData
  }

  /** Three or more slots of which one is relocated or two hold known addresses, or two or more slots
      that are all relocated. */
  ghost predicate Convincing(c: Context, a: int, words: seq<int>) {
    || (|words| >= 3
        && ((exists k :: 0 <= k < |words| && Relocated(c, a, k))
            || exists i, j :: 0 <= i < j < |words| && Known(c, words[i]) && Known(c, words[j])))
    || (|words| >= 2 && forall k :: 0 <= k < |words| ==> Relocated(c, a, k))
  }

  ghost predicate Relocated(c: Context, a: int, k: int) {
    a + 4 * k in c.relocationSlots
  }

  /** A table stands for a run: its place, its length, and what all its words have in common. */
  ghost predicate Describes(c: Context, t: Table, words: seq<int>) {
    && t.count == |words|
    && (t.allFunctions <==> forall k :: 0 <= k < |words| ==> words[k] in c.functionTargets)
    && t.confidence == if forall k :: 0 <= k < |words| ==> Relocated(c, t.address, k) && Known(c, words[k])
                       then 1.0 else 0.90
  }

  /** The tables are the convincing maximal runs of the storage sections outside `seeded`, each once and in
      address order. */
  ghost predicate FindsRuns(c: Context, seeded: seq<(int, int)>, tables: seq<Table>) {
    && (forall i :: 0 <= i < |tables| ==> Stores(c.elf, tables[i].section) && FoundRun(c, seeded, tables[i]))
    && (forall s, a, words :: Stores(c.elf, s) && MaximalRun(c, s, seeded, a, words) && Convincing(c, a, words) ==>
          exists i :: 0 <= i < |tables| && tables[i].section == s && tables[i].address == a
                      && Describes(c, tables[i], words))
    && (forall i, j :: 0 <= i < j < |tables| ==> tables[i].End() <= tables[j].address)
  }

  ghost predicate FoundRun(c: Context, seeded: seq<(int, int)>, t: Table) {
    exists words :: MaximalRun(c, t.section, seeded, t.address, words) && Convincing(c, t.address, words)
                    && Describes(c, t, words)
  }

  /** Every slot of every table has a leaf, and every leaf targets the file's word at its slot. */
  ghost predicate LeavesTarget(c: Context, tables: seq<Table>, leaves: map<int, Leaf>) {
    && (forall i, a :: 0 <= i < |tables| && tables[i].HasSlot(a) ==> a in leaves)
    && (forall a :: a in leaves ==> exists i :: 0 <= i < |tables| && LeafTargets(c, tables[i], a, leaves[a]))
  }

  ghost predicate LeafTargets(c: Context, t: Table, a: int, leaf: Leaf) {
    && t.address <= a < t.address + 4 * t.count && (a - t.address) % 4 == 0
    && Holds(c.elf, t.section, a, leaf.target)
    && leaf.address == a && leaf.section == t.section.name
    && leaf.isFunction == (leaf.target in c.functionTargets) && leaf.relocationBacked == (a in c.relocationSlots)
    && leaf.confidence == if a in c.relocationSlots && Known(c, leaf.target) then 1.0 else 0.90
  }

  // ---- Words and entries ----

  lemma SafeWordIff(elf: ElfImage, s: Section, a: int, v: int)
    ensures SafeWord(elf, s, a) == Some(v) <==> Holds(elf, s, a, v)
  {
    hide LE;
  }

  lemma MappedIff(elf: ElfImage, v: int)
    ensures Mapped(elf, v) <==> PointsIntoImage(elf, v)
  {
    if PointsIntoImage(elf, v) {
      var t :| t in elf.sections && t.flags / 2 % 2 == 1 && t.size > 0 && t.addr <= v < t.addr + t.size;
      var i :| 0 <= i < |elf.sections| && elf.sections[i] == t;
      assert elf.sections[i].Allocated();
    }
  }

  lemma InsideIff(a: int, ranges: seq<(int, int)>)
    ensures Inside(a, ranges) <==> exists range :: range in ranges && range.0 <= a < range.1
  {
  }

  lemma EntryIff(c: Context, s: Section, ranges: seq<(int, int)>, a: int)
    ensures IsEntry(c, s, ranges, a) ==> PointerAt(c, s, ranges, a, SafeWord(c.elf, s, a).value)
    ensures forall v :: PointerAt(c, s, ranges, a, v) ==> IsEntry(c, s, ranges, a) && SafeWord(c.elf, s, a) == Some(v)
    ensures IsEntry(c, s, ranges, a) <==> !NoPointerAt(c, s, ranges, a)
  {
    forall v ensures SafeWord(c.elf, s, a) == Some(v) <==> Holds(c.elf, s, a, v) {
      SafeWordIff(c.elf, s, a, v);
    }
    forall v ensures Mapped(c.elf, v) <==> PointsIntoImage(c.elf, v) {
      MappedIff(c.elf, v);
    }
    InsideIff(a, ranges);
    hide SafeWord, Holds, Mapped, PointsIntoImage, Inside;
  }

  // ---- Runs ----

  function WordsOf(run: seq<(int, int)>): (words: seq<int>)
    ensures |words| == |run| && forall k :: 0 <= k < |run| ==> words[k] == run[k].1
  {
    seq(|run|, k requires 0 <= k < |run| => run[k].1)
  }

  /** The run that starts at `a` is the only maximal run there. */
  lemma StartedRun(c: Context, s: Section, ranges: seq<(int, int)>, a: int)
    requires StartsRun(c, s, ranges, a)
    ensures MaximalRun(c, s, ranges, a, WordsOf(RunFrom(c, s, ranges, a)))
  {
    hide *;
    var run := RunFrom(c, s, ranges, a);
    SlotBefore(c, s, ranges, a);
    RunIsMaximal(c, s, ranges, a);
    EntryIff(c, s, ranges, a - 4);
    EntryIff(c, s, ranges, a + 4 * |run|);
    forall k | 0 <= k < |run| ensures PointerAt(c, s, ranges, a + 4 * k, WordsOf(run)[k]) {
      EntryIff(c, s, ranges, a + 4 * k);
    }
    RunOfPointers(c, s, ranges, a, WordsOf(run));
  }

  lemma RunOfPointers(c: Context, s: Section, ranges: seq<(int, int)>, a: int, words: seq<int>)
    requires forall k :: 0 <= k < |words| ==> PointerAt(c, s, ranges, a + 4 * k, words[k])
    requires NoPointerAt(c, s, ranges, a - 4) && NoPointerAt(c, s, ranges, a + 4 * |words|)
    ensures MaximalRun(c, s, ranges, a, words)
  {
    hide PointerAt, NoPointerAt;
  }

  lemma SlotBefore(c: Context, s: Section, ranges: seq<(int, int)>, a: int)
    requires StartsRun(c, s, ranges, a)
    ensures !IsEntry(c, s, ranges, a - 4)
  {
    hide Inside, Mapped;
  }

  lemma MaximalRunStarts(c: Context, s: Section, ranges: seq<(int, int)>, a: int, words: seq<int>)
    requires MaximalRun(c, s, ranges, a, words) && words != []
    ensures StartsRun(c, s, ranges, a) && WordsOf(RunFrom(c, s, ranges, a)) == words
  {
    hide PointerAt, NoPointerAt, IsEntry, RunFrom, SafeWord;
    EntryIff(c, s, ranges, a - 4);
    EntryIff(c, s, ranges, a);
    assert PointerAt(c, s, ranges, a + 4 * 0, words[0]);
    EntryOnGrid(c, s, ranges, a);
    RunIsMaximal(c, s, ranges, a);
    var run := RunFrom(c, s, ranges, a);
    forall k: nat | k < |words| ensures IsEntry(c, s, ranges, a + 4 * k) && SafeWord(c.elf, s, a + 4 * k) == Some(words[k]) {
      assert PointerAt(c, s, ranges, a + 4 * k, words[k]);
      EntryIff(c, s, ranges, a + 4 * k);
    }
    EntryIff(c, s, ranges, a + 4 * |words|);
    assert |run| < |words| ==> IsEntry(c, s, ranges, a + 4 * |run|);
    assert |words| < |run| ==> IsEntry(c, s, ranges, a + 4 * |words|);
  }

  lemma EntryOnGrid(c: Context, s: Section, ranges: seq<(int, int)>, a: int)
    requires IsEntry(c, s, ranges, a)
    ensures a % 4 == 0 && FirstSlot(s) <= a
  {
    hide Inside, Mapped;
  }

  // ---- Counting ----

  lemma {:induction false} RelocationsCounted(c: Context, run: seq<(int, int)>)
    ensures RelocationCount(c, run) >= 1 <==> exists k :: 0 <= k < |run| && run[k].0 in c.relocationSlots
    ensures RelocationCount(c, run) == |run| <==> forall k :: 0 <= k < |run| ==> run[k].0 in c.relocationSlots
    decreases |run|
  {
    if run != [] {
      RelocationsCounted(c, run[1..]);
      CountsBounded(c, run[1..]);
      assert forall k :: 0 <= k < |run| - 1 ==> run[1..][k] == run[k + 1];
      assert forall k :: 1 <= k < |run| ==> run[k] == run[1..][k - 1];
    }
  }

  lemma {:induction false} IdentitiesCounted(c: Context, run: seq<(int, int)>)
    ensures IdentityCount(c, run) >= 1 <==> exists k :: 0 <= k < |run| && Known(c, run[k].1)
    ensures IdentityCount(c, run) >= 2
       <==> exists i, j :: 0 <= i < j < |run| && Known(c, run[i].1) && Known(c, run[j].1)
    ensures IdentityCount(c, run) == |run| <==> forall k :: 0 <= k < |run| ==> Known(c, run[k].1)
    decreases |run|
  {
    if run != [] {
      var rest := run[1..];
      IdentitiesCounted(c, rest);
      CountsBounded(c, rest);
      hide Known;
      assert forall k :: 0 <= k < |rest| ==> rest[k] == run[k + 1];
      if i, j :| 0 <= i < j < |run| && Known(c, run[i].1) && Known(c, run[j].1) {
        assert run[j] == rest[j - 1];
        assert i > 0 ==> run[i] == rest[i - 1];
      }
      if i, j :| 0 <= i < j < |rest| && Known(c, rest[i].1) && Known(c, rest[j].1) {
        assert run[i + 1] == rest[i] && run[j + 1] == rest[j];
      }
    }
  }

  /** The thresholds by slots and words. */
  lemma QualifiesIff(c: Context, s: Section, ranges: seq<(int, int)>, a: int)
    ensures var run := RunFrom(c, s, ranges, a);
            Qualifies(c, run) <==> Convincing(c, a, WordsOf(run))
  {
    var run := RunFrom(c, s, ranges, a);
    hide RunFrom, Known, RelocationCount, IdentityCount;
    RelocationsCounted(c, run);
    IdentitiesCounted(c, run);
    SlotsRelocated(c, run, a);
    KnownWords(c, run);
  }

  lemma SlotsRelocated(c: Context, run: seq<(int, int)>, a: int)
    requires forall k :: 0 <= k < |run| ==> run[k].0 == a + 4 * k
    ensures (exists k :: 0 <= k < |run| && run[k].0 in c.relocationSlots)
       <==> exists k :: 0 <= k < |run| && Relocated(c, a, k)
    ensures (forall k :: 0 <= k < |run| ==> run[k].0 in c.relocationSlots)
       <==> forall k :: 0 <= k < |run| ==> Relocated(c, a, k)
  {
    forall k | 0 <= k < |run| ensures run[k].0 in c.relocationSlots <==> Relocated(c, a, k) {
    }
    hide Relocated;
  }

  lemma KnownWords(c: Context, run: seq<(int, int)>)
    ensures (exists i, j :: 0 <= i < j < |run| && Known(c, run[i].1) && Known(c, run[j].1))
       <==> exists i, j :: 0 <= i < j < |run| && Known(c, WordsOf(run)[i]) && Known(c, WordsOf(run)[j])
    ensures (forall k :: 0 <= k < |run| ==> Known(c, run[k].1))
       <==> forall k :: 0 <= k < |run| ==> Known(c, WordsOf(run)[k])
  {
    hide Known;
    var words := WordsOf(run);
    if i, j :| 0 <= i < j < |run| && Known(c, run[i].1) && Known(c, run[j].1) {
      assert Known(c, words[i]) && Known(c, words[j]);
    }
  }

  // ---- Tables ----

  lemma TableDescribes(c: Context, s: Section, ranges: seq<(int, int)>, a: int)
    requires RunFrom(c, s, ranges, a) != []
    ensures var run := RunFrom(c, s, ranges, a); Describes(c, TableOf(c, s, run), WordsOf(run))
  {
    var run := RunFrom(c, s, ranges, a);
    hide RunFrom, Known, RelocationCount, IdentityCount, LeastConfidence;
    TableConfidence(c, s, run);
    RelocationsCounted(c, run);
    IdentitiesCounted(c, run);
    SlotsRelocated(c, run, a);
    KnownWords(c, run);
    FunctionWords(c, run);
  }

  lemma FunctionWords(c: Context, run: seq<(int, int)>)
    ensures AllFunctions(c, run) <==> forall k :: 0 <= k < |run| ==> WordsOf(run)[k] in c.functionTargets
  {
    if forall k :: 0 <= k < |run| ==> WordsOf(run)[k] in c.functionTargets {
      forall i | 0 <= i < |run| ensures run[i].1 in c.functionTargets {
        assert WordsOf(run)[i] == run[i].1;
      }
    }
  }

  lemma StoresIff(elf: ElfImage, s: Section)
    ensures s in StorageSections(elf) <==> Stores(elf, s)
  {
    var kept := Select(IsStorage, elf.sections);
    SortSorts(AddressOrder, kept);
    SameElements(StorageSections(elf), kept);
    hide Sort, Select;
  }

  lemma TableFound(c: Context, seeded: seq<(int, int)>, t: Table)
    requires IsTableOf(c, t.section, seeded, t)
    ensures FoundRun(c, seeded, t)
  {
    hide StartsRun, Qualifies, RunFrom, MaximalRun, Convincing, Describes, LeastConfidence, AllFunctions, WordsOf,
      RelocationCount;
    var run := RunFrom(c, t.section, seeded, t.address);
    StartedRun(c, t.section, seeded, t.address);
    QualifiesIff(c, t.section, seeded, t.address);
    TableDescribes(c, t.section, seeded, t.address);
  }

  lemma RunFound(c: Context, seeded: seq<(int, int)>, tables: seq<Table>, s: Section, a: int, words: seq<int>)
    requires TablesExact(c, StorageSections(c.elf), seeded, tables)
    requires Stores(c.elf, s) && MaximalRun(c, s, seeded, a, words) && Convincing(c, a, words)
    ensures exists i :: 0 <= i < |tables| && tables[i].section == s && tables[i].address == a
                        && Describes(c, tables[i], words)
  {
    assert words != [];
    hide StartsRun, Qualifies, RunFrom, MaximalRun, Convincing, Describes, WordsOf, StorageSections, Stores, TableOf;
    StoresIff(c.elf, s);
    MaximalRunStarts(c, s, seeded, a, words);
    QualifiesIff(c, s, seeded, a);
    var i :| 0 <= i < |tables| && tables[i].section == s && tables[i].address == a;
    assert IsTableOf(c, s, seeded, tables[i]);
    TableDescribes(c, s, seeded, a);
  }

  /** For disjoint storage sections a scan finds exactly the convincing maximal runs of pointers in the file. */
  lemma ScanFindsRuns(c: Context, seeded: seq<(int, int)>, tables: seq<Table>)
    requires TablesExact(c, StorageSections(c.elf), seeded, tables)
    ensures FindsRuns(c, seeded, tables)
  {
    hide IsTableOf, StartsRun, Qualifies, RunFrom, StorageSections, Stores, MaximalRun, Convincing, Describes, FoundRun;
    forall i | 0 <= i < |tables| ensures Stores(c.elf, tables[i].section) && FoundRun(c, seeded, tables[i]) {
      StoresIff(c.elf, tables[i].section);
      TableFound(c, seeded, tables[i]);
    }
    forall s, a, words | Stores(c.elf, s) && MaximalRun(c, s, seeded, a, words) && Convincing(c, a, words)
      ensures exists i :: 0 <= i < |tables| && tables[i].section == s && tables[i].address == a
                          && Describes(c, tables[i], words)
    {
      RunFound(c, seeded, tables, s, a, words);
    }
  }

  /** For any image, each leaf of a scan targets the file's word at its slot. */
  lemma LeavesHoldWords(c: Context, tables: seq<Table>, leaves: map<int, Leaf>)
    requires LeavesExact(c, tables, leaves)
    ensures LeavesTarget(c, tables, leaves)
  {
    hide SafeWord, Holds, LeafAt, LeafTargets;
    forall a | a in leaves ensures exists i :: 0 <= i < |tables| && LeafTargets(c, tables[i], a, leaves[a]) {
      var i :| 0 <= i < |tables| && IsLeafOf(c, tables[i], a, leaves[a]);
      LeafHoldsWord(c, tables[i], a, leaves[a]);
    }
  }

  lemma LeafHoldsWord(c: Context, t: Table, a: int, leaf: Leaf)
    requires IsLeafOf(c, t, a, leaf)
    ensures LeafTargets(c, t, a, leaf)
  {
    SafeWordIff(c.elf, t.section, a, SafeWord(c.elf, t.section, a).value);
    hide SafeWord, Holds;
  }

  /** No two storage sections share an address. */
  ghost predicate StorageApart(elf: ElfImage) {
    forall i, j :: 0 <= i < j < |elf.sections| && Stores(elf, elf.sections[i]) && Stores(elf, elf.sections[j]) ==>
      || elf.sections[i].addr + elf.sections[i].size <= elf.sections[j].addr
      || elf.sections[j].addr + elf.sections[j].size <= elf.sections[i].addr
  }

  /** The scan by what the file holds: for any image its leaves, and when storage sections are apart its tables. */
  method ScanFile(c: Context, seeded: seq<(int, int)>)
    returns (tables: seq<Table>, leaves: map<int, Leaf>, reserved: seq<(int, int)>)
    ensures reserved == seeded + RangesOf(tables)
    ensures LeavesTarget(c, tables, leaves)
    ensures StorageApart(c.elf) ==> FindsRuns(c, seeded, tables)
  {
    hide *;
    tables, leaves, reserved := ScanPointerTables(c, seeded);
    LeavesHoldWords(c, tables, leaves);
    if StorageApart(c.elf) {
      ApartSections(c.elf);
      ScanFindsRuns(c, seeded, tables);
    }
  }

  lemma ApartSections(elf: ElfImage)
    requires StorageApart(elf)
    ensures DisjointSections(StorageSections(elf))
  {
    var kept, sections := Select(IsStorage, elf.sections), StorageSections(elf);
    StoredDistinct(elf, elf.sections);
    SortDistinct(AddressOrder, kept);
    hide Sort, Select, StorageApart;
    forall i, j | 0 <= i < j < |sections|
      ensures sections[i].addr + sections[i].size <= sections[j].addr || sections[j].addr + sections[j].size <= sections[i].addr
    {
      assert sections[i] in kept && sections[j] in kept && sections[i] != sections[j];
      DistinctStoredApart(elf, sections[i], sections[j]);
    }
  }

  lemma DistinctStoredApart(elf: ElfImage, s: Section, t: Section)
    requires StorageApart(elf) && Stores(elf, s) && Stores(elf, t) && s != t
    ensures s.addr + s.size <= t.addr || t.addr + t.size <= s.addr
  {
    var i :| 0 <= i < |elf.sections| && elf.sections[i] == s;
    var j :| 0 <= j < |elf.sections| && elf.sections[j] == t;
  }

  lemma {:induction false} StoredDistinct(elf: ElfImage, sections: seq<Section>)
    requires forall s :: s in sections ==> s in elf.sections
    requires forall i, j :: 0 <= i < j < |sections| && Stores(elf, sections[i]) && Stores(elf, sections[j]) ==>
      || sections[i].addr + sections[i].size <= sections[j].addr
      || sections[j].addr + sections[j].size <= sections[i].addr
    ensures Distinct(Select(IsStorage, sections))
    decreases |sections|
  {
    if sections != [] {
      var rest := sections[1..];
      assert sections == [sections[0]] + rest;
      StoredDistinct(elf, rest);
      forall j | 0 <= j < |rest| && IsStorage(sections[0]) ensures rest[j] != sections[0] {
        assert rest[j] == sections[j + 1];
      }
    }
  }
}
