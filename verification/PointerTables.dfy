/** `data_typing.py`: the maximal-run pointer-table scanner. */
module PointerTables {
  import opened Prelude
  import opened ByteStrings
  import opened ElfModel
  import opened Sorting

  /** What the scan consults but does not change. */
  datatype Context = Context(
    elf: ElfImage, relocationSlots: set<int>, functionTargets: set<int>, knownData: set<int>)

  datatype Leaf = Leaf(
    address: int, section: Bytes, target: int, isFunction: bool, relocationBacked: bool, confidence: real)

  datatype Table = Table(address: int, section: Section, allFunctions: bool, count: nat, confidence: real)
  {
    function End(): int {
      address + 4 * count
    }

    predicate HasSlot(a: int) {
      address <= a < End() && (a - address) % 4 == 0
    }

    /** Shares a byte with the range. */
    predicate Overlaps(range: (int, int)) {
      address < range.1 && range.0 < End()
    }
  }

  // ---- Sections and words ----

  /** Allocated, file-backed and not executable (SHF_EXECINSTR is 0x4). */
  predicate IsStorage(s: Section) {
    s.Allocated() && s.flags / 4 % 2 == 0 && s.stype != 8
  }

  function StorageSections(elf: ElfImage): seq<Section> {
    Sort(AddressOrder, Select(IsStorage, elf.sections))
  }

  predicate Mapped(elf: ElfImage, address: int) {
    exists i :: 0 <= i < |elf.sections| && elf.sections[i].Allocated()
                && elf.sections[i].addr <= address < elf.sections[i].addr + elf.sections[i].size
  }

  function SafeWord(elf: ElfImage, s: Section, address: int): Option<int> {
    if address % 4 != 0 then None
    else if address < s.addr || address + 4 > s.addr + s.size then None
    else
      var offset := s.offset + address - s.addr;
      if offset < 0 || offset + 4 > |elf.rawData| then None else Some(LE(elf.rawData[offset..offset + 4]))
  }

  predicate Inside(address: int, ranges: seq<(int, int)>) {
    exists i :: 0 <= i < |ranges| && ranges[i].0 <= address < ranges[i].1
  }

  /** `(addr + 3) & ~3`. */
  function FirstSlot(s: Section): int {
    (s.addr + 3) / 4 * 4
  }

  /** A mapped word at an unreserved slot: what a run is made of. */
  predicate IsEntry(c: Context, s: Section, reserved: seq<(int, int)>, a: int) {
    && !Inside(a, reserved)
    && SafeWord(c.elf, s, a).Some?
    && Mapped(c.elf, SafeWord(c.elf, s, a).value)
  }

  /** The slots and words of the longest run of entries from `a`. */
  function RunFrom(c: Context, s: Section, reserved: seq<(int, int)>, a: int): (run: seq<(int, int)>)
    ensures forall i :: 0 <= i < |run| ==> run[i].0 == a + 4 * i
    ensures a + 4 * |run| <= Max(a, s.addr + s.size)
    decreases s.addr + s.size - a
  {
    if a + 4 <= s.addr + s.size && IsEntry(c, s, reserved, a) then
      [(a, SafeWord(c.elf, s, a).value)] + RunFrom(c, s, reserved, a + 4)
    else []
  }

  /** A grid slot where a maximal run begins. */
  predicate StartsRun(c: Context, s: Section, reserved: seq<(int, int)>, a: int) {
    && FirstSlot(s) <= a && a % 4 == 0 && IsEntry(c, s, reserved, a)
    && (a == FirstSlot(s) || !IsEntry(c, s, reserved, a - 4))
  }

  lemma {:induction false} RunEntries(c: Context, s: Section, reserved: seq<(int, int)>, a: int)
    ensures forall e :: e in RunFrom(c, s, reserved, a) ==>
              IsEntry(c, s, reserved, e.0) && SafeWord(c.elf, s, e.0) == Some(e.1)
    decreases s.addr + s.size - a
  {
    hide Inside, Mapped, SafeWord, IsEntry;
    EntryHasWord(c, s, reserved, a);
    if a + 4 <= s.addr + s.size && IsEntry(c, s, reserved, a) {
      RunEntries(c, s, reserved, a + 4);
    }
  }

  lemma {:induction false} RunEnds(c: Context, s: Section, reserved: seq<(int, int)>, a: int)
    ensures !IsEntry(c, s, reserved, a + 4 * |RunFrom(c, s, reserved, a)|)
    decreases s.addr + s.size - a
  {
    hide Inside, Mapped, SafeWord, IsEntry;
    PastEnd(c, s, reserved, a);
    if a + 4 <= s.addr + s.size && IsEntry(c, s, reserved, a) {
      RunEnds(c, s, reserved, a + 4);
      assert a + 4 * |RunFrom(c, s, reserved, a)| == a + 4 + 4 * |RunFrom(c, s, reserved, a + 4)|;
    }
  }

  /** Runs from `a` are maximal: every slot is an entry and the slot after the last is not one. */
  lemma {:induction false} RunIsMaximal(c: Context, s: Section, reserved: seq<(int, int)>, a: int)
    ensures var run := RunFrom(c, s, reserved, a);
            && (forall i :: 0 <= i < |run| ==>
                  IsEntry(c, s, reserved, a + 4 * i) && SafeWord(c.elf, s, a + 4 * i) == Some(run[i].1))
            && !IsEntry(c, s, reserved, a + 4 * |run|)
  {
    hide *;
    RunEntries(c, s, reserved, a);
    RunEnds(c, s, reserved, a);
    var run := RunFrom(c, s, reserved, a);
    forall i | 0 <= i < |run|
      ensures IsEntry(c, s, reserved, a + 4 * i) && SafeWord(c.elf, s, a + 4 * i) == Some(run[i].1)
    {
      assert run[i] in run && run[i].0 == a + 4 * i;
    }
  }

  lemma EntryHasWord(c: Context, s: Section, reserved: seq<(int, int)>, a: int)
    ensures IsEntry(c, s, reserved, a) ==> SafeWord(c.elf, s, a).Some?
  {
    hide Inside, Mapped, SafeWord;
  }

  lemma PastEnd(c: Context, s: Section, reserved: seq<(int, int)>, a: int)
    ensures a + 4 > s.addr + s.size ==> !IsEntry(c, s, reserved, a)
  {
    hide Inside, Mapped;
  }

  // ---- Thresholds, leaves and tables ----

  function RelocationCount(c: Context, run: seq<(int, int)>): nat {
    if run == [] then 0
    else (if run[0].0 in c.relocationSlots then 1 else 0) + RelocationCount(c, run[1..])
  }

  function IdentityCount(c: Context, run: seq<(int, int)>): nat {
    if run == [] then 0
    else (if run[0].1 in c.functionTargets || run[0].1 in c.knownData then 1 else 0) + IdentityCount(c, run[1..])
  }

  predicate Qualifies(c: Context, run: seq<(int, int)>) {
    || (|run| >= 3 && (RelocationCount(c, run) >= 1 || IdentityCount(c, run) >= 2))
    || (|run| >= 2 && RelocationCount(c, run) == |run|)
  }

  /** A table-backed leaf without an anchor. */
  function LeafAt(c: Context, s: Section, slot: int, value: int): Leaf {
    var isFunction := value in c.functionTargets;
    var backed := slot in c.relocationSlots;
    Leaf(slot, s.name, value, isFunction, backed,
         if backed && (isFunction || value in c.knownData) then 1.0 else 0.90)
  }

  function LeastConfidence(c: Context, s: Section, run: seq<(int, int)>): real
    requires run != []
  {
    var first := LeafAt(c, s, run[0].0, run[0].1).confidence;
    if |run| == 1 then first
    else var rest := LeastConfidence(c, s, run[1..]); if first <= rest then first else rest
  }

  predicate AllFunctions(c: Context, run: seq<(int, int)>) {
    forall i :: 0 <= i < |run| ==> run[i].1 in c.functionTargets
  }

  function TableOf(c: Context, s: Section, run: seq<(int, int)>): Table
    requires run != []
  {
    var least := LeastConfidence(c, s, run);
    Table(run[0].0, s, AllFunctions(c, run), |run|,
          if RelocationCount(c, run) != |run| && least > 0.95 then 0.95 else least)
  }

  /** A table is fully confident exactly when every slot is relocated and every word is a known
      identity; otherwise its confidence is 0.90, so the 0.95 cap and the rounding never act. */
  lemma {:induction false} TableConfidence(c: Context, s: Section, run: seq<(int, int)>)
    requires run != []
    ensures TableOf(c, s, run).confidence == LeastConfidence(c, s, run)
    ensures LeastConfidence(c, s, run)
         == if RelocationCount(c, run) == |run| && IdentityCount(c, run) == |run| then 1.0 else 0.90
    decreases |run|
  {
    CountsBounded(c, run);
    if |run| > 1 {
      TableConfidence(c, s, run[1..]);
      CountsBounded(c, run[1..]);
    } else {
      assert RelocationCount(c, run[1..]) == 0 && IdentityCount(c, run[1..]) == 0;
    }
  }

  lemma {:induction false} CountsBounded(c: Context, run: seq<(int, int)>)
    ensures RelocationCount(c, run) <= |run| && IdentityCount(c, run) <= |run|
    decreases |run|
  {
    if run != [] {
      CountsBounded(c, run[1..]);
    }
  }

  // ---- One section ----

  /** The tables found in one section below `limit`, against the ranges reserved on entry: exactly
      the qualifying maximal runs, in address order. */
  ghost predicate SectionExact(
    c: Context, s: Section, reserved: seq<(int, int)>, limit: int, found: seq<Table>)
  {
    && (forall i :: 0 <= i < |found| ==> found[i].address < limit && IsTableOf(c, s, reserved, found[i]))
    && (forall a :: a < limit && StartsRun(c, s, reserved, a) && Qualifies(c, RunFrom(c, s, reserved, a)) ==>
          exists i :: 0 <= i < |found| && found[i].address == a)
  }

  ghost predicate IsTableOf(c: Context, s: Section, reserved: seq<(int, int)>, t: Table) {
    var run := RunFrom(c, s, reserved, t.address);
    && StartsRun(c, s, reserved, t.address) && Qualifies(c, run) && run != [] && t == TableOf(c, s, run)
  }

  ghost predicate Ascending(found: seq<Table>, limit: int) {
    && (forall i :: 0 <= i < |found| ==> found[i].End() <= limit)
    && (forall i, j :: 0 <= i < j < |found| ==> found[i].End() <= found[j].address)
  }

  function RangesOf(tables: seq<Table>): seq<(int, int)> {
    seq(|tables|, i requires 0 <= i < |tables| => (tables[i].address, tables[i].End()))
  }

  /** Tables found below `a` do not reserve it. */
  lemma FoundBelow(reserved: seq<(int, int)>, found: seq<Table>, limit: int)
    requires Ascending(found, limit)
    ensures forall a :: a >= limit ==> Inside(a, reserved + RangesOf(found)) == Inside(a, reserved)
  {
    var all := reserved + RangesOf(found);
    forall a | a >= limit ensures Inside(a, all) == Inside(a, reserved) {
      if i :| 0 <= i < |reserved| && reserved[i].0 <= a < reserved[i].1 {
        assert all[i] == reserved[i];
      }
      if i :| 0 <= i < |all| && all[i].0 <= a < all[i].1 {
        assert i < |reserved|;
        assert all[i] == reserved[i];
      }
    }
  }

  /** Where a run found against the entry reservations is also the run against the current ones. */
  lemma {:induction false} SameRun(c: Context, s: Section, r1: seq<(int, int)>, r2: seq<(int, int)>, a: int)
    requires forall x :: x >= a ==> Inside(x, r1) == Inside(x, r2)
    ensures RunFrom(c, s, r1, a) == RunFrom(c, s, r2, a)
    decreases s.addr + s.size - a
  {
    hide Inside, Mapped;
    if a + 4 <= s.addr + s.size {
      SameRun(c, s, r1, r2, a + 4);
      assert Inside(a, r1) == Inside(a, r2);
    }
  }

  method ScanRun(c: Context, s: Section, reserved: seq<(int, int)>, a: int)
    returns (run: seq<(int, int)>, cursor: int)
    ensures run == RunFrom(c, s, reserved, a) && cursor == a + 4 * |run|
  {
    hide Inside, Mapped, SafeWord;
    run, cursor := [], a;
    while cursor + 4 <= s.addr + s.size && !Inside(cursor, reserved)
      invariant cursor == a + 4 * |run|
      invariant RunFrom(c, s, reserved, a) == run + RunFrom(c, s, reserved, cursor)
      decreases s.addr + s.size - cursor
    {
      var value := SafeWord(c.elf, s, cursor);
      if value.None? || !Mapped(c.elf, value.value) {
        break;
      }
      RunStep(c, s, reserved, run, cursor, value.value);
      run := run + [(cursor, value.value)];
      cursor := cursor + 4;
    }
  }

  lemma RunStep(c: Context, s: Section, reserved: seq<(int, int)>, run: seq<(int, int)>,
                                   cursor: int, value: int)
    requires cursor + 4 <= s.addr + s.size && IsEntry(c, s, reserved, cursor)
    requires SafeWord(c.elf, s, cursor) == Some(value)
    ensures run + RunFrom(c, s, reserved, cursor) == run + [(cursor, value)] + RunFrom(c, s, reserved, cursor + 4)
  {
    hide Inside, Mapped, SafeWord;
    var rest := RunFrom(c, s, reserved, cursor + 4);
    assert RunFrom(c, s, reserved, cursor) == [(cursor, value)] + rest;
    assert run + ([(cursor, value)] + rest) == run + [(cursor, value)] + rest;
  }

  /** A position the section loop may stand at: the grid start, or next to a slot that is no entry. */
  ghost predicate AtBoundary(c: Context, s: Section, reserved: seq<(int, int)>, a: int) {
    && FirstSlot(s) <= a && a % 4 == 0
    && (a == FirstSlot(s) || !IsEntry(c, s, reserved, a - 4) || !IsEntry(c, s, reserved, a))
  }

  lemma SkipSlot(c: Context, s: Section, reserved: seq<(int, int)>, a: int, found: seq<Table>)
    requires AtBoundary(c, s, reserved, a) && !IsEntry(c, s, reserved, a)
    requires SectionExact(c, s, reserved, a, found) && Ascending(found, a)
    ensures AtBoundary(c, s, reserved, a + 4)
    ensures SectionExact(c, s, reserved, a + 4, found) && Ascending(found, a + 4)
  {
    hide IsEntry, IsTableOf, RunFrom, Qualifies;
    forall x | a <= x < a + 4 ensures !StartsRun(c, s, reserved, x) {
    }
  }

  /** Nothing starts strictly inside a maximal run. */
  lemma {:induction false} NoStartInside(c: Context, s: Section, reserved: seq<(int, int)>, a: int, x: int)
    requires a % 4 == 0 && FirstSlot(s) <= a && a < x < a + 4 * |RunFrom(c, s, reserved, a)|
    ensures !StartsRun(c, s, reserved, x)
  {
    hide IsEntry, RunFrom;
    RunIsMaximal(c, s, reserved, a);
    if x % 4 == 0 {
      var i := (x - 4 - a) / 4;
      assert x - 4 == a + 4 * i;
    }
  }

  lemma SkipRun(c: Context, s: Section, reserved: seq<(int, int)>, a: int, found: seq<Table>)
    requires AtBoundary(c, s, reserved, a) && |RunFrom(c, s, reserved, a)| > 0
    requires !Qualifies(c, RunFrom(c, s, reserved, a))
    requires SectionExact(c, s, reserved, a, found) && Ascending(found, a)
    ensures var next := a + 4 * |RunFrom(c, s, reserved, a)|;
            AtBoundary(c, s, reserved, next)
            && SectionExact(c, s, reserved, next, found) && Ascending(found, next)
  {
    hide IsEntry, IsTableOf, Qualifies, StartsRun, RunFrom;
    RunIsMaximal(c, s, reserved, a);
    forall x | a < x < a + 4 * |RunFrom(c, s, reserved, a)| ensures !StartsRun(c, s, reserved, x) {
      NoStartInside(c, s, reserved, a, x);
    }
  }

  lemma TakeRun(c: Context, s: Section, reserved: seq<(int, int)>, a: int, found: seq<Table>)
    requires AtBoundary(c, s, reserved, a) && |RunFrom(c, s, reserved, a)| > 0
    requires Qualifies(c, RunFrom(c, s, reserved, a))
    requires SectionExact(c, s, reserved, a, found) && Ascending(found, a)
    ensures var run := RunFrom(c, s, reserved, a);
            var next := a + 4 * |run|;
            && AtBoundary(c, s, reserved, next) && IsTableOf(c, s, reserved, TableOf(c, s, run))
            && SectionExact(c, s, reserved, next, found + [TableOf(c, s, run)])
            && Ascending(found + [TableOf(c, s, run)], next)
  {
    hide SectionExact, IsTableOf, Qualifies, RunFrom, AtBoundary;
    TakenTable(c, s, reserved, a);
    forall x | a < x < a + 4 * |RunFrom(c, s, reserved, a)| ensures !StartsRun(c, s, reserved, x) {
      TakenBoundary(c, s, reserved, a);
      NoStartInside(c, s, reserved, a, x);
    }
    var run := RunFrom(c, s, reserved, a);
    ExactExtends(c, s, reserved, a, a + 4 * |run|, found, TableOf(c, s, run));
  }

  lemma TakenBoundary(c: Context, s: Section, reserved: seq<(int, int)>, a: int)
    requires AtBoundary(c, s, reserved, a)
    ensures FirstSlot(s) <= a && a % 4 == 0
  {
  }

  lemma TakenTable(c: Context, s: Section, reserved: seq<(int, int)>, a: int)
    requires AtBoundary(c, s, reserved, a) && |RunFrom(c, s, reserved, a)| > 0
    requires Qualifies(c, RunFrom(c, s, reserved, a))
    ensures var run := RunFrom(c, s, reserved, a);
            && AtBoundary(c, s, reserved, a + 4 * |run|) && IsTableOf(c, s, reserved, TableOf(c, s, run))
            && TableOf(c, s, run).address == a && TableOf(c, s, run).End() == a + 4 * |run|
  {
    hide IsEntry, Qualifies, RunFrom, LeastConfidence, AllFunctions;
    RunIsMaximal(c, s, reserved, a);
    assert IsEntry(c, s, reserved, a + 4 * 0);
  }

  lemma ExactExtends(
    c: Context, s: Section, reserved: seq<(int, int)>, a: int, next: int, found: seq<Table>, t: Table)
    requires SectionExact(c, s, reserved, a, found) && t.address == a < next && IsTableOf(c, s, reserved, t)
    requires forall x :: a < x < next ==> !StartsRun(c, s, reserved, x)
    ensures SectionExact(c, s, reserved, next, found + [t])
  {
    hide IsTableOf, Qualifies, RunFrom, StartsRun;
    var all := found + [t];
    forall x | x < next && StartsRun(c, s, reserved, x) && Qualifies(c, RunFrom(c, s, reserved, x))
      ensures exists i :: 0 <= i < |all| && all[i].address == x
    {
      if x < a {
        var i :| 0 <= i < |found| && found[i].address == x;
        assert all[i] == found[i];
      } else {
        assert all[|found|].address == x;
      }
    }
  }

  // ---- Leaves ----

  ghost predicate IsLeafOf(c: Context, t: Table, a: int, leaf: Leaf) {
    && t.HasSlot(a) && SafeWord(c.elf, t.section, a).Some?
    && leaf == LeafAt(c, t.section, a, SafeWord(c.elf, t.section, a).value)
  }

  /** The leaf map's domain is the union of the tables' slots; each leaf describes its own word. */
  ghost predicate LeavesExact(c: Context, tables: seq<Table>, leaves: map<int, Leaf>) {
    && (forall i, a :: 0 <= i < |tables| && tables[i].HasSlot(a) ==> a in leaves)
    && (forall a :: a in leaves ==> exists i :: 0 <= i < |tables| && IsLeafOf(c, tables[i], a, leaves[a]))
  }

  /** Exactly the run's slots were (re)written, each with the leaf of its own word. */
  ghost predicate LeavesAdded(
    c: Context, s: Section, run: seq<(int, int)>, before: map<int, Leaf>, after: map<int, Leaf>)
    requires run != []
  {
    && (forall a :: a in after <==> a in before || TableOf(c, s, run).HasSlot(a))
    && (forall a :: a in before && !TableOf(c, s, run).HasSlot(a) ==> after[a] == before[a])
    && (forall i :: 0 <= i < |run| ==> run[i].0 in after && after[run[i].0] == LeafAt(c, s, run[i].0, run[i].1))
  }

  predicate RunSlot(first: int, count: nat, a: int) {
    first <= a < first + 4 * count && (a - first) % 4 == 0
  }

  method AddLeaves(
    c: Context, s: Section, run: seq<(int, int)>, leaves0: map<int, Leaf>)
    returns (leaves: map<int, Leaf>)
    requires run != []
    requires forall i :: 0 <= i < |run| ==> run[i].0 == run[0].0 + 4 * i
    ensures LeavesAdded(c, s, run, leaves0, leaves)
  {
    hide LeastConfidence, AllFunctions, LeafAt, RelocationCount;
    leaves := leaves0;
    for k := 0 to |run|
      invariant forall a :: a in leaves <==> a in leaves0 || RunSlot(run[0].0, k, a)
      invariant forall a :: a in leaves0 && !RunSlot(run[0].0, k, a) ==> leaves[a] == leaves0[a]
      invariant forall i :: 0 <= i < k ==> run[i].0 in leaves && leaves[run[i].0] == LeafAt(c, s, run[i].0, run[i].1)
    {
      leaves := leaves[run[k].0 := LeafAt(c, s, run[k].0, run[k].1)];
    }
    assert forall a :: TableOf(c, s, run).HasSlot(a) == RunSlot(run[0].0, |run|, a);
  }

  // ---- The scan ----

  /** Found tables of one section: exactly its qualifying maximal runs, in address order. */
  ghost predicate SectionDone(c: Context, s: Section, reserved: seq<(int, int)>, found: seq<Table>) {
    && (forall i :: 0 <= i < |found| ==> IsTableOf(c, s, reserved, found[i]))
    && (forall a :: StartsRun(c, s, reserved, a) && Qualifies(c, RunFrom(c, s, reserved, a)) ==>
          exists i :: 0 <= i < |found| && found[i].address == a)
    && (forall i, j :: 0 <= i < j < |found| ==> found[i].End() <= found[j].address)
  }

  /** Tables on the word grid no two of which share a byte. */
  ghost predicate Apart(tables: seq<Table>) {
    && (forall i :: 0 <= i < |tables| ==> tables[i].address % 4 == 0 && tables[i].count > 0)
    && (forall i, j :: 0 <= i < j < |tables| ==>
          tables[i].End() <= tables[j].address || tables[j].End() <= tables[i].address)
  }

  /** One section's outer loop.  `reserved` grows by exactly the found tables' ranges. */
  method ScanSection(
    c: Context, s: Section, reserved0: seq<(int, int)>, ghost before: seq<Table>, leaves0: map<int, Leaf>)
    returns (found: seq<Table>, reserved: seq<(int, int)>, leaves: map<int, Leaf>)
    requires Apart(before) && LeavesExact(c, before, leaves0)
    requires exists seeded :: reserved0 == seeded + RangesOf(before)
    ensures reserved == reserved0 + RangesOf(found)
    ensures SectionDone(c, s, reserved0, found)
    ensures Apart(before + found) && LeavesExact(c, before + found, leaves)
  {
    hide *;
    ghost var seeded :| reserved0 == seeded + RangesOf(before);
    found, reserved, leaves := [], reserved0, leaves0;
    var address := FirstSlot(s);
    SectionStart(c, s, reserved0);
    assert before + found == before;
    while address + 4 <= s.addr + s.size
      invariant AtBoundary(c, s, reserved0, address)
      invariant SectionExact(c, s, reserved0, address, found) && Ascending(found, address)
      invariant reserved == reserved0 + RangesOf(found)
      invariant Apart(before + found) && LeavesExact(c, before + found, leaves)
      decreases s.addr + s.size - address
    {
      SameEntries(c, s, reserved0, found, address);
      if !IsEntry(c, s, reserved, address) {
        SkipSlot(c, s, reserved0, address, found);
        address := address + 4;
        continue;
      }
      var run, cursor := ScanRun(c, s, reserved, address);
      RunNonEmpty(c, s, reserved, address);
      if !Qualifies(c, run) {
        SkipRun(c, s, reserved0, address, found);
        address := if cursor < address + 4 then address + 4 else cursor;
        continue;
      }
      var table := TableOf(c, s, run);
      TakeRun(c, s, reserved0, address, found);
      TakenTable(c, s, reserved0, address);
      TakenBoundary(c, s, reserved0, address);
      RangesGrow(before, found, seeded, table);
      NewTableApart(c, s, seeded, before + found, address);
      ghost var previous := leaves;
      leaves := AddLeaves(c, s, run, leaves);
      LeavesGrow(c, s, reserved, before + found, address, previous, leaves);
      found := found + [table];
      reserved := reserved + [(table.address, table.End())];
      address := cursor;
    }
    SectionFinishes(c, s, reserved0, address, found);
  }

  lemma SectionStart(c: Context, s: Section, reserved: seq<(int, int)>)
    ensures AtBoundary(c, s, reserved, FirstSlot(s)) && reserved == reserved + RangesOf([])
    ensures SectionExact(c, s, reserved, FirstSlot(s), []) && Ascending([], FirstSlot(s))
  {
    hide IsEntry, RunFrom;
  }

  lemma {:induction false} SameEntries(c: Context, s: Section, reserved0: seq<(int, int)>, found: seq<Table>, a: int)
    requires Ascending(found, a)
    ensures var reserved := reserved0 + RangesOf(found);
            && IsEntry(c, s, reserved, a) == IsEntry(c, s, reserved0, a)
            && RunFrom(c, s, reserved, a) == RunFrom(c, s, reserved0, a)
  {
    hide RunFrom, SafeWord, Mapped, Inside;
    FoundBelow(reserved0, found, a);
    SameRun(c, s, reserved0 + RangesOf(found), reserved0, a);
  }

  lemma {:induction false} RunNonEmpty(c: Context, s: Section, reserved: seq<(int, int)>, a: int)
    requires a + 4 <= s.addr + s.size && IsEntry(c, s, reserved, a)
    ensures RunFrom(c, s, reserved, a) != []
  {
  }

  lemma RangesGrow(before: seq<Table>, found: seq<Table>, seeded: seq<(int, int)>, t: Table)
    ensures RangesOf(found + [t]) == RangesOf(found) + [(t.address, t.End())]
    ensures seeded + RangesOf(before) + RangesOf(found) == seeded + RangesOf(before + found)
    ensures before + (found + [t]) == before + found + [t]
    ensures forall r: seq<(int, int)> :: r + RangesOf(found) + [(t.address, t.End())] == r + RangesOf(found + [t])
  {
  }

  /** A table begun at an unreserved slot overlaps no table already found: both lie on the word grid. */
  lemma {:induction false} NewTableApart(
    c: Context, s: Section, seeded: seq<(int, int)>, tables: seq<Table>, a: int)
    requires a % 4 == 0 && Apart(tables)
    requires RunFrom(c, s, seeded + RangesOf(tables), a) != []
    ensures Apart(tables + [TableOf(c, s, RunFrom(c, s, seeded + RangesOf(tables), a))])
  {
    hide SafeWord, Mapped, Inside, RunFrom, LeastConfidence, AllFunctions;
    var reserved := seeded + RangesOf(tables);
    var run := RunFrom(c, s, reserved, a);
    var t := TableOf(c, s, run);
    RunIsMaximal(c, s, reserved, a);
    forall i | 0 <= i < |tables| ensures tables[i].End() <= t.address || t.End() <= tables[i].address {
      var u := tables[i];
      if u.address < t.End() && t.address < u.End() {
        var shared := Max(u.address, t.address);
        var k := (shared - a) / 4;
        assert shared == a + 4 * k;
        assert !Inside(shared, reserved);
        InsideTable(seeded, tables, i, shared);
        assert false;
      }
    }
  }

  lemma InsideTable(seeded: seq<(int, int)>, tables: seq<Table>, i: nat, a: int)
    requires i < |tables| && tables[i].address <= a < tables[i].End()
    ensures Inside(a, seeded + RangesOf(tables))
  {
    var all := seeded + RangesOf(tables);
    assert all[|seeded| + i] == (tables[i].address, tables[i].End());
  }

  lemma {:induction false} LeavesGrow(
    c: Context, s: Section, reserved: seq<(int, int)>, tables: seq<Table>, a: int,
    before: map<int, Leaf>, after: map<int, Leaf>)
    requires RunFrom(c, s, reserved, a) != [] && LeavesExact(c, tables, before)
    requires LeavesAdded(c, s, RunFrom(c, s, reserved, a), before, after)
    ensures LeavesExact(c, tables + [TableOf(c, s, RunFrom(c, s, reserved, a))], after)
  {
    hide SafeWord, Mapped, Inside, RunFrom, LeastConfidence, AllFunctions, LeafAt, IsEntry;
    var run := RunFrom(c, s, reserved, a);
    var t := TableOf(c, s, run);
    var all := tables + [t];
    RunIsMaximal(c, s, reserved, a);
    forall x | x in after ensures exists i :: 0 <= i < |all| && IsLeafOf(c, all[i], x, after[x]) {
      if t.HasSlot(x) {
        var k := (x - a) / 4;
        assert run[k].0 == x;
        assert IsLeafOf(c, all[|tables|], x, after[x]);
      } else {
        var i :| 0 <= i < |tables| && IsLeafOf(c, tables[i], x, before[x]);
        assert all[i] == tables[i];
      }
    }
  }

  lemma SectionFinishes(c: Context, s: Section, reserved: seq<(int, int)>, a: int, found: seq<Table>)
    requires SectionExact(c, s, reserved, a, found) && Ascending(found, a) && a + 4 > s.addr + s.size
    ensures SectionDone(c, s, reserved, found)
  {
    hide RunFrom, Qualifies, IsTableOf, IsEntry;
    forall x | StartsRun(c, s, reserved, x) && Qualifies(c, RunFrom(c, s, reserved, x))
      ensures exists i :: 0 <= i < |found| && found[i].address == x
    {
      PastEnd(c, s, reserved, x);
    }
  }

  // ---- All sections ----

  /** No two storage sections share an address. */
  ghost predicate DisjointSections(sections: seq<Section>) {
    forall i, j :: 0 <= i < j < |sections| ==>
      || sections[i].addr + sections[i].size <= sections[j].addr
      || sections[j].addr + sections[j].size <= sections[i].addr
  }

  ghost predicate OrderedSections(sections: seq<Section>) {
    forall i, j :: 0 <= i < j < |sections| ==> sections[i].addr + sections[i].size <= sections[j].addr
  }

  /** The tables of some sections: exactly the qualifying maximal runs of mapped words outside the
      ranges reserved before the scan, in address order. */
  ghost predicate TablesExact(c: Context, sections: seq<Section>, seeded: seq<(int, int)>, tables: seq<Table>) {
    && (forall i :: 0 <= i < |tables| ==>
          tables[i].section in sections && IsTableOf(c, tables[i].section, seeded, tables[i]))
    && (forall s, a :: s in sections && StartsRun(c, s, seeded, a) && Qualifies(c, RunFrom(c, s, seeded, a)) ==>
          exists i :: 0 <= i < |tables| && tables[i].section == s && tables[i].address == a)
    && (forall i, j :: 0 <= i < j < |tables| ==> tables[i].End() <= tables[j].address)
  }

  /** No slot of a table begins in a range reserved before the scan. */
  ghost predicate SlotsFree(seeded: seq<(int, int)>, tables: seq<Table>) {
    forall i, a :: 0 <= i < |tables| && tables[i].HasSlot(a) ==> !Inside(a, seeded)
  }

  /** The whole scan.  For any image the tables are disjoint, no slot begins in a seeded range and the
      leaf map covers exactly the slots; when storage sections are disjoint the tables are exactly the qualifying runs. */
  method ScanPointerTables(c: Context, seeded: seq<(int, int)>)
    returns (tables: seq<Table>, leaves: map<int, Leaf>, reserved: seq<(int, int)>)
    ensures reserved == seeded + RangesOf(tables)
    ensures Apart(tables) && LeavesExact(c, tables, leaves) && SlotsFree(seeded, tables)
    ensures DisjointSections(StorageSections(c.elf)) ==> TablesExact(c, StorageSections(c.elf), seeded, tables)
  {
    hide *;
    var sections := StorageSections(c.elf);
    tables, leaves, reserved := [], map[], seeded;
    ScanStarts(c, sections, seeded);
    for k := 0 to |sections|
      invariant reserved == seeded + RangesOf(tables)
      invariant Apart(tables) && LeavesExact(c, tables, leaves) && SlotsFree(seeded, tables)
      invariant OrderedSections(sections) ==> TablesExact(c, sections[..k], seeded, tables)
    {
      var found, reserved', leaves' := ScanSection(c, sections[k], reserved, tables, leaves);
      if OrderedSections(sections) {
        SectionJoins(c, sections, k, seeded, tables, found);
      }
      FoundSlotsFree(c, sections[k], seeded, tables, found);
      RangesJoin(seeded, tables, found);
      tables, reserved, leaves := tables + found, reserved', leaves';
    }
    assert sections[..|sections|] == sections;
    if DisjointSections(sections) {
      StorageOrdered(c.elf);
    }
  }

  lemma ScanStarts(c: Context, sections: seq<Section>, seeded: seq<(int, int)>)
    ensures seeded == seeded + RangesOf([]) && Apart([]) && LeavesExact(c, [], map[]) && SlotsFree(seeded, [])
    ensures TablesExact(c, sections[..0], seeded, [])
  {
    hide IsTableOf, StartsRun, Qualifies, RunFrom;
  }

  lemma RangesJoin(seeded: seq<(int, int)>, tables: seq<Table>, found: seq<Table>)
    ensures seeded + RangesOf(tables) + RangesOf(found) == seeded + RangesOf(tables + found)
  {
  }

  lemma StorageOrdered(elf: ElfImage)
    requires DisjointSections(StorageSections(elf))
    ensures OrderedSections(StorageSections(elf))
  {
    var kept, sections := Select(IsStorage, elf.sections), StorageSections(elf);
    hide Select;
    SortSorts(AddressOrder, kept);
    SameElements(sections, kept);
    hide Sort;
    forall i, j | 0 <= i < j < |sections|
      ensures sections[i].addr + sections[i].size <= sections[j].addr
    {
      assert sections[i] in sections && sections[j] in sections;
      assert IsStorage(sections[i]) && IsStorage(sections[j]) && AddressOrder(sections[i], sections[j]);
    }
  }

  /** What a table occupies lies inside its section. */
  lemma TableInSection(c: Context, s: Section, reserved: seq<(int, int)>, t: Table)
    requires IsTableOf(c, s, reserved, t)
    ensures t.section == s && s.addr <= t.address < t.End() <= s.addr + s.size
  {
    hide Qualifies, Inside, Mapped, LeastConfidence, AllFunctions, RunFrom;
  }

  /** Runs depend on the reservations only through the section's own entries. */
  lemma {:induction false} SameEntriesSameRun(c: Context, s: Section, r1: seq<(int, int)>, r2: seq<(int, int)>, a: int)
    requires forall x :: IsEntry(c, s, r1, x) == IsEntry(c, s, r2, x)
    ensures RunFrom(c, s, r1, a) == RunFrom(c, s, r2, a)
    decreases s.addr + s.size - a
  {
    hide IsEntry, SafeWord;
    if a + 4 <= s.addr + s.size {
      SameEntriesSameRun(c, s, r1, r2, a + 4);
    }
  }

  lemma SameEntriesSameTables(
    c: Context, s: Section, r1: seq<(int, int)>, r2: seq<(int, int)>, found: seq<Table>)
    requires forall x :: IsEntry(c, s, r1, x) == IsEntry(c, s, r2, x)
    requires SectionDone(c, s, r1, found)
    ensures SectionDone(c, s, r2, found)
  {
    hide IsEntry, SafeWord, Qualifies, RunFrom, TableOf;
    forall a ensures RunFrom(c, s, r1, a) == RunFrom(c, s, r2, a) && StartsRun(c, s, r1, a) == StartsRun(c, s, r2, a) {
      SameEntriesSameRun(c, s, r1, r2, a);
    }
    forall a | StartsRun(c, s, r2, a) && Qualifies(c, RunFrom(c, s, r2, a))
      ensures exists i :: 0 <= i < |found| && found[i].address == a
    {
      assert StartsRun(c, s, r1, a) && Qualifies(c, RunFrom(c, s, r1, a));
    }
  }

  /** Tables of earlier sections do not reserve anything in a later, disjoint one. */
  lemma OtherTablesOutside(
    c: Context, s: Section, seeded: seq<(int, int)>, tables: seq<Table>)
    requires forall i :: 0 <= i < |tables| ==> tables[i].End() <= s.addr
    ensures forall x :: IsEntry(c, s, seeded + RangesOf(tables), x) == IsEntry(c, s, seeded, x)
  {
    hide Mapped, Inside;
    forall x ensures IsEntry(c, s, seeded + RangesOf(tables), x) == IsEntry(c, s, seeded, x) {
      if x >= s.addr {
        OutsideTables(seeded, tables, x);
      }
    }
  }

  lemma OutsideTables(seeded: seq<(int, int)>, tables: seq<Table>, x: int)
    requires forall i :: 0 <= i < |tables| ==> tables[i].End() <= x
    ensures Inside(x, seeded + RangesOf(tables)) == Inside(x, seeded)
  {
    var all := seeded + RangesOf(tables);
    if i :| 0 <= i < |seeded| && seeded[i].0 <= x < seeded[i].1 {
      assert all[i] == seeded[i];
    }
    if i :| 0 <= i < |all| && all[i].0 <= x < all[i].1 {
      assert i < |seeded| && all[i] == seeded[i];
    }
  }

  lemma SectionJoins(
    c: Context, sections: seq<Section>, k: nat, seeded: seq<(int, int)>, tables: seq<Table>, found: seq<Table>)
    requires k < |sections| && OrderedSections(sections)
    requires TablesExact(c, sections[..k], seeded, tables)
    requires SectionDone(c, sections[k], seeded + RangesOf(tables), found)
    ensures TablesExact(c, sections[..k + 1], seeded, tables + found)
  {
    hide IsTableOf, StartsRun, Qualifies, RunFrom, IsEntry;
    var s, all := sections[k], tables + found;
    forall i | 0 <= i < |tables| ensures tables[i].End() <= s.addr {
      var owner :| 0 <= owner < k && sections[owner] == tables[i].section;
      TableInSection(c, tables[i].section, seeded, tables[i]);
    }
    OtherTablesOutside(c, s, seeded, tables);
    SameEntriesSameTables(c, s, seeded + RangesOf(tables), seeded, found);
    forall i | 0 <= i < |found| ensures s.addr <= found[i].address && found[i].section == s {
      TableInSection(c, s, seeded, found[i]);
    }
    assert sections[..k + 1] == sections[..k] + [s];
    forall owner, a |
      owner in sections[..k + 1] && StartsRun(c, owner, seeded, a) && Qualifies(c, RunFrom(c, owner, seeded, a))
      ensures exists i :: 0 <= i < |all| && all[i].section == owner && all[i].address == a
    {
      if owner in sections[..k] {
        var i :| 0 <= i < |tables| && tables[i].section == owner && tables[i].address == a;
        assert all[i] == tables[i];
      } else {
        var i :| 0 <= i < |found| && found[i].address == a;
        assert all[|tables| + i] == found[i];
      }
    }
  }

  // ---- Reserved ranges are tested at slot starts only ----

  lemma SlotUnreserved(c: Context, s: Section, reserved: seq<(int, int)>, t: Table, a: int)
    requires IsTableOf(c, s, reserved, t) && t.HasSlot(a)
    ensures !Inside(a, reserved)
  {
    hide SafeWord, Mapped, RunFrom, Qualifies, LeastConfidence, AllFunctions, Inside;
    RunIsMaximal(c, s, reserved, t.address);
    var i := (a - t.address) / 4;
    assert a == t.address + 4 * i;
  }

  lemma FoundSlotsFree(
    c: Context, s: Section, seeded: seq<(int, int)>, tables: seq<Table>, found: seq<Table>)
    requires SlotsFree(seeded, tables) && SectionDone(c, s, seeded + RangesOf(tables), found)
    ensures SlotsFree(seeded, tables + found)
  {
    hide IsTableOf, StartsRun, Qualifies, RunFrom, Inside;
    var all := tables + found;
    forall i, a | 0 <= i < |all| && all[i].HasSlot(a) ensures !Inside(a, seeded) {
      if i >= |tables| {
        SlotUnreserved(c, s, seeded + RangesOf(tables), all[i], a);
        OutsideMore(seeded, RangesOf(tables), a);
      }
    }
  }

  lemma OutsideMore(seeded: seq<(int, int)>, more: seq<(int, int)>, a: int)
    requires !Inside(a, seeded + more)
    ensures !Inside(a, seeded)
  {
    forall k | 0 <= k < |seeded| ensures !(seeded[k].0 <= a < seeded[k].1) {
      assert (seeded + more)[k] == seeded[k];
    }
  }

  /** A table with free slots on the word grid meets a range only where the range begins inside the
      table and off the grid. */
  lemma FreeSlotsOverlapIff(seeded: seq<(int, int)>, tables: seq<Table>, i: nat, k: nat)
    requires SlotsFree(seeded, tables) && i < |tables| && tables[i].address % 4 == 0 && tables[i].count > 0
    requires k < |seeded| && seeded[k].0 < seeded[k].1
    ensures tables[i].Overlaps(seeded[k])
       <==> tables[i].address < seeded[k].0 < tables[i].End() && seeded[k].0 % 4 != 0
  {
    hide SlotsFree;
    var t, range := tables[i], seeded[k];
    if range.0 <= t.address {
      FreeSlot(seeded, tables, i, k, t.address);
    } else if range.0 % 4 == 0 && range.0 < t.End() {
      FreeSlot(seeded, tables, i, k, range.0);
    }
  }

  lemma FreeSlot(seeded: seq<(int, int)>, tables: seq<Table>, i: nat, k: nat, a: int)
    requires SlotsFree(seeded, tables) && i < |tables| && tables[i].HasSlot(a) && k < |seeded|
    ensures !(seeded[k].0 <= a < seeded[k].1)
  {
    hide Inside;
    assert !Inside(a, seeded);
    NotInside(seeded, a, k);
  }

  lemma NotInside(seeded: seq<(int, int)>, a: int, k: nat)
    requires k < |seeded| && !Inside(a, seeded)
    ensures !(seeded[k].0 <= a < seeded[k].1)
  {
  }

  /** For any image, no table of the scan shares a byte with a seeded range that begins on the word grid. */
  lemma GridRangesAvoided(seeded: seq<(int, int)>, tables: seq<Table>, i: nat, k: nat)
    requires Apart(tables) && SlotsFree(seeded, tables) && i < |tables|
    requires k < |seeded| && seeded[k].0 < seeded[k].1 && seeded[k].0 % 4 == 0
    ensures !tables[i].Overlaps(seeded[k])
  {
    hide SlotsFree;
    FreeSlotsOverlapIff(seeded, tables, i, k);
  }

  /** The word at `slot` belongs to a run that will become a table. */
  ghost predicate InQualifyingRun(c: Context, seeded: seq<(int, int)>, slot: int) {
    exists s, a ::
      && s in StorageSections(c.elf) && StartsRun(c, s, seeded, a) && Qualifies(c, RunFrom(c, s, seeded, a))
      && a <= slot < a + 4 * |RunFrom(c, s, seeded, a)|
  }

  /** For disjoint storage sections the scan takes bytes of a seeded range exactly when the range begins
      off the word grid and the word its start lies in belongs to a qualifying run. */
  lemma ReservedOverlapIff(c: Context, seeded: seq<(int, int)>, tables: seq<Table>, k: nat)
    requires TablesExact(c, StorageSections(c.elf), seeded, tables)
    requires k < |seeded| && seeded[k].0 < seeded[k].1
    ensures (exists i :: 0 <= i < |tables| && tables[i].Overlaps(seeded[k]))
       <==> seeded[k].0 % 4 != 0 && InQualifyingRun(c, seeded, seeded[k].0 / 4 * 4)
  {
    hide TablesExact, InQualifyingRun, StorageSections;
    if i :| 0 <= i < |tables| && tables[i].Overlaps(seeded[k]) {
      OverlapInRun(c, seeded, tables, i, k);
    }
    if seeded[k].0 % 4 != 0 && InQualifyingRun(c, seeded, seeded[k].0 / 4 * 4) {
      RunOverlaps(c, seeded, tables, k);
    }
  }

  lemma OverlapInRun(c: Context, seeded: seq<(int, int)>, tables: seq<Table>, i: nat, k: nat)
    requires TablesExact(c, StorageSections(c.elf), seeded, tables)
    requires k < |seeded| && seeded[k].0 < seeded[k].1 && i < |tables| && tables[i].Overlaps(seeded[k])
    ensures seeded[k].0 % 4 != 0 && InQualifyingRun(c, seeded, seeded[k].0 / 4 * 4)
  {
    hide StorageSections, StartsRun, Qualifies, RunFrom, IsTableOf, SlotsFree;
    var t := tables[i];
    ExactSlotsFree(c, seeded, tables);
    TableRun(c, t.section, seeded, t);
    FreeSlotsOverlapIff(seeded, tables, i, k);
    SlotOf(t.address, t.count, seeded[k].0);
    assert t.section in StorageSections(c.elf);
  }

  /** An address inside a table lies in the word that starts at its round-down. */
  lemma SlotOf(address: int, count: int, a: int)
    requires address % 4 == 0 && address <= a < address + 4 * count
    ensures address <= a / 4 * 4 < address + 4 * count
  {
  }

  lemma RunOverlaps(c: Context, seeded: seq<(int, int)>, tables: seq<Table>, k: nat)
    requires TablesExact(c, StorageSections(c.elf), seeded, tables)
    requires k < |seeded| && seeded[k].0 < seeded[k].1
    requires seeded[k].0 % 4 != 0 && InQualifyingRun(c, seeded, seeded[k].0 / 4 * 4)
    ensures exists i :: 0 <= i < |tables| && tables[i].Overlaps(seeded[k])
  {
    hide StorageSections, StartsRun, Qualifies, RunFrom, IsTableOf;
    var slot := seeded[k].0 / 4 * 4;
    var s, a :| s in StorageSections(c.elf) && StartsRun(c, s, seeded, a)
                && Qualifies(c, RunFrom(c, s, seeded, a)) && a <= slot < a + 4 * |RunFrom(c, s, seeded, a)|;
    var i :| 0 <= i < |tables| && tables[i].section == s && tables[i].address == a;
    TableRun(c, s, seeded, tables[i]);
    SlotMeets(tables[i], slot, seeded[k]);
  }

  lemma SlotMeets(t: Table, slot: int, range: (int, int))
    requires t.address % 4 == 0 && slot % 4 == 0 && t.address <= slot < t.End()
    requires slot <= range.0 < slot + 4 && range.0 < range.1
    ensures t.Overlaps(range)
  {
  }

  lemma {:induction false} TableRun(c: Context, s: Section, reserved: seq<(int, int)>, t: Table)
    requires IsTableOf(c, s, reserved, t)
    ensures StartsRun(c, s, reserved, t.address) && Qualifies(c, RunFrom(c, s, reserved, t.address))
    ensures t.address % 4 == 0 && t.count > 0 && t.End() == t.address + 4 * |RunFrom(c, s, reserved, t.address)|
  {
    hide IsEntry, Qualifies, RunFrom, LeastConfidence, AllFunctions;
  }

  lemma ExactSlotsFree(c: Context, seeded: seq<(int, int)>, tables: seq<Table>)
    requires TablesExact(c, StorageSections(c.elf), seeded, tables)
    ensures SlotsFree(seeded, tables)
  {
    hide StorageSections, StartsRun, Qualifies, RunFrom, Inside, IsTableOf;
    forall i, a | 0 <= i < |tables| && tables[i].HasSlot(a) ensures !Inside(a, seeded) {
      SlotUnreserved(c, tables[i].section, seeded, tables[i], a);
    }
  }

  // ---- Such an overlap does occur ----

  function TwoWordSection(): Section {
    Section(1, [], 1, 2, 0x100, 0, 8, 0, 0, 4, 0, ReadOnly)
  }

  /** One storage section of two words, each the address of the section; both slots are relocated. */
  function TwoWordContext(): Context {
    Context(
      ElfImage(ElfHeader(0, 0, 0, 0, 0, 0, 0, 0, 0, 0, 0, 0, 0), true, [], [TwoWordSection()], [0, 1, 0, 0, 0, 1, 0, 0]),
      {0x100, 0x104}, {}, {})
  }

  lemma TwoWordStorage()
    ensures StorageSections(TwoWordContext().elf) == [TwoWordSection()]
  {
    var s := TwoWordSection();
    assert IsStorage(s);
    hide IsStorage;
    assert Select(IsStorage, [s]) == [s] by {
      assert [s][1..] == [];
    }
    assert Sort(AddressOrder, [s]) == [s] by {
      assert [s][1..] == [];
    }
  }

  lemma TwoWordWord(a: int)
    requires a == 0x100 || a == 0x104
    ensures SafeWord(TwoWordContext().elf, TwoWordSection(), a) == Some(0x100)
  {
    hide LE;
    LiteralWord();
    var data := TwoWordContext().elf.rawData;
    assert data[0..4] == [0, 1, 0, 0] && data[4..8] == [0, 1, 0, 0];
  }

  lemma LiteralWord()
    ensures LE([0, 1, 0, 0]) == 0x100
  {
    assert LE([0, 0]) == 0;
    assert LE([1, 0, 0]) == 1;
  }

  lemma TwoWordEntry(a: int)
    requires a == 0x100 || a == 0x104
    ensures IsEntry(TwoWordContext(), TwoWordSection(), [(0x102, 0x104)], a)
  {
    TwoWordWord(a);
    hide SafeWord;
    var elf := TwoWordContext().elf;
    assert elf.sections[0].Allocated();
    assert Mapped(elf, 0x100);
  }

  lemma TwoWordRun()
    ensures RunFrom(TwoWordContext(), TwoWordSection(), [(0x102, 0x104)], 0x100) == [(0x100, 0x100), (0x104, 0x100)]
  {
    var c, s, reserved := TwoWordContext(), TwoWordSection(), [(0x102, 0x104)];
    TwoWordEntry(0x100);
    TwoWordEntry(0x104);
    TwoWordWord(0x100);
    TwoWordWord(0x104);
    assert s.addr + s.size == 0x108;
    hide IsEntry, SafeWord, TwoWordContext, TwoWordSection;
    OneStep(c, s, reserved, 0x100);
    OneStep(c, s, reserved, 0x104);
    NoStep(c, s, reserved, 0x108);
  }

  lemma OneStep(c: Context, s: Section, reserved: seq<(int, int)>, a: int)
    requires a + 4 <= s.addr + s.size && IsEntry(c, s, reserved, a) && SafeWord(c.elf, s, a).Some?
    ensures RunFrom(c, s, reserved, a) == [(a, SafeWord(c.elf, s, a).value)] + RunFrom(c, s, reserved, a + 4)
  {
    hide IsEntry, SafeWord;
  }

  lemma {:induction false} NoStep(c: Context, s: Section, reserved: seq<(int, int)>, a: int)
    requires a + 4 > s.addr + s.size
    ensures RunFrom(c, s, reserved, a) == []
  {
    hide IsEntry, SafeWord;
  }

  lemma TwoWordsQualify()
    ensures Qualifies(TwoWordContext(), [(0x100, 0x100), (0x104, 0x100)])
  {
    var c, run := TwoWordContext(), [(0x100, 0x100), (0x104, 0x100)];
    var last: seq<(int, int)> := run[1..];
    assert last == [(0x104, 0x100)] && last[1..] == [];
    assert RelocationCount(c, run[1..]) == 1;
    assert RelocationCount(c, run) == 2;
  }

  lemma TwoWordQualifyingRun()
    ensures InQualifyingRun(TwoWordContext(), [(0x102, 0x104)], 0x100)
  {
    hide IsEntry, StorageSections, Qualifies, RunFrom;
    TwoWordStorage();
    TwoWordRun();
    TwoWordEntry(0x100);
    TwoWordsQualify();
    var c, s := TwoWordContext(), TwoWordSection();
    assert FirstSlot(s) == 0x100;
    hide TwoWordContext, TwoWordSection, FirstSlot;
    assert StartsRun(c, s, [(0x102, 0x104)], 0x100);
    assert s in StorageSections(c.elf);
  }

  lemma TwoWordDisjoint()
    ensures DisjointSections(StorageSections(TwoWordContext().elf))
  {
    hide StorageSections, TwoWordContext, TwoWordSection;
    TwoWordStorage();
  }

  /** Only two bytes from 0x102 are reserved, yet every scan of this image takes the words around them. */
  lemma ReservedBytesCanBeTaken()
    ensures exists c: Context ::
              && DisjointSections(StorageSections(c.elf))
              && forall tables: seq<Table> :: TablesExact(c, StorageSections(c.elf), [(0x102, 0x104)], tables) ==>
                   exists i :: 0 <= i < |tables| && tables[i].Overlaps((0x102, 0x104))
  {
    hide *;
    var c, seeded := TwoWordContext(), [(0x102, 0x104)];
    TwoWordDisjoint();
    TwoWordQualifyingRun();
    forall tables: seq<Table> | TablesExact(c, StorageSections(c.elf), seeded, tables)
      ensures exists i :: 0 <= i < |tables| && tables[i].Overlaps((0x102, 0x104))
    {
      ReservedOverlapIff(c, seeded, tables, 0);
    }
  }
}
