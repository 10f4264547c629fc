/** The placement plan said with headers, addresses and file types alone. */
module PlanMeaning {
  import opened Prelude
  import opened Bits
  import opened ElfModel
  import opened Sorting
  import opened Placement
  import opened PlacementPlan

  // ---- What a placement records of its module ----

  /** An alignment the layout honours: a power of two above one, asked for by a non-empty load. */
  ghost predicate Asks(headers: seq<ProgramHeader>, a: int) {
    exists s, k: nat :: s in headers && s.ptype == 1 && s.memsz > 0 && s.align == a && k >= 1 && a == Pow2(k)
  }

  /** `base` and `size` are the hull of the non-empty loads, `alignment` the strictest of sixteen and what
      they ask for. */
  ghost predicate Described(item: Item, p: Placed) {
    && p.path == item.path && p.end == p.load + p.size && p.base + p.size <= 0x1_0000_0000
    && (exists s :: s in item.headers && s.ptype == 1 && s.memsz > 0 && s.vaddr == p.base)
    && (exists s :: s in item.headers && s.ptype == 1 && s.memsz > 0 && s.vaddr + s.memsz == p.base + p.size)
    && (forall s :: s in item.headers && s.ptype == 1 && s.memsz > 0 ==>
          p.base <= s.vaddr && s.vaddr + s.memsz <= p.base + p.size)
    && p.alignment >= 16 && (p.alignment == 16 || Asks(item.headers, p.alignment))
    && forall a :: Asks(item.headers, a) ==> a <= p.alignment
  }

  ghost predicate LaidOut(item: Item, p: Placed, l: Layout) {
    && IsLayout(item.headers, l) && p.path == item.path && p.base == l.base && p.size == l.size
    && p.alignment == l.alignment && p.end == p.load + p.size
  }

  lemma AsksIff(headers: seq<ProgramHeader>, a: int)
    ensures Asks(headers, a) ==> exists s :: s in LoadedSegments(headers) && s.align == a && Requested(a) == a && IsPow2(a)
    ensures forall s :: s in LoadedSegments(headers) && s.align == a ==> Requested(a) == 16 || (Requested(a) == a && Asks(headers, a))
  {
    hide And;
    if Asks(headers, a) {
      var s, k: nat :| s in headers && s.ptype == 1 && s.memsz > 0 && s.align == a && k >= 1 && a == Pow2(k);
      assert Pow2(k) == 2 * Pow2(k - 1);
      PowerOfTwoTest(a);
      assert s in LoadedSegments(headers);
    }
    forall s | s in LoadedSegments(headers) && s.align == a && Requested(a) != 16 ensures Requested(a) == a && Asks(headers, a) {
      PowerOfTwoTest(a);
      var k: nat :| a == Pow2(k);
      assert k >= 1;
    }
  }

  lemma AlignmentIff(headers: seq<ProgramHeader>, alignment: nat)
    ensures (&& IsPow2(alignment) && alignment >= 16 && MeetsRequests(LoadedSegments(headers), alignment)
             && (alignment == 16 || exists s :: s in LoadedSegments(headers) && s.align == alignment))
       <==> && alignment >= 16 && (alignment == 16 || Asks(headers, alignment))
            && forall a :: Asks(headers, a) ==> a <= alignment
  {
    hide Asks, Requested, IsPow2, Aligned;
    forall a ensures Asks(headers, a) ==>
                       exists s :: s in LoadedSegments(headers) && s.align == a && Requested(a) == a && IsPow2(a)
    {
      AsksIff(headers, a);
    }
    forall s | s in LoadedSegments(headers)
      ensures Requested(s.align) == 16 || (Requested(s.align) == s.align && Asks(headers, s.align))
    {
      AsksIff(headers, s.align);
    }
    SixteenIsPow2();
    if alignment >= 16 && IsPow2(alignment) {
      RequestedItself(alignment);
      forall s | s in LoadedSegments(headers) && Requested(s.align) <= alignment
        ensures 0 < Requested(s.align) && Aligned(alignment, Requested(s.align))
      {
        RequestDivides(s.align, alignment);
      }
    }
  }

  lemma DescribedIff(item: Item, p: Placed)
    ensures Described(item, p) <==> exists l :: LaidOut(item, p, l)
  {
    hide Asks, IsPow2, MeetsRequests;
    AlignmentIff(item.headers, p.alignment);
    HullIff(item.headers, p.base, p.base + p.size);
    hide LowestVaddr, HighestEnd, LoadedSegments;
    if Described(item, p) {
      assert LaidOut(item, p, Layout(p.base, p.size, p.alignment));
    }
  }

  lemma HullIff(headers: seq<ProgramHeader>, base: int, end: int)
    ensures (LoadedSegments(headers) != [] && base == LowestVaddr(LoadedSegments(headers))
             && end == HighestEnd(LoadedSegments(headers)))
       <==> && (exists s :: s in headers && s.ptype == 1 && s.memsz > 0 && s.vaddr == base)
            && (exists s :: s in headers && s.ptype == 1 && s.memsz > 0 && s.vaddr + s.memsz == end)
            && forall s :: s in headers && s.ptype == 1 && s.memsz > 0 ==> base <= s.vaddr && s.vaddr + s.memsz <= end
    ensures LoadedSegments(headers) != [] ==> LowestVaddr(LoadedSegments(headers)) < HighestEnd(LoadedSegments(headers))
  {
    var loads := LoadedSegments(headers);
    forall s ensures s in loads <==> s in headers && s.ptype == 1 && s.memsz > 0 {
    }
    if loads != [] {
      HullNonEmpty(loads);
      var low :| low in loads && low.vaddr == LowestVaddr(loads);
      var high :| high in loads && high.vaddr + high.memsz == HighestEnd(loads);
    }
  }

  // ---- Where one module of a class goes, given the modules placed before it ----

  /** `a` is the least address with room. */
  ghost predicate Least(room: int -> bool, a: int) {
    room(a) && forall m :: room(m) ==> a <= m
  }

  /** A multiple of the alignment in user memory, behind everything in `below`, that keeps the module
      inside 32 bits. */
  ghost predicate Behind(below: seq<Placed>, alignment: nat, size: int, m: int) {
    && alignment > 0 && m % alignment == 0 && 0x0880_4000 <= m && m + size <= 0x1_0000_0000
    && forall q :: q in below ==> q.end <= m
  }

  ghost predicate Avoids(fixed: seq<Placed>, size: int, m: int) {
    forall q :: q in fixed ==> q.end <= m || m + size <= q.load
  }

  ghost predicate FixedFields(p: Placed) {
    p.kind == FixedAddress && p.confidence == 1.0 && p.runtimeClaim && !p.requiresRelocation && p.load == p.base
  }

  ghost predicate InferredFields(p: Placed) {
    p.kind == BootInferred && p.confidence == 0.95 && p.runtimeClaim && p.requiresRelocation
  }

  ghost predicate AnalysisFields(p: Placed) {
    p.kind == AnalysisOnly && p.confidence == 0.5 && !p.runtimeClaim && p.requiresRelocation
  }

  lemma FixedStepIff(item: Item, p: Placed)
    ensures FixedStep(item, p) <==> Described(item, p) && FixedFields(p)
  {
    hide IsLayout, Described;
    DescribedIff(item, p);
    if l :| LaidOut(item, p, l) {
      assert FixedFields(p) ==> p == Place(item.path, l, l.base, FixedAddress);
    }
    if l :| IsLayout(item.headers, l) && p == Place(item.path, l, l.base, FixedAddress) {
      assert LaidOut(item, p, l);
    }
  }

  lemma {:induction false} CursorIsLeast(ps: seq<Placed>, m: int)
    ensures Cursor(ps) <= m <==> 0x0880_4000 <= m && forall q :: q in ps ==> q.end <= m
  {
    if ps != [] {
      CursorIsLeast(ps[..|ps| - 1], m);
      assert ps == ps[..|ps| - 1] + [ps[|ps| - 1]];
    }
  }

  lemma RangesHold(ps: seq<Placed>)
    ensures forall o :: o in Ranges(ps) <==> exists q :: q in ps && o == (q.load, q.end)
  {
    forall q | q in ps ensures (q.load, q.end) in Ranges(ps) {
      var k :| 0 <= k < |ps| && ps[k] == q;
      assert Ranges(ps)[k] == (q.load, q.end);
    }
  }

  /** Above the cursor no boot range can be hit. */
  lemma BehindBoots(earlier: seq<Placed>, alignment: nat, size: int, m: int)
    requires alignment > 0 && size > 0
    ensures Behind(earlier, alignment, size, m) <==> Fits(m, Cursor(earlier), size, alignment, Ranges(earlier))
  {
    hide Cursor, Ranges;
    CursorIsLeast(earlier, m);
    RangesHold(earlier);
  }

  lemma LeastFitIff(room: int -> bool, a: int, start: int, size: int, alignment: int, occupied: seq<(int, int)>)
    requires alignment > 0 && forall m :: room(m) <==> Fits(m, start, size, alignment, occupied)
    ensures Least(room, a) <==> IsLeastFit(a, start, size, alignment, occupied)
  {
    hide Fits;
  }

  /** The first user address rounded up is the least one, when the module ends by 2^32 there. */
  lemma FirstBootIff(alignment: nat, size: int, a: int)
    requires IsPow2(alignment)
    ensures alignment >= 1
    ensures Least(m => Behind([], alignment, size, m), a)
       <==> a == AlignUp(0x0880_4000, alignment) && a + size <= 0x1_0000_0000
  {
    hide IsPow2, AlignUp, Aligned, Behind;
    AlignUpIsCeiling(0x0880_4000, alignment);
    var up := AlignUp(0x0880_4000, alignment);
    forall m ensures Behind([], alignment, size, m)
                <==> Aligned(m, alignment) && 0x0880_4000 <= m && m + size <= 0x1_0000_0000
    {
      BehindNothing(alignment, size, m);
    }
    var room := (m: int) => Behind([], alignment, size, m);
    assert forall m :: room(m) ==> up <= m;
    assert room(up) <==> up + size <= 0x1_0000_0000;
  }

  lemma BehindNothing(alignment: nat, size: int, m: int)
    requires alignment > 0
    ensures Behind([], alignment, size, m) <==> Aligned(m, alignment) && 0x0880_4000 <= m && m + size <= 0x1_0000_0000
  {
  }

  lemma BootStepIff(item: Item, earlier: seq<Placed>, p: Placed)
    ensures BootStep(item, earlier, p)
       <==> && Described(item, p) && (if earlier == [] then InferredFields(p) else AnalysisFields(p))
            && Least(m => Behind(earlier, p.alignment, p.size, m), p.load)
  {
    hide IsLayout, Described, AlignUp, Cursor, Ranges, Least, IsLeastFit, Behind, IsPow2;
    DescribedIff(item, p);
    forall l | LaidOut(item, p, l)
      ensures BootStepWith(item, earlier, p, l)
         <==> && (if earlier == [] then InferredFields(p) else AnalysisFields(p))
              && Least(m => Behind(earlier, p.alignment, p.size, m), p.load)
    {
      BootWithIff(item, earlier, p, l);
    }
    forall l | BootStepWith(item, earlier, p, l) ensures LaidOut(item, p, l) {
    }
    if l :| LaidOut(item, p, l) && !BootStep(item, earlier, p) {
      assert !BootStepWith(item, earlier, p, l);
    }
  }

  lemma LayoutSizes(headers: seq<ProgramHeader>, l: Layout)
    requires IsLayout(headers, l)
    ensures l.size > 0 && IsPow2(l.alignment) && l.alignment >= 16
  {
    hide LowestVaddr, HighestEnd, LoadedSegments, MeetsRequests, IsPow2;
  }

  lemma BootWithIff(item: Item, earlier: seq<Placed>, p: Placed, l: Layout)
    requires LaidOut(item, p, l)
    ensures BootStepWith(item, earlier, p, l)
       <==> && (if earlier == [] then InferredFields(p) else AnalysisFields(p))
            && Least(m => Behind(earlier, p.alignment, p.size, m), p.load)
  {
    hide IsLayout, AlignUp, Cursor, Ranges, Least, IsLeastFit, Behind, Fits, IsPow2;
    LayoutSizes(item.headers, l);
    if earlier == [] {
      FirstBootIff(p.alignment, p.size, p.load);
    } else {
      var room := (m: int) => Behind(earlier, p.alignment, p.size, m);
      forall m ensures room(m) <==> Fits(m, Cursor(earlier), p.size, p.alignment, Ranges(earlier)) {
        BehindBoots(earlier, p.alignment, p.size, m);
      }
      LeastFitIff(room, p.load, Cursor(earlier), p.size, p.alignment, Ranges(earlier));
    }
  }

  // ---- Secondary modules ----

  /** The last of the earlier secondaries ends where the search starts, above every other and every boot. */
  ghost predicate Rising(boots: seq<Placed>, earlier: seq<Placed>) {
    var start := SearchStart(Cursor(boots), earlier);
    Cursor(boots) <= start && forall q :: q in earlier ==> q.end <= start
  }

  lemma BehindSecondaries(fixed: seq<Placed>, boots: seq<Placed>, earlier: seq<Placed>, alignment: nat, size: int, m: int)
    requires alignment > 0 && size > 0 && Rising(boots, earlier)
    ensures Behind(boots + earlier, alignment, size, m) && Avoids(fixed, size, m)
       <==> Fits(m, SearchStart(Cursor(boots), earlier), size, alignment, Ranges(fixed) + Ranges(boots) + Ranges(earlier))
  {
    hide Cursor, Ranges;
    CursorIsLeast(boots, m);
    RangesHold(fixed);
    RangesHold(boots);
    RangesHold(earlier);
    var start, occupied := SearchStart(Cursor(boots), earlier), Ranges(fixed) + Ranges(boots) + Ranges(earlier);
    assert forall o :: o in occupied <==> o in Ranges(fixed) || o in Ranges(boots) || o in Ranges(earlier);
    assert forall q :: q in boots + earlier <==> q in boots || q in earlier;
    assert earlier != [] ==> earlier[|earlier| - 1] in earlier;
    if start <= m {
      OnlyFixedHit(fixed, boots, earlier, size, m);
    }
  }

  lemma OnlyFixedHit(fixed: seq<Placed>, boots: seq<Placed>, earlier: seq<Placed>, size: int, m: int)
    requires size > 0 && forall q :: q in boots + earlier ==> q.end <= m
    ensures Avoids(fixed, size, m)
       <==> forall o :: o in Ranges(fixed) + Ranges(boots) + Ranges(earlier) ==> !Overlaps(m, m + size, o)
  {
    RangesHold(fixed);
    RangesHold(boots);
    RangesHold(earlier);
    hide Ranges;
    if forall o :: o in Ranges(fixed) + Ranges(boots) + Ranges(earlier) ==> !Overlaps(m, m + size, o) {
      forall q | q in fixed ensures q.end <= m || m + size <= q.load {
        assert (q.load, q.end) in Ranges(fixed) + Ranges(boots) + Ranges(earlier);
      }
    }
  }

  lemma SecondaryStepIff(item: Item, fixed: seq<Placed>, boots: seq<Placed>, earlier: seq<Placed>, p: Placed)
    requires Rising(boots, earlier)
    ensures SecondaryStep(item, Ranges(fixed) + Ranges(boots), Cursor(boots), earlier, p)
       <==> && Described(item, p) && AnalysisFields(p)
            && Least(m => Behind(boots + earlier, p.alignment, p.size, m) && Avoids(fixed, p.size, m), p.load)
  {
    hide IsLayout, Described, Cursor, Ranges, Least, IsLeastFit, Behind, IsPow2, Rising, Avoids, SearchStart;
    DescribedIff(item, p);
    var occupied, cursor := Ranges(fixed) + Ranges(boots), Cursor(boots);
    forall l | LaidOut(item, p, l)
      ensures SecondaryStepWith(item, occupied, cursor, earlier, p, l)
         <==> && AnalysisFields(p)
              && Least(m => Behind(boots + earlier, p.alignment, p.size, m) && Avoids(fixed, p.size, m), p.load)
    {
      SecondaryWithIff(item, fixed, boots, earlier, p, l);
    }
    forall l | SecondaryStepWith(item, occupied, cursor, earlier, p, l) ensures LaidOut(item, p, l) {
    }
    if l :| LaidOut(item, p, l) && !SecondaryStep(item, occupied, cursor, earlier, p) {
      assert !SecondaryStepWith(item, occupied, cursor, earlier, p, l);
    }
  }

  lemma SecondaryWithIff(
    item: Item, fixed: seq<Placed>, boots: seq<Placed>, earlier: seq<Placed>, p: Placed, l: Layout)
    requires LaidOut(item, p, l) && Rising(boots, earlier)
    ensures SecondaryStepWith(item, Ranges(fixed) + Ranges(boots), Cursor(boots), earlier, p, l)
       <==> && AnalysisFields(p)
            && Least(m => Behind(boots + earlier, p.alignment, p.size, m) && Avoids(fixed, p.size, m), p.load)
  {
    hide IsLayout, Cursor, Ranges, Least, IsLeastFit, Behind, Fits, IsPow2, Rising, Avoids, SearchStart;
    LayoutSizes(item.headers, l);
    var start, occupied := SearchStart(Cursor(boots), earlier), Ranges(fixed) + Ranges(boots) + Ranges(earlier);
    var room := (m: int) => Behind(boots + earlier, p.alignment, p.size, m) && Avoids(fixed, p.size, m);
    forall m ensures room(m) <==> Fits(m, start, p.size, p.alignment, occupied) {
      BehindSecondaries(fixed, boots, earlier, p.alignment, p.size, m);
    }
    LeastFitIff(room, p.load, start, p.size, p.alignment, occupied);
  }

  /** One more secondary placed behind the others keeps them rising. */
  lemma RisingStep(boots: seq<Placed>, earlier: seq<Placed>, p: Placed)
    requires Rising(boots, earlier) && p.load <= p.end
    requires (forall q :: q in boots + earlier ==> q.end <= p.load) && 0x0880_4000 <= p.load
    ensures Rising(boots, earlier + [p])
  {
    CursorIsLeast(boots, p.load);
    hide Cursor;
  }

  // ---- The whole plan ----

  ghost predicate Keeps(item: Item) {
    item.fileType == Some(2)
  }

  ghost predicate Boots(item: Item) {
    item.fileType != Some(2) && item.isBoot
  }

  ghost predicate Follows(item: Item) {
    item.fileType != Some(2) && !item.isBoot
  }

  /** Address `m` would do for module `i`.  A boot-marked module goes behind the boot-marked ones before it; any
      other relocatable module behind all boot-marked ones and the others before it, clear of fixed ones. */
  ghost predicate Room(items: seq<Item>, plan: seq<Placed>, i: nat, m: int)
    requires i < |items| == |plan|
  {
    var p := plan[i];
    && p.alignment > 0 && m % p.alignment == 0 && 0x0880_4000 <= m && m + p.size <= 0x1_0000_0000
    && (forall j :: 0 <= j < |items| && Boots(items[j]) && (Boots(items[i]) ==> j < i) ==> plan[j].end <= m)
    && (Follows(items[i]) ==>
          && (forall j :: 0 <= j < i && Follows(items[j]) ==> plan[j].end <= m)
          && forall j :: 0 <= j < |items| && Keeps(items[j]) ==> plan[j].end <= m || m + p.size <= plan[j].load)
  }

  /** Module `i` in the plan: an executable stays where it is, claimed; the first boot module is claimed at the
      least address with room; every other module is placed at the least address with room, for analysis. */
  ghost predicate WellPlaced(items: seq<Item>, plan: seq<Placed>, i: nat)
    requires i < |items| == |plan|
  {
    && items[i].fileType.Some? && Described(items[i], plan[i])
    && (if Keeps(items[i]) then FixedFields(plan[i])
        else if Boots(items[i]) && forall j :: 0 <= j < i ==> !Boots(items[j]) then InferredFields(plan[i])
        else AnalysisFields(plan[i]))
    && (!Keeps(items[i]) ==> Least(m => Room(items, plan, i, m), plan[i].load))
  }

  ghost predicate PlanIs(items: seq<Item>, plan: seq<Placed>) {
    |plan| == |items| && forall i :: 0 <= i < |items| ==> WellPlaced(items, plan, i)
  }

  /** Each placement of a class prefix belongs to an item of that prefix. */
  lemma {:induction false} ProjectSource(items: seq<Item>, plan: seq<Placed>, keep: Item -> bool, i: nat, m: nat)
    returns (j: nat)
    requires |plan| == |items| && i <= |items| && m < |Select(keep, items[..i])|
    ensures j < i && keep(items[j]) && m == |Select(keep, items[..j])|
    ensures m < |Project(items, plan, keep)| && Project(items, plan, keep)[m] == plan[j]
    ensures m < |Select(keep, items)| && Select(keep, items)[m] == items[j]
    decreases i
  {
    hide Select, Project;
    assert items[..i] == items[..i - 1] + [items[i - 1]] by {
      if i == 0 {
        assert items[..i] == [];
        SelectNothing(keep);
      }
    }
    SelectSnoc(keep, items[..i - 1], items[i - 1]);
    if m < |Select(keep, items[..i - 1])| {
      j := ProjectSource(items, plan, keep, i - 1, m);
    } else {
      j := i - 1;
      ProjectAt(items, plan, keep, j);
    }
  }

  /** The placements of a class before item `i` are those of the class's items before it. */
  lemma EarlierAre(items: seq<Item>, plan: seq<Placed>, keep: Item -> bool, i: nat)
    requires |plan| == |items| && i <= |items|
    ensures |Select(keep, items[..i])| <= |Project(items, plan, keep)|
    ensures forall q :: q in Project(items, plan, keep)[..|Select(keep, items[..i])|]
                 <==> exists j :: 0 <= j < i && keep(items[j]) && plan[j] == q
  {
    hide Select, Project;
    PrefixShorter(items, plan, keep, i);
    var k, ps := |Select(keep, items[..i])|, Project(items, plan, keep);
    forall q | q in ps[..k] ensures exists j :: 0 <= j < i && keep(items[j]) && plan[j] == q {
      var m :| 0 <= m < k && ps[m] == q;
      var j := ProjectSource(items, plan, keep, i, m);
    }
    forall j | 0 <= j < i && keep(items[j]) ensures plan[j] in ps[..k] {
      ProjectAt(items, plan, keep, j);
      SelectGrows(keep, items, j, i);
      assert ps[..k][|Select(keep, items[..j])|] == plan[j];
    }
  }

  lemma PrefixShorter(items: seq<Item>, plan: seq<Placed>, keep: Item -> bool, i: nat)
    requires |plan| == |items| && i <= |items|
    ensures |Select(keep, items[..i])| <= |Project(items, plan, keep)|
  {
    hide Select, Project;
    if |Select(keep, items[..i])| > 0 {
      var j := ProjectSource(items, plan, keep, i, |Select(keep, items[..i])| - 1);
    }
  }

  lemma LeastAlike(room: int -> bool, other: int -> bool, a: int)
    requires forall m :: room(m) <==> other(m)
    ensures Least(room, a) <==> Least(other, a)
  {
  }

  lemma ClassesAre(item: Item)
    ensures IsFixed(item) <==> Keeps(item)
    ensures IsBoot(item) <==> Boots(item)
    ensures IsSecondary(item) <==> Follows(item)
    ensures Keeps(item) || Boots(item) || Follows(item)
  {
  }

  lemma FixedAt(items: seq<Item>, plan: seq<Placed>, i: nat)
    requires i < |items| == |plan| && Keeps(items[i]) && items[i].fileType.Some?
    ensures FixedStep(items[i], plan[i]) <==> WellPlaced(items, plan, i)
  {
    hide FixedStep, Described;
    FixedStepIff(items[i], plan[i]);
  }

  lemma BootRoom(items: seq<Item>, plan: seq<Placed>, i: nat, earlier: seq<Placed>, m: int)
    requires i < |items| == |plan| && Boots(items[i])
    requires forall q :: q in earlier <==> exists j :: 0 <= j < i && IsBoot(items[j]) && plan[j] == q
    ensures Behind(earlier, plan[i].alignment, plan[i].size, m) <==> Room(items, plan, i, m)
  {
    forall item ensures IsBoot(item) <==> Boots(item) {
      ClassesAre(item);
    }
    hide IsBoot, Boots;
    if Behind(earlier, plan[i].alignment, plan[i].size, m) {
      forall j | 0 <= j < i && Boots(items[j]) ensures plan[j].end <= m {
        assert plan[j] in earlier;
      }
    }
    assert !Follows(items[i]) by {
      NotBoth(items[i]);
    }
  }

  lemma NotBoth(item: Item)
    requires Boots(item)
    ensures !Follows(item) && !Keeps(item)
  {
  }

  lemma BootAt(items: seq<Item>, plan: seq<Placed>, i: nat, earlier: seq<Placed>)
    requires i < |items| == |plan| && Boots(items[i]) && items[i].fileType.Some?
    requires forall q :: q in earlier <==> exists j :: 0 <= j < i && IsBoot(items[j]) && plan[j] == q
    ensures BootStep(items[i], earlier, plan[i]) <==> WellPlaced(items, plan, i)
  {
    hide BootStep, Described, Behind, Room, Boots, IsBoot, InferredFields, AnalysisFields, Least;
    var p := plan[i];
    BootStepIff(items[i], earlier, p);
    forall item ensures IsBoot(item) <==> Boots(item) {
      ClassesAre(item);
    }
    NotBoth(items[i]);
    forall m ensures Behind(earlier, p.alignment, p.size, m) <==> Room(items, plan, i, m) {
      BootRoom(items, plan, i, earlier, m);
    }
    LeastAlike(m => Behind(earlier, p.alignment, p.size, m), m => Room(items, plan, i, m), p.load);
    assert earlier == [] <==> forall j :: 0 <= j < i ==> !Boots(items[j]) by {
      if earlier != [] {
        assert earlier[0] in earlier;
      }
      if j :| 0 <= j < i && Boots(items[j]) {
        assert plan[j] in earlier;
      }
    }
  }

  ghost predicate AllOf(items: seq<Item>, plan: seq<Placed>, keep: Item -> bool, n: nat, ps: seq<Placed>)
    requires |plan| == |items| && n <= |items|
  {
    forall q :: q in ps <==> exists j :: 0 <= j < n && keep(items[j]) && plan[j] == q
  }

  lemma SecondaryRoom(items: seq<Item>, plan: seq<Placed>, i: nat, fixed: seq<Placed>, boots: seq<Placed>,
                      earlier: seq<Placed>, m: int)
    requires i < |items| == |plan| && Follows(items[i])
    requires AllOf(items, plan, IsFixed, |items|, fixed) && AllOf(items, plan, IsBoot, |items|, boots)
    requires AllOf(items, plan, IsSecondary, i, earlier)
    ensures Behind(boots + earlier, plan[i].alignment, plan[i].size, m) && Avoids(fixed, plan[i].size, m)
       <==> Room(items, plan, i, m)
  {
    forall item ensures (IsBoot(item) <==> Boots(item)) && (IsFixed(item) <==> Keeps(item))
                        && (IsSecondary(item) <==> Follows(item)) && !(Boots(item) && Follows(item))
    {
      ClassesAre(item);
    }
    hide IsBoot, Boots, IsFixed, Keeps, IsSecondary, Follows;
    if Behind(boots + earlier, plan[i].alignment, plan[i].size, m) && Avoids(fixed, plan[i].size, m) {
      forall j | 0 <= j < |items| && Boots(items[j]) ensures plan[j].end <= m {
        assert plan[j] in boots && plan[j] in boots + earlier;
      }
      forall j | 0 <= j < i && Follows(items[j]) ensures plan[j].end <= m {
        assert plan[j] in earlier && plan[j] in boots + earlier;
      }
      forall j | 0 <= j < |items| && Keeps(items[j]) ensures plan[j].end <= m || m + plan[i].size <= plan[j].load {
        assert plan[j] in fixed;
      }
    }
  }

  lemma SecondaryAt(items: seq<Item>, plan: seq<Placed>, i: nat, fixed: seq<Placed>, boots: seq<Placed>, earlier: seq<Placed>)
    requires i < |items| == |plan| && Follows(items[i]) && items[i].fileType.Some? && Rising(boots, earlier)
    requires AllOf(items, plan, IsFixed, |items|, fixed) && AllOf(items, plan, IsBoot, |items|, boots)
    requires AllOf(items, plan, IsSecondary, i, earlier)
    ensures SecondaryStep(items[i], Ranges(fixed) + Ranges(boots), Cursor(boots), earlier, plan[i])
       <==> WellPlaced(items, plan, i)
  {
    var p := plan[i];
    assert !Keeps(items[i]) && !Boots(items[i]);
    hide SecondaryStep, Described, Behind, Avoids, Room, Boots, Follows, Keeps, Least, Cursor, Ranges, Rising, AllOf;
    SecondaryStepIff(items[i], fixed, boots, earlier, p);
    forall m
      ensures Behind(boots + earlier, p.alignment, p.size, m) && Avoids(fixed, p.size, m) <==> Room(items, plan, i, m)
    {
      SecondaryRoom(items, plan, i, fixed, boots, earlier, m);
    }
    LeastAlike(m => Behind(boots + earlier, p.alignment, p.size, m) && Avoids(fixed, p.size, m),
               m => Room(items, plan, i, m), p.load);
  }

  // ---- Class by class ----

  lemma FixedChainIff(items: seq<Item>, plan: seq<Placed>)
    requires |plan| == |items| && forall i :: 0 <= i < |items| ==> items[i].fileType.Some?
    ensures FixedChain(Select(IsFixed, items), Project(items, plan, IsFixed))
       <==> forall i :: 0 <= i < |items| && Keeps(items[i]) ==> WellPlaced(items, plan, i)
  {
    hide FixedStep, WellPlaced, Select, Project, Keeps, IsFixed;
    var chosen, ps := Select(IsFixed, items), Project(items, plan, IsFixed);
    ProjectLength(items, plan, IsFixed);
    assert items[..|items|] == items;
    forall item ensures IsFixed(item) <==> Keeps(item) {
      ClassesAre(item);
    }
    if FixedChain(chosen, ps) {
      forall i | 0 <= i < |items| && Keeps(items[i]) ensures WellPlaced(items, plan, i) {
        ProjectAt(items, plan, IsFixed, i);
        assert FixedStep(chosen[|Select(IsFixed, items[..i])|], ps[|Select(IsFixed, items[..i])|]);
        FixedAt(items, plan, i);
      }
    }
    if forall i :: 0 <= i < |items| && Keeps(items[i]) ==> WellPlaced(items, plan, i) {
      forall k | 0 <= k < |ps| ensures FixedStep(chosen[k], ps[k]) {
        var j := ProjectSource(items, plan, IsFixed, |items|, k);
        FixedAt(items, plan, j);
      }
    }
  }

  lemma BootChainIff(items: seq<Item>, plan: seq<Placed>)
    requires |plan| == |items| && forall i :: 0 <= i < |items| ==> items[i].fileType.Some?
    ensures BootChain(Select(IsBoot, items), Project(items, plan, IsBoot))
       <==> forall i :: 0 <= i < |items| && Boots(items[i]) ==> WellPlaced(items, plan, i)
  {
    hide BootStep, WellPlaced, Select, Project, Boots, IsBoot;
    var chosen, ps := Select(IsBoot, items), Project(items, plan, IsBoot);
    ProjectLength(items, plan, IsBoot);
    assert items[..|items|] == items;
    forall item ensures IsBoot(item) <==> Boots(item) {
      ClassesAre(item);
    }
    if BootChain(chosen, ps) {
      forall i | 0 <= i < |items| && Boots(items[i]) ensures WellPlaced(items, plan, i) {
        var k := |Select(IsBoot, items[..i])|;
        ProjectAt(items, plan, IsBoot, i);
        assert BootStep(chosen[k], ps[..k], ps[k]);
        EarlierAre(items, plan, IsBoot, i);
        BootAt(items, plan, i, ps[..k]);
      }
    }
    if forall i :: 0 <= i < |items| && Boots(items[i]) ==> WellPlaced(items, plan, i) {
      forall k | 0 <= k < |ps| ensures BootStep(chosen[k], ps[..k], ps[k]) {
        var j := ProjectSource(items, plan, IsBoot, |items|, k);
        EarlierAre(items, plan, IsBoot, j);
        BootAt(items, plan, j, ps[..k]);
      }
    }
  }

  /** Secondaries that follow the rules rise. */
  lemma {:induction false} ChainRises(
    chosen: seq<Item>, fixed: seq<Placed>, boots: seq<Placed>, ps: seq<Placed>, k: nat)
    requires k <= |ps| == |chosen|
    requires forall m :: 0 <= m < k ==> SecondaryStep(chosen[m], Ranges(fixed) + Ranges(boots), Cursor(boots), ps[..m], ps[m])
    ensures Rising(boots, ps[..k])
    decreases k
  {
    hide SecondaryStep, Ranges, Cursor, Rising;
    if k == 0 {
      NothingRises(boots, ps[..0]);
    } else {
      ChainRises(chosen, fixed, boots, ps, k - 1);
      SecondaryStepIff(chosen[k - 1], fixed, boots, ps[..k - 1], ps[k - 1]);
      DescribedEnds(chosen[k - 1], ps[k - 1]);
      var p := ps[k - 1];
      assert Behind(boots + ps[..k - 1], p.alignment, p.size, p.load);
      RisingStep(boots, ps[..k - 1], p);
      assert ps[..k] == ps[..k - 1] + [p];
    }
  }

  lemma NothingRises(boots: seq<Placed>, none: seq<Placed>)
    requires none == []
    ensures Rising(boots, none)
  {
    hide Cursor;
  }

  lemma DescribedEnds(item: Item, p: Placed)
    requires Described(item, p)
    ensures p.size > 0 && p.load <= p.end
  {
    hide Asks;
  }

  lemma ClassPrefix(items: seq<Item>, plan: seq<Placed>, keep: Item -> bool, i: nat)
    requires |plan| == |items| && i <= |items|
    ensures |Select(keep, items[..i])| <= |Project(items, plan, keep)|
    ensures AllOf(items, plan, keep, i, Project(items, plan, keep)[..|Select(keep, items[..i])|])
  {
    hide Select, Project;
    EarlierAre(items, plan, keep, i);
  }

  lemma WholeClass(items: seq<Item>, plan: seq<Placed>, keep: Item -> bool)
    requires |plan| == |items|
    ensures AllOf(items, plan, keep, |items|, Project(items, plan, keep))
  {
    hide Select, Project, AllOf;
    ClassPrefix(items, plan, keep, |items|);
    ProjectLength(items, plan, keep);
    assert items[..|items|] == items;
    var ps := Project(items, plan, keep);
    assert ps[..|ps|] == ps;
  }

  /** The secondaries of a well-placed plan follow the rules one after the other. */
  lemma {:induction false} PlacedSteps(items: seq<Item>, plan: seq<Placed>, k: nat)
    requires |plan| == |items| && forall i :: 0 <= i < |items| ==> items[i].fileType.Some?
    requires forall i :: 0 <= i < |items| && Follows(items[i]) ==> WellPlaced(items, plan, i)
    requires k <= |Project(items, plan, IsSecondary)| == |Select(IsSecondary, items)|
    ensures var fixed, boots := Project(items, plan, IsFixed), Project(items, plan, IsBoot);
            var ps := Project(items, plan, IsSecondary);
            forall m :: 0 <= m < k ==>
              SecondaryStep(Select(IsSecondary, items)[m], Ranges(fixed) + Ranges(boots), Cursor(boots), ps[..m], ps[m])
    decreases k
  {
    hide SecondaryStep, WellPlaced, Select, Project, Follows, Ranges, Cursor, Rising, AllOf, IsSecondary, IsBoot, IsFixed;
    if k > 0 {
      PlacedSteps(items, plan, k - 1);
      var fixed, boots := Project(items, plan, IsFixed), Project(items, plan, IsBoot);
      var ps := Project(items, plan, IsSecondary);
      ChainRises(Select(IsSecondary, items), fixed, boots, ps, k - 1);
      assert items[..|items|] == items;
      var j := ProjectSource(items, plan, IsSecondary, |items|, k - 1);
      ClassesAre(items[j]);
      WholeClass(items, plan, IsFixed);
      WholeClass(items, plan, IsBoot);
      ClassPrefix(items, plan, IsSecondary, j);
      SecondaryAt(items, plan, j, fixed, boots, ps[..k - 1]);
    }
  }

  lemma SecondaryChainIff(items: seq<Item>, plan: seq<Placed>)
    requires |plan| == |items| && forall i :: 0 <= i < |items| ==> items[i].fileType.Some?
    ensures var fixed, boots := Project(items, plan, IsFixed), Project(items, plan, IsBoot);
            (SecondaryChain(Select(IsSecondary, items), Ranges(fixed) + Ranges(boots), Cursor(boots),
                            Project(items, plan, IsSecondary))
             <==> forall i :: 0 <= i < |items| && Follows(items[i]) ==> WellPlaced(items, plan, i))
  {
    hide SecondaryStep, WellPlaced, Select, Project, Follows, Ranges, Cursor, Rising, AllOf, IsSecondary;
    var fixed, boots := Project(items, plan, IsFixed), Project(items, plan, IsBoot);
    var chosen, ps := Select(IsSecondary, items), Project(items, plan, IsSecondary);
    ProjectLength(items, plan, IsSecondary);
    if SecondaryChain(chosen, Ranges(fixed) + Ranges(boots), Cursor(boots), ps) {
      forall i | 0 <= i < |items| && Follows(items[i]) ensures WellPlaced(items, plan, i) {
        var k := |Select(IsSecondary, items[..i])|;
        ClassesAre(items[i]);
        ProjectAt(items, plan, IsSecondary, i);
        assert SecondaryStep(chosen[k], Ranges(fixed) + Ranges(boots), Cursor(boots), ps[..k], ps[k]);
        ChainRises(chosen, fixed, boots, ps, k);
        WholeClass(items, plan, IsFixed);
        WholeClass(items, plan, IsBoot);
        ClassPrefix(items, plan, IsSecondary, i);
        SecondaryAt(items, plan, i, fixed, boots, ps[..k]);
      }
    }
    if forall i :: 0 <= i < |items| && Follows(items[i]) ==> WellPlaced(items, plan, i) {
      PlacedSteps(items, plan, |ps|);
    }
  }

  /** The planning rules are exactly that every module is well placed: what the planner returns for distinct
      paths is the one such plan, and it refuses exactly when there is none. */
  lemma PlanIff(items: seq<Item>, plan: seq<Placed>)
    ensures FollowsRules(items, plan) <==> PlanIs(items, plan)
  {
    hide FixedChain, BootChain, SecondaryChain, WellPlaced, Select, Project, Keeps, Boots, Follows, Ranges, Cursor;
    if PlanIs(items, plan) {
      forall i | 0 <= i < |items| ensures items[i].fileType.Some? && plan[i].path == items[i].path {
        PlacedPath(items, plan, i);
      }
    }
    if |plan| == |items| && forall i :: 0 <= i < |items| ==> items[i].fileType.Some? {
      FixedChainIff(items, plan);
      BootChainIff(items, plan);
      SecondaryChainIff(items, plan);
      forall item ensures Keeps(item) || Boots(item) || Follows(item) {
        ClassesAre(item);
      }
    }
  }

  lemma PlacedPath(items: seq<Item>, plan: seq<Placed>, i: nat)
    requires i < |items| == |plan| && WellPlaced(items, plan, i)
    ensures items[i].fileType.Some? && plan[i].path == items[i].path
  {
    hide Room, Asks, Least;
  }

  /** The planner works, and answers, in the order of the case-folded paths. */
  lemma PlanOrder(inputs: seq<Item>, rank: string -> int)
    ensures var items := Sort(PathOrder(rank), inputs);
            && multiset(items) == multiset(inputs)
            && forall i, j :: 0 <= i < j < |items| ==> rank(items[i].path) <= rank(items[j].path)
  {
    hide Sort;
    SortSorts(PathOrder(rank), inputs);
  }
}
