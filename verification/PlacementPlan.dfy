/** `placement.py`: the three-class module placement planner. */
module PlacementPlan {
  import opened Prelude
  import opened Bits
  import opened ElfModel
  import opened Placement
  import opened Sorting

  datatype Item = Item(path: string, isBoot: bool, fileType: Option<int>, headers: seq<ProgramHeader>)
  {
    /** ET_EXEC modules keep their own addresses. */
    predicate Fixed() {
      fileType == Some(2)
    }

    predicate Boot() {
      !Fixed() && isBoot
    }

    predicate Secondary() {
      !Fixed() && !isBoot
    }
  }

  datatype Kind = FixedAddress | BootInferred | AnalysisOnly

  datatype Placed = Placed(
    path: string, load: int, base: int, size: int, end: int, alignment: nat,
    kind: Kind, confidence: real, runtimeClaim: bool, requiresRelocation: bool)

  function Place(path: string, l: Layout, load: int, kind: Kind): Placed {
    Placed(path, load, l.base, l.size, load + l.size, l.alignment, kind,
           match kind case FixedAddress => 1.0 case BootInferred => 0.95 case AnalysisOnly => 0.5,
           !kind.AnalysisOnly?, !kind.FixedAddress?)
  }

  function Range(p: Placed): (int, int) {
    (p.load, p.end)
  }

  function Ranges(ps: seq<Placed>): seq<(int, int)> {
    seq(|ps|, i requires 0 <= i < |ps| => Range(ps[i]))
  }

  // ---- What each class of placement means ----

  ghost predicate FixedChain(items: seq<Item>, ps: seq<Placed>) {
    && |ps| == |items|
    && (forall k :: 0 <= k < |ps| ==> FixedStep(items[k], ps[k]))
  }

  ghost predicate FixedStep(item: Item, p: Placed) {
    exists l :: IsLayout(item.headers, l) && p == Place(item.path, l, l.base, FixedAddress)
  }

  /** The end of the highest boot range so far, from the first user allocation up. */
  function Cursor(ps: seq<Placed>): int {
    if ps == [] then 0x0880_4000 else Max(Cursor(ps[..|ps| - 1]), ps[|ps| - 1].end)
  }

  /** The first boot module takes the first aligned user address; a further one the least free
      address above the boot ranges, as an analysis-only placement. */
  ghost predicate BootStepWith(item: Item, earlier: seq<Placed>, p: Placed, l: Layout) {
    && IsLayout(item.headers, l)
    && if earlier == [] then
         p == Place(item.path, l, AlignUp(0x0880_4000, l.alignment), BootInferred) && p.end <= 0x1_0000_0000
       else
         p == Place(item.path, l, p.load, AnalysisOnly)
         && IsLeastFit(p.load, Cursor(earlier), l.size, l.alignment, Ranges(earlier))
  }

  ghost predicate BootStep(item: Item, earlier: seq<Placed>, p: Placed) {
    exists l :: BootStepWith(item, earlier, p, l)
  }

  ghost predicate BootChain(items: seq<Item>, ps: seq<Placed>) {
    && |ps| == |items|
    && (forall k :: 0 <= k < |ps| ==> BootStep(items[k], ps[..k], ps[k]))
  }

  function SearchStart(cursor: int, earlier: seq<Placed>): int {
    if earlier == [] then cursor else earlier[|earlier| - 1].end
  }

  /** A secondary module takes the least address at or above the previous one's end that avoids the
      occupied ranges and every earlier secondary. */
  ghost predicate SecondaryStepWith(
    item: Item, occupied: seq<(int, int)>, cursor: int, earlier: seq<Placed>, p: Placed, l: Layout)
  {
    && IsLayout(item.headers, l)
    && p == Place(item.path, l, p.load, AnalysisOnly)
    && IsLeastFit(p.load, SearchStart(cursor, earlier), l.size, l.alignment, occupied + Ranges(earlier))
  }

  ghost predicate SecondaryStep(
    item: Item, occupied: seq<(int, int)>, cursor: int, earlier: seq<Placed>, p: Placed)
  {
    exists l :: SecondaryStepWith(item, occupied, cursor, earlier, p, l)
  }

  ghost predicate SecondaryChain(items: seq<Item>, occupied: seq<(int, int)>, cursor: int, ps: seq<Placed>) {
    && |ps| == |items|
    && (forall k :: 0 <= k < |ps| ==> SecondaryStep(items[k], occupied, cursor, ps[..k], ps[k]))
  }

  // ---- Placing each class ----

  lemma FixedStepUnique(item: Item, p: Placed, q: Placed)
    requires FixedStep(item, p) && FixedStep(item, q)
    ensures p == q
  {
    hide IsLayout;
    var l :| IsLayout(item.headers, l) && p == Place(item.path, l, l.base, FixedAddress);
    var m :| IsLayout(item.headers, m) && q == Place(item.path, m, m.base, FixedAddress);
    LayoutUnique(item.headers, l, m);
  }

  lemma {:induction false} BootStepUnique(item: Item, earlier: seq<Placed>, p: Placed, q: Placed)
    requires BootStep(item, earlier, p) && BootStep(item, earlier, q)
    ensures p == q
  {
    hide LowestVaddr, HighestEnd, IsPow2, LoadedSegments, IsLeastFit, AlignUp, Cursor, Ranges;
    var l :| BootStepWith(item, earlier, p, l);
    var m :| BootStepWith(item, earlier, q, m);
    LayoutUnique(item.headers, l, m);
    if earlier != [] {
      LeastFitUnique(p.load, q.load, Cursor(earlier), l.size, l.alignment, Ranges(earlier));
    }
  }

  lemma {:induction false} SecondaryStepUnique(
    item: Item, occupied: seq<(int, int)>, cursor: int, earlier: seq<Placed>, p: Placed, q: Placed)
    requires SecondaryStep(item, occupied, cursor, earlier, p) && SecondaryStep(item, occupied, cursor, earlier, q)
    ensures p == q
  {
    hide LowestVaddr, HighestEnd, IsPow2, LoadedSegments, IsLeastFit, Ranges;
    var l :| SecondaryStepWith(item, occupied, cursor, earlier, p, l);
    var m :| SecondaryStepWith(item, occupied, cursor, earlier, q, m);
    LayoutUnique(item.headers, l, m);
    LeastFitUnique(p.load, q.load, SearchStart(cursor, earlier), l.size, l.alignment, occupied + Ranges(earlier));
  }

  /** Two chains agree as far as both go. */
  lemma {:induction false} BootChainPrefix(items: seq<Item>, ps: seq<Placed>, qs: seq<Placed>, n: nat)
    requires n <= |ps| && n <= |qs| <= |items|
    requires |ps| <= |items| && BootChain(items[..|ps|], ps) && BootChain(items[..|qs|], qs)
    ensures ps[..n] == qs[..n]
    decreases n
  {
    hide BootStep;
    if n > 0 {
      BootChainPrefix(items, ps, qs, n - 1);
      BootStepUnique(items[n - 1], ps[..n - 1], ps[n - 1], qs[n - 1]);
    }
  }

  lemma {:induction false} SecondaryChainPrefix(
    items: seq<Item>, occupied: seq<(int, int)>, cursor: int, ps: seq<Placed>, qs: seq<Placed>, n: nat)
    requires n <= |ps| && n <= |qs| <= |items| && |ps| <= |items|
    requires SecondaryChain(items[..|ps|], occupied, cursor, ps) && SecondaryChain(items[..|qs|], occupied, cursor, qs)
    ensures ps[..n] == qs[..n]
    decreases n
  {
    hide SecondaryStep;
    if n > 0 {
      SecondaryChainPrefix(items, occupied, cursor, ps, qs, n - 1);
      SecondaryStepUnique(items[n - 1], occupied, cursor, ps[..n - 1], ps[n - 1], qs[n - 1]);
    }
  }

  lemma {:induction false} CursorAbove(ps: seq<Placed>)
    ensures Cursor(ps) >= 0x0880_4000
    ensures forall p :: p in ps ==> p.end <= Cursor(ps)
  {
    if ps != [] {
      CursorAbove(ps[..|ps| - 1]);
      assert ps == ps[..|ps| - 1] + [ps[|ps| - 1]];
    }
  }

  /** Refusals are justified: when a boot module cannot be placed, no chain exists at all. */
  method PlaceBoots(items: seq<Item>) returns (r: Result<seq<Placed>, PlanError>, cursor: int)
    ensures r.Ok? ==> BootChain(items, r.value) && cursor == Cursor(r.value)
    ensures r.Err? ==> forall ps :: !BootChain(items, ps)
  {
    hide BootStep;
    var ps: seq<Placed> := [];
    cursor := 0x0880_4000;
    while |ps| < |items|
      invariant |ps| <= |items| && BootChain(items[..|ps|], ps) && cursor == Cursor(ps)
    {
      var step := PlaceBoot(items[|ps|], ps, cursor);
      if step.Err? {
        forall qs ensures !BootChain(items, qs) {
          NoBootChain(items, ps, qs);
        }
        return Err(step.error), cursor;
      }
      BootChainExtends(items, ps, step.value);
      cursor := Max(cursor, step.value.end);
      ps := ps + [step.value];
    }
    assert items[..|ps|] == items;
    r := Ok(ps);
  }

  lemma {:induction false} BootChainExtends(items: seq<Item>, ps: seq<Placed>, p: Placed)
    requires |ps| < |items| && BootChain(items[..|ps|], ps) && BootStep(items[|ps|], ps, p)
    ensures BootChain(items[..|ps| + 1], ps + [p]) && Cursor(ps + [p]) == Max(Cursor(ps), p.end)
  {
    hide BootStep;
    var qs := ps + [p];
    assert qs[..|ps|] == ps;
    forall k | 0 <= k < |qs| ensures BootStep(items[k], qs[..k], qs[k]) {
      if k < |ps| {
        assert qs[..k] == ps[..k] && BootStep(items[..|ps|][k], ps[..k], ps[k]);
      }
    }
  }

  lemma NoBootChain(items: seq<Item>, ps: seq<Placed>, qs: seq<Placed>)
    requires |ps| < |items| && BootChain(items[..|ps|], ps)
    requires forall p :: !BootStep(items[|ps|], ps, p)
    ensures !BootChain(items, qs)
  {
    hide BootStep;
    assert ps[..|ps|] == ps;
    if BootChain(items, qs) {
      assert items[..|qs|] == items;
      BootChainPrefix(items, ps, qs, |ps|);
      assert false;
    }
  }

  method PlaceBoot(item: Item, earlier: seq<Placed>, cursor: int) returns (r: Result<Placed, PlanError>)
    requires cursor == Cursor(earlier)
    ensures r.Ok? ==> BootStep(item, earlier, r.value)
    ensures r.Err? ==> forall p :: !BootStep(item, earlier, p)
  {
    hide AlignUp, IsPow2, IsLeastFit, NothingFits, LowestVaddr, HighestEnd, Cursor, Ranges;
    CursorAbove(earlier);
    var layout := LayoutOf(item.headers);
    if layout.Err? {
      NoLayout(item.headers);
      return Err(layout.error);
    }
    var l := layout.value;
    forall m | IsLayout(item.headers, m) ensures m == l {
      LayoutUnique(item.headers, l, m);
    }
    if earlier == [] {
      var load := AlignUp(0x0880_4000, l.alignment);
      if load + l.size > 0x1_0000_0000 {
        return Err(BootOutside);
      }
      r := Ok(Place(item.path, l, load, BootInferred));
      assert BootStepWith(item, earlier, r.value, l);
    } else {
      var load := FindFree(cursor, l.size, l.alignment, Ranges(earlier));
      AlignUpIsCeiling(cursor, l.alignment);
      if load.Err? {
        NoLeastFit(cursor, l.size, l.alignment, Ranges(earlier));
        return Err(load.error);
      }
      r := Ok(Place(item.path, l, load.value, AnalysisOnly));
      assert BootStepWith(item, earlier, r.value, l);
    }
  }

  lemma {:induction false} NoLayout(headers: seq<ProgramHeader>)
    requires LoadedSegments(headers) == [] || HighestEnd(LoadedSegments(headers)) > 0x1_0000_0000
    ensures forall l :: !IsLayout(headers, l)
  {
  }

  lemma {:induction false} NoLeastFit(start: int, size: int, alignment: int, occupied: seq<(int, int)>)
    requires alignment > 0 && NothingFits(start, size, alignment, occupied)
    ensures forall a :: !IsLeastFit(a, start, size, alignment, occupied)
  {
    hide Fits;
  }

  method PlaceSecondaries(items: seq<Item>, occupied: seq<(int, int)>, cursor: int)
    returns (r: Result<seq<Placed>, PlanError>)
    requires cursor >= 0
    ensures r.Ok? ==> SecondaryChain(items, occupied, cursor, r.value)
    ensures r.Err? ==> forall ps :: !SecondaryChain(items, occupied, cursor, ps)
  {
    hide SecondaryStep;
    var ps: seq<Placed> := [];
    while |ps| < |items|
      invariant |ps| <= |items| && SecondaryChain(items[..|ps|], occupied, cursor, ps)
      invariant SearchStart(cursor, ps) >= 0
    {
      var step := PlaceSecondary(items[|ps|], occupied, cursor, ps);
      if step.Err? {
        forall qs ensures !SecondaryChain(items, occupied, cursor, qs) {
          NoSecondaryChain(items, occupied, cursor, ps, qs);
        }
        return Err(step.error);
      }
      SecondaryChainExtends(items, occupied, cursor, ps, step.value);
      ps := ps + [step.value];
    }
    assert items[..|ps|] == items;
    r := Ok(ps);
  }

  lemma {:induction false} SecondaryChainExtends(
    items: seq<Item>, occupied: seq<(int, int)>, cursor: int, ps: seq<Placed>, p: Placed)
    requires |ps| < |items| && SecondaryChain(items[..|ps|], occupied, cursor, ps)
    requires SecondaryStep(items[|ps|], occupied, cursor, ps, p)
    ensures SecondaryChain(items[..|ps| + 1], occupied, cursor, ps + [p])
  {
    hide SecondaryStep;
    var qs := ps + [p];
    assert qs[..|ps|] == ps;
    forall k | 0 <= k < |qs| ensures SecondaryStep(items[k], occupied, cursor, qs[..k], qs[k]) {
      if k < |ps| {
        assert qs[..k] == ps[..k] && SecondaryStep(items[..|ps|][k], occupied, cursor, ps[..k], ps[k]);
      }
    }
  }

  lemma {:induction false} NoSecondaryChain(
    items: seq<Item>, occupied: seq<(int, int)>, cursor: int, ps: seq<Placed>, qs: seq<Placed>)
    requires |ps| < |items| && SecondaryChain(items[..|ps|], occupied, cursor, ps)
    requires forall p :: !SecondaryStep(items[|ps|], occupied, cursor, ps, p)
    ensures !SecondaryChain(items, occupied, cursor, qs)
  {
    hide SecondaryStep;
    assert ps[..|ps|] == ps;
    if SecondaryChain(items, occupied, cursor, qs) {
      assert items[..|qs|] == items;
      SecondaryChainPrefix(items, occupied, cursor, ps, qs, |ps|);
      assert false;
    }
  }

  method PlaceSecondary(item: Item, occupied: seq<(int, int)>, cursor: int, earlier: seq<Placed>)
    returns (r: Result<Placed, PlanError>)
    requires SearchStart(cursor, earlier) >= 0
    ensures r.Ok? ==> SecondaryStep(item, occupied, cursor, earlier, r.value) && r.value.end >= 0
    ensures r.Err? ==> forall p :: !SecondaryStep(item, occupied, cursor, earlier, p)
  {
    hide AlignUp, IsPow2, IsLeastFit, NothingFits, LowestVaddr, HighestEnd, Ranges, Fits;
    var layout := LayoutOf(item.headers);
    if layout.Err? {
      NoLayout(item.headers);
      return Err(layout.error);
    }
    var l := layout.value;
    forall m | IsLayout(item.headers, m) ensures m == l {
      LayoutUnique(item.headers, l, m);
    }
    var from := SearchStart(cursor, earlier);
    var load := FindFree(from, l.size, l.alignment, occupied + Ranges(earlier));
    AlignUpIsCeiling(from, l.alignment);
    if load.Err? {
      NoLeastFit(from, l.size, l.alignment, occupied + Ranges(earlier));
      return Err(load.error);
    }
    r := Ok(Place(item.path, l, load.value, AnalysisOnly));
    assert SecondaryStepWith(item, occupied, cursor, earlier, r.value, l);
    LeastFitBounds(load.value, from, l.size, l.alignment, occupied + Ranges(earlier));
  }

  lemma {:induction false} LeastFitBounds(a: int, start: int, size: int, alignment: int, occupied: seq<(int, int)>)
    requires alignment > 0 && IsLeastFit(a, start, size, alignment, occupied)
    ensures start <= a && 0 <= a && a + size <= 0x1_0000_0000 && Aligned(a, alignment)
    ensures forall o :: o in occupied ==> !Overlaps(a, a + size, o)
  {
  }

  // ---- The whole plan ----

  /** `rank` stands for the order of case-folded paths. */
  predicate PathLe(rank: string -> int, a: Item, b: Item) {
    rank(a.path) <= rank(b.path)
  }

  /** Dictionary assignment: a repeated path keeps its place and takes the new value. */
  function Put(d: seq<Placed>, p: Placed): seq<Placed> {
    if d == [] then [p]
    else if d[0].path == p.path then [p] + d[1..]
    else [d[0]] + Put(d[1..], p)
  }

  function PutAll(d: seq<Placed>, ps: seq<Placed>): seq<Placed>
    decreases |ps|
  {
    if ps == [] then d else Put(PutAll(d, ps[..|ps| - 1]), ps[|ps| - 1])
  }

  function Find(d: seq<Placed>, path: string): Option<Placed> {
    if d == [] then None
    else if d[0].path == path then Some(d[0])
    else Find(d[1..], path)
  }

  ghost predicate DistinctPaths(items: seq<Item>) {
    forall i, j :: 0 <= i < j < |items| ==> items[i].path != items[j].path
  }

  /** The placements a plan gives to one class of items, in order. */
  ghost function Project(items: seq<Item>, plan: seq<Placed>, keep: Item -> bool): seq<Placed>
    requires |plan| == |items|
  {
    if items == [] then []
    else (if keep(items[0]) then [plan[0]] else []) + Project(items[1..], plan[1..], keep)
  }

  predicate IsFixed(i: Item) {
    i.Fixed()
  }

  predicate IsBoot(i: Item) {
    i.Boot()
  }

  predicate IsSecondary(i: Item) {
    i.Secondary()
  }

  /** The planning rules for path-ordered items, read off the finished plan. */
  ghost predicate FollowsRules(items: seq<Item>, plan: seq<Placed>) {
    && |plan| == |items|
    && (forall i :: 0 <= i < |items| ==> items[i].fileType.Some? && plan[i].path == items[i].path)
    && RulesOf(items, Project(items, plan, IsFixed), Project(items, plan, IsBoot), Project(items, plan, IsSecondary))
  }

  ghost predicate RulesOf(items: seq<Item>, fixed: seq<Placed>, boots: seq<Placed>, secondaries: seq<Placed>) {
    && FixedChain(Select(IsFixed, items), fixed)
    && BootChain(Select(IsBoot, items), boots)
    && SecondaryChain(Select(IsSecondary, items), Ranges(fixed) + Ranges(boots), Cursor(boots), secondaries)
  }

  // ---- Safety of a plan ----

  predicate Disjoint(p: Placed, q: Placed) {
    p.end <= q.load || q.end <= p.load
  }

  /** The shifted load segments stay inside 2^32, as the load view demands of a load address. */
  predicate LoadsFit(item: Item, p: Placed) {
    forall s :: s in LoadedSegments(item.headers) ==>
      0 <= s.vaddr + (p.load - p.base) && s.vaddr + (p.load - p.base) + s.memsz <= 0x1_0000_0000
  }

  lemma {:induction false} HullFits(item: Item, p: Placed, l: Layout)
    requires IsLayout(item.headers, l) && p.base == l.base && p.size == l.size
    requires 0 <= p.load && p.load + p.size <= 0x1_0000_0000
    ensures LoadsFit(item, p)
  {
  }

  lemma {:induction false} BootFacts(items: seq<Item>, ps: seq<Placed>, k: nat)
    requires k < |ps| && BootChain(items, ps)
    ensures LoadsFit(items[k], ps[k]) && ps[k].load < ps[k].end <= 0x1_0000_0000
    ensures ps[k].alignment > 0 && Aligned(ps[k].load, ps[k].alignment) && RequestsMet(items[k], ps[k])
    ensures 0x0880_4000 <= ps[k].load
    ensures forall m :: 0 <= m < k ==> Disjoint(ps[m], ps[k])
  {
    hide IsPow2, Aligned, AlignUp, MeetsRequests, RequestsMet;
    assert BootStep(items[k], ps[..k], ps[k]);
    var l :| BootStepWith(items[k], ps[..k], ps[k], l);
    AlignUpIsCeiling(0x0880_4000, l.alignment);
    CursorAbove(ps[..k]);
    if k > 0 {
      LeastFitBounds(ps[k].load, Cursor(ps[..k]), l.size, l.alignment, Ranges(ps[..k]));
      forall m | 0 <= m < k ensures Disjoint(ps[m], ps[k]) {
        assert Ranges(ps[..k])[m] == Range(ps[m]);
      }
    }
    HullFits(items[k], ps[k], l);
    LayoutMeets(items[k], ps[k], l);
  }

  lemma {:induction false} LayoutMeets(item: Item, p: Placed, l: Layout)
    requires IsLayout(item.headers, l) && Aligned(p.load, l.alignment)
    ensures RequestsMet(item, p)
  {
    hide LowestVaddr, HighestEnd, IsPow2, Requested, Aligned;
    forall s | s in LoadedSegments(item.headers)
      ensures Requested(s.align) > 0 && Aligned(p.load, Requested(s.align))
    {
      AlignedToDivisor(p.load, l.alignment, Requested(s.align));
    }
  }

  lemma {:induction false} SecondaryFacts(
    items: seq<Item>, occupied: seq<(int, int)>, cursor: int, ps: seq<Placed>, k: nat)
    requires k < |ps| && SecondaryChain(items, occupied, cursor, ps)
    ensures LoadsFit(items[k], ps[k]) && 0 <= ps[k].load < ps[k].end <= 0x1_0000_0000
    ensures ps[k].alignment > 0 && Aligned(ps[k].load, ps[k].alignment) && RequestsMet(items[k], ps[k])
    ensures SearchStart(cursor, ps[..k]) <= ps[k].load
    ensures forall o :: o in occupied ==> o.1 <= ps[k].load || ps[k].end <= o.0
  {
    assert SecondaryStep(items[k], occupied, cursor, ps[..k], ps[k]);
    SecondaryStepFacts(items[k], occupied, cursor, ps[..k], ps[k]);
  }

  lemma {:induction false} SecondaryStepFacts(
    item: Item, occupied: seq<(int, int)>, cursor: int, earlier: seq<Placed>, p: Placed)
    requires SecondaryStep(item, occupied, cursor, earlier, p)
    ensures LoadsFit(item, p) && 0 <= p.load < p.end <= 0x1_0000_0000
    ensures p.alignment > 0 && Aligned(p.load, p.alignment) && RequestsMet(item, p)
    ensures SearchStart(cursor, earlier) <= p.load
    ensures forall o :: o in occupied ==> o.1 <= p.load || p.end <= o.0
  {
    hide IsPow2, Aligned, Ranges, LoadsFit, RequestsMet, MeetsRequests, SearchStart, LoadedSegments, LowestVaddr,
      HighestEnd, IsLeastFit;
    var l :| SecondaryStepWith(item, occupied, cursor, earlier, p, l);
    LeastFitBounds(p.load, SearchStart(cursor, earlier), l.size, l.alignment, occupied + Ranges(earlier));
    HullFits(item, p, l);
    LayoutMeets(item, p, l);
    forall o | o in occupied ensures o.1 <= p.load || p.end <= o.0 {
      assert o in occupied + Ranges(earlier);
    }
  }

  lemma {:induction false} SecondariesAscend(
    items: seq<Item>, occupied: seq<(int, int)>, cursor: int, ps: seq<Placed>, m: nat, k: nat)
    requires m < k < |ps| && SecondaryChain(items, occupied, cursor, ps)
    ensures ps[m].end <= ps[k].load
    decreases k
  {
    hide *;
    SecondaryFacts(items, occupied, cursor, ps, k);
    StartsAfter(ps, cursor, k);
    if m < k - 1 {
      SecondariesAscend(items, occupied, cursor, ps, m, k - 1);
      SecondaryFacts(items, occupied, cursor, ps, k - 1);
    }
  }

  lemma StartsAfter(ps: seq<Placed>, cursor: int, k: nat)
    requires 0 < k <= |ps|
    ensures SearchStart(cursor, ps[..k]) == ps[k - 1].end
  {
  }

  lemma {:induction false} ProjectCons(items: seq<Item>, plan: seq<Placed>, keep: Item -> bool)
    requires |plan| == |items| && items != []
    ensures Project(items, plan, keep)
         == (if keep(items[0]) then [plan[0]] else []) + Project(items[1..], plan[1..], keep)
  {
  }

  lemma {:induction false} ProjectAt(items: seq<Item>, plan: seq<Placed>, keep: Item -> bool, i: nat)
    requires |plan| == |items| && i < |items| && keep(items[i])
    ensures var k := |Select(keep, items[..i])|;
            && k < |Select(keep, items)| == |Project(items, plan, keep)|
            && Select(keep, items)[k] == items[i] && Project(items, plan, keep)[k] == plan[i]
    decreases i
  {
    hide Select, Project;
    ProjectLength(items, plan, keep);
    ProjectCons(items, plan, keep);
    assert items == [items[0]] + items[1..];
    SelectCons(keep, items[0], items[1..]);
    if i == 0 {
      SelectNothing(keep);
      assert items[..i] == [];
    } else {
      ProjectAt(items[1..], plan[1..], keep, i - 1);
      assert items[..i] == [items[0]] + items[1..][..i - 1];
      SelectCons(keep, items[0], items[1..][..i - 1]);
    }
  }

  lemma {:induction false} ProjectLength(items: seq<Item>, plan: seq<Placed>, keep: Item -> bool)
    requires |plan| == |items|
    ensures |Project(items, plan, keep)| == |Select(keep, items)|
    decreases |items|
  {
    if items != [] {
      ProjectLength(items[1..], plan[1..], keep);
    }
  }

  lemma {:induction false} SelectGrows(keep: Item -> bool, items: seq<Item>, i: nat, j: nat)
    requires i < j <= |items| && keep(items[i])
    ensures |Select(keep, items[..i])| < |Select(keep, items[..j])|
    decreases i
  {
    hide Select;
    var front, longer := items[..i], items[..j];
    if i == 0 {
      SelectNothing(keep);
      assert front == [] && longer == [items[0]] + longer[1..];
      SelectCons(keep, items[0], longer[1..]);
    } else {
      SelectGrows(keep, items[1..], i - 1, j - 1);
      assert front == [items[0]] + items[1..][..i - 1] && longer == [items[0]] + items[1..][..j - 1];
      SelectCons(keep, items[0], items[1..][..i - 1]);
      SelectCons(keep, items[0], items[1..][..j - 1]);
    }
  }

  /** Every load of the module begins at a multiple of what it requests, measured from the load address. */
  ghost predicate RequestsMet(item: Item, p: Placed) {
    forall s :: s in LoadedSegments(item.headers) ==>
      Requested(s.align) > 0 && Aligned(p.load, Requested(s.align))
  }

  /** Every relocatable module of a plan, whatever else the plan holds: its address is a multiple of its
      alignment and of every load's own request, and each rebased load fits the address space. */
  lemma {:induction false} RelocatableFits(items: seq<Item>, plan: seq<Placed>, i: nat)
    requires FollowsRules(items, plan) && i < |items| && !items[i].Fixed()
    ensures LoadsFit(items[i], plan[i]) && 0 <= plan[i].load < plan[i].end <= 0x1_0000_0000
    ensures plan[i].alignment > 0 && Aligned(plan[i].load, plan[i].alignment) && RequestsMet(items[i], plan[i])
    ensures items[i].Boot() ==> 0x0880_4000 <= plan[i].load
  {
    hide FixedChain, BootChain, SecondaryChain, LoadsFit, RequestsMet, Aligned, Cursor, Select, Project;
    if items[i].Boot() {
      ProjectAt(items, plan, IsBoot, i);
      BootFacts(Select(IsBoot, items), Project(items, plan, IsBoot), |Select(IsBoot, items[..i])|);
    } else {
      var occupied := Ranges(Project(items, plan, IsFixed)) + Ranges(Project(items, plan, IsBoot));
      ProjectAt(items, plan, IsSecondary, i);
      SecondaryFacts(Select(IsSecondary, items), occupied, Cursor(Project(items, plan, IsBoot)),
                     Project(items, plan, IsSecondary), |Select(IsSecondary, items[..i])|);
    }
  }

  /** A secondary module shares no byte with any other module of the plan, and secondary addresses
      increase in path order. */
  lemma {:induction false} SecondaryDisjoint(items: seq<Item>, plan: seq<Placed>, i: nat, j: nat)
    requires FollowsRules(items, plan) && i < |items| && j < |items| && i != j
    requires items[i].Secondary()
    ensures Disjoint(plan[i], plan[j])
    ensures items[j].Secondary() && i < j ==> plan[i].end <= plan[j].load
  {
    hide FixedChain, BootChain, SecondaryChain, LoadsFit, RequestsMet, Aligned, Cursor, Select, Project;
    var boots, fixed := Project(items, plan, IsBoot), Project(items, plan, IsFixed);
    var ps, secondaries := Project(items, plan, IsSecondary), Select(IsSecondary, items);
    var occupied := Ranges(fixed) + Ranges(boots);
    var k := |Select(IsSecondary, items[..i])|;
    ProjectAt(items, plan, IsSecondary, i);
    SecondaryFacts(secondaries, occupied, Cursor(boots), ps, k);
    if items[j].Secondary() {
      var m := |Select(IsSecondary, items[..j])|;
      ProjectAt(items, plan, IsSecondary, j);
      if i < j {
        SelectGrows(IsSecondary, items, i, j);
        SecondariesAscend(secondaries, occupied, Cursor(boots), ps, k, m);
      } else {
        SelectGrows(IsSecondary, items, j, i);
        SecondariesAscend(secondaries, occupied, Cursor(boots), ps, m, k);
      }
    } else if items[j].Boot() {
      var m := |Select(IsBoot, items[..j])|;
      ProjectAt(items, plan, IsBoot, j);
      assert occupied[|fixed| + m] == Range(plan[j]);
    } else {
      var m := |Select(IsFixed, items[..j])|;
      ProjectAt(items, plan, IsFixed, j);
      assert occupied[m] == Range(plan[j]);
    }
  }

  /** Boot-marked modules never overlap one another. */
  lemma BootsDisjoint(items: seq<Item>, plan: seq<Placed>, i: nat, j: nat)
    requires FollowsRules(items, plan) && i < j < |items| && items[i].Boot() && items[j].Boot()
    ensures Disjoint(plan[i], plan[j])
  {
    hide FixedChain, BootChain, SecondaryChain, LoadsFit, RequestsMet, Aligned, Select, Project;
    ProjectAt(items, plan, IsBoot, i);
    ProjectAt(items, plan, IsBoot, j);
    SelectGrows(IsBoot, items, i, j);
    BootFacts(Select(IsBoot, items), Project(items, plan, IsBoot), |Select(IsBoot, items[..j])|);
  }

  // ---- Dictionary facts ----

  lemma {:induction false} FindPut(d: seq<Placed>, p: Placed, path: string)
    ensures Find(Put(d, p), path) == if path == p.path then Some(p) else Find(d, path)
    decreases |d|
  {
    if d != [] && d[0].path != p.path {
      FindPut(d[1..], p, path);
    }
  }

  lemma {:induction false} PutNew(d: seq<Placed>, p: Placed)
    requires Find(d, p.path).None?
    ensures Put(d, p) == d + [p]
    decreases |d|
  {
    if d != [] {
      PutNew(d[1..], p);
    }
  }

  /** Assigning a list of distinct paths: each is found; every other path is untouched. */
  lemma {:induction false} FindPutAll(d: seq<Placed>, ps: seq<Placed>, path: string)
    requires forall a, b :: 0 <= a < b < |ps| ==> ps[a].path != ps[b].path
    ensures forall k :: 0 <= k < |ps| && ps[k].path == path ==> Find(PutAll(d, ps), path) == Some(ps[k])
    ensures (forall k :: 0 <= k < |ps| ==> ps[k].path != path) ==> Find(PutAll(d, ps), path) == Find(d, path)
    decreases |ps|
  {
    if ps != [] {
      var n := |ps| - 1;
      FindPutAll(d, ps[..n], path);
      FindPut(PutAll(d, ps[..n]), ps[n], path);
    }
  }

  // ---- Selections ----

  lemma {:induction false} SelectTwice(inner: Item -> bool, outer: Item -> bool, both: Item -> bool, s: seq<Item>)
    requires forall x :: x in s ==> both(x) == (inner(x) && outer(x))
    ensures Select(outer, Select(inner, s)) == Select(both, s)
    decreases |s|
  {
    if s != [] {
      assert s[0] in s;
      SelectTwice(inner, outer, both, s[1..]);
      var rest := Select(inner, s[1..]);
      if inner(s[0]) {
        assert Select(inner, s) == [s[0]] + rest && ([s[0]] + rest)[1..] == rest;
      } else {
        assert Select(inner, s) == rest;
      }
    }
  }

  lemma {:induction false} SelectDistinct(keep: Item -> bool, s: seq<Item>)
    requires DistinctPaths(s)
    ensures DistinctPaths(Select(keep, s))
    decreases |s|
  {
    if s != [] {
      assert DistinctPaths(s[1..]);
      SelectDistinct(keep, s[1..]);
      var rest := Select(keep, s[1..]);
      forall j | 0 <= j < |rest| ensures s[0].path != rest[j].path {
        assert rest[j] in s[1..];
        var m :| 0 <= m < |s[1..]| && s[1..][m] == rest[j];
        assert s[m + 1] == rest[j];
      }
      assert Select(keep, s) == if keep(s[0]) then [s[0]] + rest else rest;
    }
  }

  /** Looking each item's path up and projecting a class gives back that class's placements. */
  lemma {:induction false} ProjectLookups(items: seq<Item>, plan: seq<Placed>, keep: Item -> bool, ps: seq<Placed>)
    requires |plan| == |items| && |ps| == |Select(keep, items)|
    requires forall i, k :: 0 <= i < |items| && 0 <= k < |ps| && ps[k].path == items[i].path ==> plan[i] == ps[k]
    requires forall k :: 0 <= k < |ps| ==> ps[k].path == Select(keep, items)[k].path
    ensures Project(items, plan, keep) == ps
    decreases |items|
  {
    if items != [] {
      if keep(items[0]) {
        assert Select(keep, items)[1..] == Select(keep, items[1..]);
        ProjectLookups(items[1..], plan[1..], keep, ps[1..]);
        assert plan[0] == ps[0];
      } else {
        ProjectLookups(items[1..], plan[1..], keep, ps);
      }
    }
  }

  // ---- The planner ----

  function PathOrder(rank: string -> int): (Item, Item) -> bool {
    (a: Item, b: Item) => PathLe(rank, a, b)
  }

  /** Fixed modules at their own addresses, refusing a module without an ELF header. */
  method PlaceFixed(ordered: seq<Item>) returns (r: Result<seq<Placed>, PlanError>)
    ensures r.Ok? ==> forall i :: 0 <= i < |ordered| ==> ordered[i].fileType.Some?
    ensures r.Ok? && DistinctPaths(ordered) ==> FixedChain(Select(IsFixed, ordered), r.value)
    ensures r.Ok? ==> forall i :: 0 <= i < |ordered| ==>
                        (Find(r.value, ordered[i].path).None? ==> !ordered[i].Fixed())
                        && (DistinctPaths(ordered) && !ordered[i].Fixed() ==> Find(r.value, ordered[i].path).None?)
    ensures r.Err? ==> forall plan :: !FollowsRules(ordered, plan)
  {
    hide FixedSoFar, FollowsRules, IsLayout;
    var fixed: seq<Placed> := [];
    FixedStart(ordered);
    for i := 0 to |ordered|
      invariant forall j :: 0 <= j < i ==> ordered[j].fileType.Some?
      invariant FixedSoFar(ordered, i, fixed)
    {
      var item := ordered[i];
      if item.fileType.None? {
        NoHeaderPlan(ordered, i);
        return Err(NoHeader);
      }
      if item.fileType.value == 2 {
        var layout := LayoutOf(item.headers);
        if layout.Err? {
          NoLayout(item.headers);
          NoFixedPlan(ordered, i);
          return Err(layout.error);
        }
        var p := Place(item.path, layout.value, layout.value.base, FixedAddress);
        FixedPlaced(item, layout.value);
        FixedPut(ordered, i, fixed, p);
        fixed := Put(fixed, p);
      } else {
        FixedSkip(ordered, i, fixed);
      }
    }
    FixedDone(ordered, fixed);
    r := Ok(fixed);
  }

  /** The fixed dictionary after the first `n` items. */
  ghost predicate FixedSoFar(ordered: seq<Item>, n: nat, fixed: seq<Placed>)
    requires n <= |ordered|
  {
    && (DistinctPaths(ordered) ==> FixedChain(Select(IsFixed, ordered[..n]), fixed))
    && (forall j :: 0 <= j < n && ordered[j].Fixed() ==> Find(fixed, ordered[j].path).Some?)
    && (forall path :: Find(fixed, path).Some? ==>
          exists j :: 0 <= j < n && ordered[j].Fixed() && ordered[j].path == path)
  }

  lemma {:induction false} FixedStart(ordered: seq<Item>)
    ensures FixedSoFar(ordered, 0, [])
  {
  }

  lemma {:induction false} FixedSkip(ordered: seq<Item>, n: nat, fixed: seq<Placed>)
    requires n < |ordered| && FixedSoFar(ordered, n, fixed) && !ordered[n].Fixed()
    ensures FixedSoFar(ordered, n + 1, fixed)
  {
    hide FixedChain, Find, Select;
    assert ordered[..n + 1] == ordered[..n] + [ordered[n]];
    SelectSnoc(IsFixed, ordered[..n], ordered[n]);
    assert Select(IsFixed, ordered[..n]) + [] == Select(IsFixed, ordered[..n]);
  }

  lemma {:induction false} FixedPut(ordered: seq<Item>, n: nat, fixed: seq<Placed>, p: Placed)
    requires n < |ordered| && FixedSoFar(ordered, n, fixed) && ordered[n].Fixed()
    requires FixedStep(ordered[n], p) && p.path == ordered[n].path
    ensures FixedSoFar(ordered, n + 1, Put(fixed, p))
  {
    hide FixedStep, Find, Select, Put;
    forall path ensures Find(Put(fixed, p), path) == if path == p.path then Some(p) else Find(fixed, path) {
      FindPut(fixed, p, path);
    }
    if DistinctPaths(ordered) {
      assert ordered[..n + 1] == ordered[..n] + [ordered[n]];
      SelectSnoc(IsFixed, ordered[..n], ordered[n]);
      assert Find(fixed, p.path).None?;
      PutNew(fixed, p);
    }
  }

  lemma {:induction false} FixedDone(ordered: seq<Item>, fixed: seq<Placed>)
    requires FixedSoFar(ordered, |ordered|, fixed)
    ensures DistinctPaths(ordered) ==> FixedChain(Select(IsFixed, ordered), fixed)
    ensures forall i :: 0 <= i < |ordered| ==>
              (Find(fixed, ordered[i].path).None? ==> !ordered[i].Fixed())
              && (DistinctPaths(ordered) && !ordered[i].Fixed() ==> Find(fixed, ordered[i].path).None?)
  {
    hide FixedChain, Find, Select;
    assert ordered[..|ordered|] == ordered;
  }

  lemma NoHeaderPlan(ordered: seq<Item>, i: nat)
    requires i < |ordered| && ordered[i].fileType.None?
    ensures forall plan :: !FollowsRules(ordered, plan)
  {
    hide RulesOf;
  }

  lemma {:induction false} FixedPlaced(item: Item, l: Layout)
    requires IsLayout(item.headers, l)
    ensures FixedStep(item, Place(item.path, l, l.base, FixedAddress))
  {
  }

  /** A fixed module without a layout rules every plan out. */
  lemma NoFixedPlan(ordered: seq<Item>, i: nat)
    requires i < |ordered| && ordered[i].Fixed() && forall l :: !IsLayout(ordered[i].headers, l)
    ensures forall plan :: !FollowsRules(ordered, plan)
  {
    hide IsLayout, BootChain, SecondaryChain;
    forall plan ensures !FollowsRules(ordered, plan) {
      if |plan| == |ordered| {
        ProjectAt(ordered, plan, IsFixed, i);
        NoFixedChain(Select(IsFixed, ordered), Project(ordered, plan, IsFixed), |Select(IsFixed, ordered[..i])|);
      }
    }
  }

  lemma NoFixedChain(items: seq<Item>, ps: seq<Placed>, k: nat)
    requires k < |items| == |ps| && forall l :: !IsLayout(items[k].headers, l)
    ensures !FixedChain(items, ps)
  {
    hide IsLayout;
    assert !FixedStep(items[k], ps[k]);
  }

  /** The planner.  For distinct paths a returned plan follows the rules for the path-ordered items,
      and a refusal means that no plan does. */
  method PlanModulePlacements(inputs: seq<Item>, rank: string -> int) returns (r: Result<seq<Placed>, PlanError>)
    ensures r.Ok? ==> |r.value| == |inputs|
    ensures DistinctPaths(Sort(PathOrder(rank), inputs)) ==>
              (r.Ok? ==> FollowsRules(Sort(PathOrder(rank), inputs), r.value))
              && (r.Err? ==> forall plan :: !FollowsRules(Sort(PathOrder(rank), inputs), plan))
  {
    hide FixedChain, BootChain, SecondaryChain, FollowsRules, Cursor, Sort, Select, Find, PutAll;
    var le := PathOrder(rank);
    var ordered := Sort(le, inputs);
    SortSorts(le, inputs);
    SameElements(ordered, inputs);
    var fixed := PlaceFixed(ordered);
    if fixed.Err? {
      return Err(fixed.error);
    }
    var unfixed := (i: Item) => Find(fixed.value, i.path).None?;
    var relocatable := Select(unfixed, ordered);
    var bootItems := Sort(le, Select(MarkedBoot, relocatable));
    var secondaryItems := Sort(le, Select(NotMarkedBoot, relocatable));
    if DistinctPaths(ordered) {
      ClassOrder(le, unfixed, MarkedBoot, IsBoot, ordered);
      ClassOrder(le, unfixed, NotMarkedBoot, IsSecondary, ordered);
    }
    var boots, cursor := PlaceBoots(bootItems);
    if boots.Err? {
      NoBootPlan(ordered, bootItems);
      return Err(boots.error);
    }
    CursorAbove(boots.value);
    var occupied := Ranges(fixed.value) + Ranges(boots.value);
    var secondaries := PlaceSecondaries(secondaryItems, occupied, cursor);
    if secondaries.Err? {
      NoSecondaryPlan(ordered, fixed.value, bootItems, boots.value, secondaryItems);
      return Err(secondaries.error);
    }
    var planned := PutAll(PutAll(fixed.value, boots.value), secondaries.value);
    EachPlanned(le, unfixed, ordered, fixed.value, boots.value, secondaries.value, occupied, cursor);
    var plan := Lookups(ordered, planned);
    if DistinctPaths(ordered) {
      PlanFollows(ordered, fixed.value, boots.value, secondaries.value, plan);
    }
    r := Ok(plan);
  }

  predicate MarkedBoot(i: Item) {
    i.isBoot
  }

  predicate NotMarkedBoot(i: Item) {
    !i.isBoot
  }

  /** `[planned[item.path] for item in ordered]`. */
  method Lookups(ordered: seq<Item>, planned: seq<Placed>) returns (plan: seq<Placed>)
    requires forall i :: 0 <= i < |ordered| ==> Find(planned, ordered[i].path).Some?
    ensures |plan| == |ordered|
    ensures forall i :: 0 <= i < |ordered| ==> Find(planned, ordered[i].path) == Some(plan[i])
  {
    hide Find;
    plan := [];
    for i := 0 to |ordered|
      invariant |plan| == i
      invariant forall j :: 0 <= j < i ==> Find(planned, ordered[j].path) == Some(plan[j])
    {
      plan := plan + [Find(planned, ordered[i].path).value];
    }
  }

  /** Selecting a class from the sorted items needs no further sorting. */
  lemma {:induction false} ClassOrder(
    le: (Item, Item) -> bool, unfixed: Item -> bool, mark: Item -> bool, class_: Item -> bool, ordered: seq<Item>)
    requires Sorted(le, ordered)
    requires forall x :: x in ordered ==> class_(x) == (unfixed(x) && mark(x))
    ensures Sort(le, Select(mark, Select(unfixed, ordered))) == Select(class_, ordered)
  {
    hide Sort, Select, Sorted;
    SelectTwice(unfixed, mark, class_, ordered);
    SelectSorted(le, class_, ordered);
    SortOfSorted(le, Select(class_, ordered));
  }

  lemma {:induction false} NoBootPlan(ordered: seq<Item>, bootItems: seq<Item>)
    requires forall ps :: !BootChain(bootItems, ps)
    ensures bootItems == Select(IsBoot, ordered) ==> forall plan :: !FollowsRules(ordered, plan)
  {
    hide FixedChain, BootChain, SecondaryChain;
  }

  lemma {:induction false} NoSecondaryPlan(ordered: seq<Item>, fixed: seq<Placed>, bootItems: seq<Item>,
                                           boots: seq<Placed>, secondaryItems: seq<Item>)
    requires BootChain(bootItems, boots)
    requires forall ps :: !SecondaryChain(secondaryItems, Ranges(fixed) + Ranges(boots), Cursor(boots), ps)
    ensures FixedChain(Select(IsFixed, ordered), fixed)
            && bootItems == Select(IsBoot, ordered) && secondaryItems == Select(IsSecondary, ordered) ==>
              forall plan :: !FollowsRules(ordered, plan)
  {
    hide FixedChain, BootChain, SecondaryChain, Cursor, Ranges;
    forall plan | FollowsRules(ordered, plan) && FixedChain(Select(IsFixed, ordered), fixed)
                  && bootItems == Select(IsBoot, ordered) && secondaryItems == Select(IsSecondary, ordered)
      ensures false
    {
      FixedChainUnique(Select(IsFixed, ordered), fixed, Project(ordered, plan, IsFixed));
      BootChainUnique(bootItems, boots, Project(ordered, plan, IsBoot));
      assert false;
    }
  }

  lemma FixedChainUnique(items: seq<Item>, ps: seq<Placed>, qs: seq<Placed>)
    requires FixedChain(items, ps) && FixedChain(items, qs)
    ensures ps == qs
  {
    hide FixedStep;
    forall k | 0 <= k < |items| ensures ps[k] == qs[k] {
      FixedStepUnique(items[k], ps[k], qs[k]);
    }
  }

  lemma BootChainUnique(items: seq<Item>, ps: seq<Placed>, qs: seq<Placed>)
    requires BootChain(items, ps) && BootChain(items, qs)
    ensures ps == qs
  {
    hide BootStep;
    assert items[..|ps|] == items && items[..|qs|] == items;
    BootChainPrefix(items, ps, qs, |items|);
    assert ps[..|items|] == ps && qs[..|items|] == qs;
  }

  // ---- Putting the classes back together ----

  ghost predicate SamePaths(items: seq<Item>, ps: seq<Placed>) {
    |ps| == |items| && forall k :: 0 <= k < |ps| ==> ps[k].path == items[k].path
  }

  lemma ChainPaths(
    fixedItems: seq<Item>, fixed: seq<Placed>, bootItems: seq<Item>, boots: seq<Placed>,
                                      secondaryItems: seq<Item>, occupied: seq<(int, int)>, cursor: int,
                                      secondaries: seq<Placed>)
    ensures FixedChain(fixedItems, fixed) ==> SamePaths(fixedItems, fixed)
    ensures BootChain(bootItems, boots) ==> SamePaths(bootItems, boots)
    ensures SecondaryChain(secondaryItems, occupied, cursor, secondaries) ==> SamePaths(secondaryItems, secondaries)
  {
    hide IsLayout, IsLeastFit, AlignUp, Cursor, Ranges;
    forall k | |boots| == |bootItems| && 0 <= k < |boots| && BootStep(bootItems[k], boots[..k], boots[k])
      ensures boots[k].path == bootItems[k].path
    {
      BootPath(bootItems[k], boots[..k], boots[k]);
    }
    forall k | |secondaries| == |secondaryItems| && 0 <= k < |secondaries|
               && SecondaryStep(secondaryItems[k], occupied, cursor, secondaries[..k], secondaries[k])
      ensures secondaries[k].path == secondaryItems[k].path
    {
      SecondaryPath(secondaryItems[k], occupied, cursor, secondaries[..k], secondaries[k]);
    }
  }

  lemma {:induction false} BootPath(item: Item, earlier: seq<Placed>, p: Placed)
    requires BootStep(item, earlier, p)
    ensures p.path == item.path
  {
    hide IsLeastFit, AlignUp, Cursor, Ranges, LowestVaddr, HighestEnd, IsPow2, LoadedSegments;
  }

  lemma {:induction false} SecondaryPath(
    item: Item, occupied: seq<(int, int)>, cursor: int, earlier: seq<Placed>, p: Placed)
    requires SecondaryStep(item, occupied, cursor, earlier, p)
    ensures p.path == item.path
  {
    hide IsLeastFit, Ranges, LowestVaddr, HighestEnd, IsPow2, LoadedSegments;
  }

  lemma {:induction false} FindAfterPutAll(d: seq<Placed>, ps: seq<Placed>, path: string)
    ensures Find(d, path).Some? ==> Find(PutAll(d, ps), path).Some?
    ensures (exists k :: 0 <= k < |ps| && ps[k].path == path) ==> Find(PutAll(d, ps), path).Some?
    decreases |ps|
  {
    if ps != [] {
      var n := |ps| - 1;
      FindAfterPutAll(d, ps[..n], path);
      FindPut(PutAll(d, ps[..n]), ps[n], path);
      if k :| 0 <= k < |ps| && ps[k].path == path && k < n {
        assert ps[..n][k].path == path;
      }
    }
  }

  lemma {:induction false} EachPlanned(
    le: (Item, Item) -> bool, unfixed: Item -> bool, ordered: seq<Item>, fixed: seq<Placed>, boots: seq<Placed>,
    secondaries: seq<Placed>, occupied: seq<(int, int)>, cursor: int)
    requires TotalPreorder(le)
    requires forall x :: unfixed(x) == Find(fixed, x.path).None?
    requires BootChain(Sort(le, Select(MarkedBoot, Select(unfixed, ordered))), boots)
    requires SecondaryChain(Sort(le, Select(NotMarkedBoot, Select(unfixed, ordered))), occupied, cursor, secondaries)
    ensures forall i :: 0 <= i < |ordered| ==>
              Find(PutAll(PutAll(fixed, boots), secondaries), ordered[i].path).Some?
  {
    hide BootChain, SecondaryChain, Find, PutAll, Sort, Select, TotalPreorder, Sorted;
    var bootList, secondaryList := Select(MarkedBoot, Select(unfixed, ordered)), Select(NotMarkedBoot, Select(unfixed, ordered));
    SortSorts(le, bootList);
    SameElements(Sort(le, bootList), bootList);
    SortSorts(le, secondaryList);
    SameElements(Sort(le, secondaryList), secondaryList);
    ChainPaths([], [], Sort(le, bootList), boots, Sort(le, secondaryList), occupied, cursor, secondaries);
    forall i | 0 <= i < |ordered|
      ensures Find(PutAll(PutAll(fixed, boots), secondaries), ordered[i].path).Some?
    {
      var x := ordered[i];
      FindAfterPutAll(fixed, boots, x.path);
      FindAfterPutAll(PutAll(fixed, boots), secondaries, x.path);
      if unfixed(x) {
        assert x in Select(unfixed, ordered);
        if x.isBoot {
          assert x in Sort(le, bootList);
        } else {
          assert x in Sort(le, secondaryList);
        }
      }
    }
  }

  lemma OneItemPerPath(ordered: seq<Item>, x: Item, y: Item)
    requires DistinctPaths(ordered) && x in ordered && y in ordered && x.path == y.path
    ensures x == y
  {
  }

  lemma DistinctPlaced(items: seq<Item>, ps: seq<Placed>)
    requires DistinctPaths(items) && SamePaths(items, ps)
    ensures forall a, b :: 0 <= a < b < |ps| ==> ps[a].path != ps[b].path
  {
  }

  lemma {:induction false} FindPath(d: seq<Placed>, path: string)
    ensures Find(d, path).Some? ==> Find(d, path).value.path == path
    ensures (forall a, b :: 0 <= a < b < |d| ==> d[a].path != d[b].path) ==>
              forall k :: 0 <= k < |d| && d[k].path == path ==> Find(d, path) == Some(d[k])
    decreases |d|
  {
    if d != [] {
      FindPath(d[1..], path);
      assert forall k :: 0 < k < |d| ==> d[k] == d[1..][k - 1];
    }
  }

  /** With distinct paths the dictionary gives every class back its own placements. */
  lemma {:induction false} PlanFollows(ordered: seq<Item>, fixed: seq<Placed>, boots: seq<Placed>,
                                       secondaries: seq<Placed>, plan: seq<Placed>)
    requires DistinctPaths(ordered) && (forall i :: 0 <= i < |ordered| ==> ordered[i].fileType.Some?)
    requires RulesOf(ordered, fixed, boots, secondaries) && |plan| == |ordered|
    requires forall i :: 0 <= i < |ordered| ==>
               Find(PutAll(PutAll(fixed, boots), secondaries), ordered[i].path) == Some(plan[i])
    ensures FollowsRules(ordered, plan)
  {
    hide FixedChain, BootChain, SecondaryChain, Find, PutAll, Select, Project, DistinctPaths, Ranges, Cursor;
    var fs, bs, ss := Select(IsFixed, ordered), Select(IsBoot, ordered), Select(IsSecondary, ordered);
    ChainPaths(fs, fixed, bs, boots, ss, Ranges(fixed) + Ranges(boots), Cursor(boots), secondaries);
    SelectDistinct(IsFixed, ordered);
    SelectDistinct(IsBoot, ordered);
    SelectDistinct(IsSecondary, ordered);
    DistinctPlaced(fs, fixed);
    DistinctPlaced(bs, boots);
    DistinctPlaced(ss, secondaries);
    forall i | 0 <= i < |ordered|
      ensures plan[i].path == ordered[i].path
      ensures forall k :: 0 <= k < |fixed| && fixed[k].path == ordered[i].path ==> plan[i] == fixed[k]
      ensures forall k :: 0 <= k < |boots| && boots[k].path == ordered[i].path ==> plan[i] == boots[k]
      ensures forall k :: 0 <= k < |secondaries| && secondaries[k].path == ordered[i].path ==> plan[i] == secondaries[k]
    {
      PlannedOnce(ordered, fixed, boots, secondaries, i);
    }
    ProjectLookups(ordered, plan, IsFixed, fixed);
    ProjectLookups(ordered, plan, IsBoot, boots);
    ProjectLookups(ordered, plan, IsSecondary, secondaries);
  }

  lemma {:induction false} PlannedOnce(ordered: seq<Item>, fixed: seq<Placed>, boots: seq<Placed>,
                                       secondaries: seq<Placed>, i: nat)
    requires DistinctPaths(ordered) && i < |ordered|
    requires SamePaths(Select(IsFixed, ordered), fixed) && SamePaths(Select(IsBoot, ordered), boots)
    requires SamePaths(Select(IsSecondary, ordered), secondaries)
    requires forall a, b :: 0 <= a < b < |fixed| ==> fixed[a].path != fixed[b].path
    requires forall a, b :: 0 <= a < b < |boots| ==> boots[a].path != boots[b].path
    requires forall a, b :: 0 <= a < b < |secondaries| ==> secondaries[a].path != secondaries[b].path
    ensures var path := ordered[i].path;
            var found := Find(PutAll(PutAll(fixed, boots), secondaries), path);
            && (found.Some? ==> found.value.path == path)
            && (forall k :: 0 <= k < |fixed| && fixed[k].path == path ==> found == Some(fixed[k]))
            && (forall k :: 0 <= k < |boots| && boots[k].path == path ==> found == Some(boots[k]))
            && (forall k :: 0 <= k < |secondaries| && secondaries[k].path == path ==> found == Some(secondaries[k]))
  {
    hide Find, PutAll, Select;
    var path := ordered[i].path;
    FindPath(PutAll(PutAll(fixed, boots), secondaries), path);
    FindPath(fixed, path);
    FindPutAll(fixed, boots, path);
    FindPutAll(PutAll(fixed, boots), secondaries, path);
    ClassOfPath(ordered, IsFixed, fixed, path);
    ClassOfPath(ordered, IsBoot, boots, path);
    ClassOfPath(ordered, IsSecondary, secondaries, path);
    forall x, y | x in ordered && y in ordered && x.path == path && y.path == path ensures x == y {
      OneItemPerPath(ordered, x, y);
    }
  }

  lemma {:induction false} ClassOfPath(ordered: seq<Item>, keep: Item -> bool, ps: seq<Placed>, path: string)
    requires SamePaths(Select(keep, ordered), ps)
    ensures (exists k :: 0 <= k < |ps| && ps[k].path == path) ==> exists x :: x in ordered && keep(x) && x.path == path
  {
    if k :| 0 <= k < |ps| && ps[k].path == path {
      assert Select(keep, ordered)[k] in Select(keep, ordered);
    }
  }

  // ---- The plan is determined ----

  lemma SecondaryChainUnique(
    items: seq<Item>, occupied: seq<(int, int)>, cursor: int, ps: seq<Placed>, qs: seq<Placed>)
    requires SecondaryChain(items, occupied, cursor, ps) && SecondaryChain(items, occupied, cursor, qs)
    ensures ps == qs
  {
    hide SecondaryStep;
    assert items[..|ps|] == items && items[..|qs|] == items;
    SecondaryChainPrefix(items, occupied, cursor, ps, qs, |items|);
    assert ps[..|items|] == ps && qs[..|items|] == qs;
  }

  /** The rules leave no freedom: the items have at most one plan. */
  lemma PlanUnique(items: seq<Item>, plan: seq<Placed>, other: seq<Placed>)
    requires FollowsRules(items, plan) && FollowsRules(items, other)
    ensures plan == other
  {
    hide FixedChain, BootChain, SecondaryChain, Select, Project, Cursor;
    FixedChainUnique(Select(IsFixed, items), Project(items, plan, IsFixed), Project(items, other, IsFixed));
    BootChainUnique(Select(IsBoot, items), Project(items, plan, IsBoot), Project(items, other, IsBoot));
    var occupied := Ranges(Project(items, plan, IsFixed)) + Ranges(Project(items, plan, IsBoot));
    SecondaryChainUnique(Select(IsSecondary, items), occupied, Cursor(Project(items, plan, IsBoot)),
                         Project(items, plan, IsSecondary), Project(items, other, IsSecondary));
    forall i | 0 <= i < |items| ensures plan[i] == other[i] {
      if items[i].Fixed() {
        ProjectAt(items, plan, IsFixed, i);
        ProjectAt(items, other, IsFixed, i);
      } else if items[i].Boot() {
        ProjectAt(items, plan, IsBoot, i);
        ProjectAt(items, other, IsBoot, i);
      } else {
        ProjectAt(items, plan, IsSecondary, i);
        ProjectAt(items, other, IsSecondary, i);
      }
    }
  }
}
