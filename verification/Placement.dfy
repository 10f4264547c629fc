/** `placement.py`: image layout and the aligned first-fit address search. */
module Placement {
  import opened Prelude
  import opened Bits
  import opened ElfModel

  datatype PlanError = NoHeader | NoSegment | OutsideAddressSpace | NoRoom | BootOutside

  // ---- Alignment ----

  /** `(value + alignment - 1) & ~(alignment - 1)`. */
  function AlignUp(value: int, alignment: nat): int
    requires alignment >= 1
  {
    AndNot(value + alignment - 1, alignment - 1)
  }

  predicate Aligned(x: int, alignment: int)
    requires alignment > 0
  {
    x % alignment == 0
  }

  lemma {:induction false} MultiplesAreShifts(x: int, k: nat)
    ensures Aligned(x, Pow2(k)) <==> x == Shl(Shr(x, k), k)
  {
    hide And, Shr, Shl, Pow2;
    var p, q := Pow2(k), Shr(x, k);
    var m := And(x, Mask(k));
    MaskSplits(x, k);
    ShlIsTimes(q, k);
    RemainderIs(x, q, p, m);
  }

  /** For a power of two the mask form is the ceiling to a multiple: the least aligned value not
      below `value`, for negative values too. */
  lemma AlignUpIsCeiling(value: int, alignment: nat)
    requires IsPow2(alignment)
    ensures alignment >= 1
    ensures var r := AlignUp(value, alignment);
            && Aligned(r, alignment) && value <= r < value + alignment
            && (forall m :: m >= value && Aligned(m, alignment) ==> r <= m)
  {
    hide And, AndNot, Shr, Shl, Pow2;
    var k: nat :| alignment == Pow2(k);
    var top := value + alignment - 1;
    var r := AlignUp(value, alignment);
    AndNotMask(top, k);
    MaskSplits(top, k);
    ShiftIsMultiple(Shr(top, k), k);
    forall m | m >= value && Aligned(m, alignment) ensures r <= m {
      MultiplesAreShifts(m, k);
      var q := Shr(m, k);
      if m < r {
        NextMultiple(q, Shr(top, k), k);
        assert false;
      }
    }
  }

  lemma {:induction false} ShiftIsMultiple(q: int, k: nat)
    ensures Aligned(Shl(q, k), Pow2(k))
  {
    hide Shr, Shl, Pow2;
    ShlIsTimes(q, k);
    RemainderIs(Shl(q, k), q, Pow2(k), 0);
  }

  /** Distinct multiples of `2^k` are at least `2^k` apart. */
  lemma {:induction false} NextMultiple(a: int, b: int, k: nat)
    requires Shl(a, k) < Shl(b, k)
    ensures Shl(a, k) + Pow2(k) <= Shl(b, k)
    decreases k
  {
    if k > 0 {
      NextMultiple(a, b, k - 1);
    }
  }

  // ---- Layout ----

  function HighestEnd(loads: seq<ProgramHeader>): (end: int)
    requires loads != []
    ensures forall s :: s in loads ==> s.vaddr + s.memsz <= end
    ensures exists s :: s in loads && s.vaddr + s.memsz == end
  {
    if |loads| == 1 then loads[0].vaddr + loads[0].memsz
    else Max(loads[0].vaddr + loads[0].memsz, HighestEnd(loads[1..]))
  }

  /** A segment's requested alignment, or the 16-byte grain when it is not a power of two above one. */
  function Requested(align: int): int {
    if align <= 1 || And(align, align - 1) != 0 then 16 else align
  }

  datatype Layout = Layout(base: int, size: int, alignment: nat)

  /** The alignment is a multiple of what every load requests. */
  ghost predicate MeetsRequests(loads: seq<ProgramHeader>, alignment: nat) {
    forall s :: s in loads ==>
      0 < Requested(s.align) <= alignment && Aligned(alignment, Requested(s.align))
  }

  /** What a layout promises: the loads' exact hull and the strictest power-of-two alignment. */
  ghost predicate IsLayout(headers: seq<ProgramHeader>, l: Layout) {
    var loads := LoadedSegments(headers);
    && loads != [] && l.base == LowestVaddr(loads) && l.base + l.size == HighestEnd(loads)
    && l.size > 0 && l.base + l.size <= 0x1_0000_0000
    && IsPow2(l.alignment) && l.alignment >= 16
    && MeetsRequests(loads, l.alignment)
    && (l.alignment == 16 || exists s :: s in loads && s.align == l.alignment)
  }

  method LayoutOf(headers: seq<ProgramHeader>) returns (r: Result<Layout, PlanError>)
    ensures r.Ok? ==> IsLayout(headers, r.value)
    ensures r == Err(NoSegment) <==> LoadedSegments(headers) == []
    ensures r.Err? ==> r == Err(NoSegment)
                       || (r == Err(OutsideAddressSpace) && LoadedSegments(headers) != []
                           && HighestEnd(LoadedSegments(headers)) > 0x1_0000_0000)
  {
    hide IsPow2, Requested, MeetsRequests;
    var loads := LoadedSegments(headers);
    if loads == [] {
      return Err(NoSegment);
    }
    var base, end := LowestVaddr(loads), HighestEnd(loads);
    var size := end - base;
    HullNonEmpty(loads);
    if size <= 0 || end > 0x1_0000_0000 {
      return Err(OutsideAddressSpace);
    }
    var alignment := StrictestAlignment(loads);
    r := Ok(Layout(base, size, alignment));
  }

  method StrictestAlignment(loads: seq<ProgramHeader>) returns (alignment: nat)
    ensures IsPow2(alignment) && alignment >= 16 && MeetsRequests(loads, alignment)
    ensures alignment == 16 || exists s :: s in loads && s.align == alignment
  {
    hide IsPow2, And;
    alignment := 16;
    SixteenIsPow2();
    var i := 0;
    while i < |loads|
      invariant 0 <= i <= |loads| && IsPow2(alignment) && alignment >= 16
      invariant forall j :: 0 <= j < i ==> Requested(loads[j].align) <= alignment
      invariant alignment == 16 || exists s :: s in loads && s.align == alignment
    {
      var requested := loads[i].align;
      if requested <= 1 || And(requested, requested - 1) != 0 {
        requested := 16;
      } else {
        PowerOfTwoTest(requested);
      }
      if requested > alignment {
        assert loads[i] in loads;
        alignment := requested;
      }
      i := i + 1;
    }
    hide Requested;
    forall s | s in loads ensures 0 < Requested(s.align) && Aligned(alignment, Requested(s.align)) {
      var j :| 0 <= j < |loads| && loads[j] == s;
      RequestDivides(s.align, alignment);
    }
  }

  lemma RequestDivides(align: int, alignment: nat)
    requires IsPow2(alignment) && Requested(align) <= alignment
    ensures 0 < Requested(align) && Aligned(alignment, Requested(align))
  {
    hide Aligned, And;
    var request := Requested(align);
    if align <= 1 || And(align, align - 1) != 0 {
      SixteenIsPow2();
    } else {
      PowerOfTwoTest(align);
    }
    var a: nat :| request == Pow2(a);
    var b: nat :| alignment == Pow2(b);
    SmallerPowerDivides(a, b);
  }

  lemma {:induction false} SmallerPowerDivides(a: nat, b: nat)
    requires Pow2(a) <= Pow2(b)
    ensures Aligned(Pow2(b), Pow2(a))
    decreases b
  {
    hide Aligned;
    if a >= b {
      Pow2Monotone(b, a);
      SelfDivides(Pow2(a));
    } else {
      Pow2Monotone(a, b - 1);
      SmallerPowerDivides(a, b - 1);
      MultipleDivides(Pow2(b - 1), Pow2(a), 2);
    }
  }

  lemma SelfDivides(d: nat)
    requires d > 0
    ensures Aligned(d, d)
  {
    RemainderIs(d, 1, d, 0);
  }

  lemma MultipleDivides(x: int, d: nat, k: int)
    requires d > 0 && Aligned(x, d)
    ensures Aligned(k * x, d)
  {
    var q := x / d;
    assert k * x == (k * q) * d;
    RemainderIs(k * x, k * q, d, 0);
  }

  /** Alignment to a multiple is alignment to its divisors. */
  lemma AlignedToDivisor(x: int, m: nat, d: nat)
    requires m > 0 && d > 0 && Aligned(x, m) && Aligned(m, d)
    ensures Aligned(x, d)
  {
    var q := x / m;
    assert x == q * m;
    MultipleDivides(m, d, q);
  }

  lemma SixteenIsPow2()
    ensures IsPow2(16)
  {
    Pow2Values();
    assert Pow2(4) == 16;
  }

  lemma {:induction false} HullNonEmpty(loads: seq<ProgramHeader>)
    requires loads != [] && forall s :: s in loads ==> s.Loaded()
    ensures LowestVaddr(loads) < HighestEnd(loads)
  {
    assert loads[0] in loads;
  }

  /** The layout is determined by the headers. */
  lemma {:induction false} LayoutUnique(headers: seq<ProgramHeader>, a: Layout, b: Layout)
    requires IsLayout(headers, a) && IsLayout(headers, b)
    ensures a == b
  {
    hide LowestVaddr, HighestEnd, IsPow2, MeetsRequests;
    OneAlignment(headers, a, b);
    OneAlignment(headers, b, a);
  }

  lemma OneAlignment(headers: seq<ProgramHeader>, a: Layout, b: Layout)
    requires IsLayout(headers, a) && IsLayout(headers, b)
    ensures a.alignment <= b.alignment
  {
    hide LowestVaddr, HighestEnd, Aligned, IsPow2, Requested;
    if a.alignment != 16 {
      RequestedItself(a.alignment);
    }
  }

  lemma RequestedItself(a: nat)
    requires IsPow2(a) && a >= 16
    ensures Requested(a) == a
  {
    hide IsPow2;
    PowerOfTwoTest(a);
  }

  // ---- First fit ----

  predicate Overlaps(start: int, end: int, range: (int, int)) {
    start < range.1 && range.0 < end
  }

  predicate Before(a: (int, int), b: (int, int)) {
    a.0 < b.0 || (a.0 == b.0 && a.1 <= b.1)
  }

  /** The first overlapping range in sorted order. */
  function FirstOverlap(start: int, end: int, occupied: seq<(int, int)>): (r: Option<(int, int)>)
    ensures r.Some? ==> r.value in occupied && Overlaps(start, end, r.value)
    ensures r.Some? ==> forall o :: o in occupied && Overlaps(start, end, o) ==> Before(r.value, o)
    ensures r.None? ==> forall o :: o in occupied ==> !Overlaps(start, end, o)
  {
    if occupied == [] then None
    else
      var rest := FirstOverlap(start, end, occupied[1..]);
      if Overlaps(start, end, occupied[0]) && (rest.None? || Before(occupied[0], rest.value)) then Some(occupied[0])
      else rest
  }

  /** An address a module of `size` bytes may take at or above `start`. */
  ghost predicate Fits(a: int, start: int, size: int, alignment: int, occupied: seq<(int, int)>)
    requires alignment > 0
  {
    && start <= a && 0 <= a && a + size <= 0x1_0000_0000 && Aligned(a, alignment)
    && (forall o :: o in occupied ==> !Overlaps(a, a + size, o))
  }

  ghost predicate IsLeastFit(a: int, start: int, size: int, alignment: int, occupied: seq<(int, int)>)
    requires alignment > 0
  {
    && Fits(a, start, size, alignment, occupied)
    && (forall b :: Fits(b, start, size, alignment, occupied) ==> a <= b)
  }

  ghost predicate NothingFits(start: int, size: int, alignment: int, occupied: seq<(int, int)>)
    requires alignment > 0
  {
    forall b :: !Fits(b, start, size, alignment, occupied)
  }

  /** First fit is optimal and complete: the least fitting address, and a refusal only when no
      address fits -- or when the search would have to begin below zero. */
  method FindFree(start: int, size: int, alignment: nat, occupied: seq<(int, int)>) returns (r: Result<int, PlanError>)
    requires IsPow2(alignment)
    ensures alignment >= 1
    ensures r.Ok? ==> IsLeastFit(r.value, start, size, alignment, occupied)
    ensures r.Err? <==> AlignUp(start, alignment) < 0 || NothingFits(start, size, alignment, occupied)
    ensures r.Err? ==> r == Err(NoRoom)
  {
    hide AlignUp, IsPow2, Aligned;
    AlignUpIsCeiling(start, alignment);
    var candidate := AlignUp(start, alignment);
    ghost var first := candidate;
    while true
      invariant Aligned(candidate, alignment) && start <= first <= candidate
      invariant forall b :: Fits(b, start, size, alignment, occupied) ==> candidate <= b
      invariant first >= 0 || candidate == first
      decreases 0x1_0000_0000 - size - candidate
    {
      var end := candidate + size;
      if candidate < 0 || end > 0x1_0000_0000 {
        return Err(NoRoom);
      }
      var collision := FirstOverlap(candidate, end, occupied);
      if collision.None? {
        assert Fits(candidate, start, size, alignment, occupied);
        return Ok(candidate);
      }
      var next := collision.value.1;
      AlignUpIsCeiling(next, alignment);
      SkipIsSafe(candidate, start, size, alignment, occupied, collision.value);
      candidate := AlignUp(next, alignment);
    }
  }

  /** No fitting address lies between a colliding candidate and the end of what it collides with. */
  lemma {:induction false} SkipIsSafe(
    candidate: int, start: int, size: int, alignment: int, occupied: seq<(int, int)>, o: (int, int))
    requires alignment > 0 && o in occupied && Overlaps(candidate, candidate + size, o)
    ensures forall b :: Fits(b, start, size, alignment, occupied) && candidate <= b ==> o.1 <= b
  {
    hide Aligned;
  }

  lemma {:induction false} LeastFitUnique(
    a: int, b: int, start: int, size: int, alignment: int, occupied: seq<(int, int)>)
    requires alignment > 0
    requires IsLeastFit(a, start, size, alignment, occupied) && IsLeastFit(b, start, size, alignment, occupied)
    ensures a == b
  {
    hide Fits;
  }
}
