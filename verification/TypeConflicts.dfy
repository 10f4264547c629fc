/** `data_typing.py`: choosing one record per address and dropping weak records that start inside a
    strong object. */
module TypeConflicts {
  import opened Prelude
  import opened Sorting

  datatype TypeName =
    | Text | JumpTable | FunctionPointerTable | PointerTable
    | ArrayCandidate | StructCandidate | FunctionPointer | Pointer

  /** `evidence` stands for the evidence tuple by its rank in tuple order; `fields` for the field
      tuples that enter the fingerprint and `fieldEvidence` for the field evidence, which does not. */
  datatype Record = Record(
    address: int, section: int, typeName: TypeName, size: int, target: Option<int>, count: Option<int>,
    elementType: Option<int>, elementSize: Option<int>, confidence: real, evidence: int,
    fields: int, fieldEvidence: int)
  {
    function Precedence(): int {
      match typeName
      case Text => 1
      case JumpTable => 2
      case FunctionPointerTable => 3
      case PointerTable => 4
      case ArrayCandidate => 5
      case StructCandidate => 6
      case FunctionPointer => 7
      case Pointer => 8
    }

    predicate Strong() {
      Precedence() <= 4
    }

    function End(): int {
      address + Max(1, size)
    }

    predicate Covers(a: int) {
      address <= a < End()
    }
  }

  /** Equal fingerprints: everything but section, address and field evidence. */
  predicate SamePrint(x: Record, y: Record) {
    x.(section := 0, address := 0, fieldEvidence := 0) == y.(section := 0, address := 0, fieldEvidence := 0)
  }

  // ---- Orders ----

  /** Stronger type first; within a type, higher confidence first. */
  predicate Dominates(x: Record, y: Record) {
    x.Precedence() < y.Precedence() || (x.Precedence() == y.Precedence() && x.confidence >= y.confidence)
  }

  predicate TieOrder(x: Record, y: Record) {
    x.size < y.size || (x.size == y.size && x.evidence <= y.evidence)
  }

  /** The candidate key; the type name is already decided by its precedence. */
  predicate CandidateOrder(x: Record, y: Record) {
    Dominates(x, y) && (Dominates(y, x) ==> TieOrder(x, y))
  }

  predicate FinalOrder(x: Record, y: Record) {
    || x.address < y.address
    || (x.address == y.address
        && (x.Precedence() < y.Precedence() || (x.Precedence() == y.Precedence() && x.size <= y.size)))
  }

  predicate IntOrder(x: int, y: int) {
    x <= y
  }

  predicate RangeOrder(x: (int, int), y: (int, int)) {
    x.0 < y.0 || (x.0 == y.0 && x.1 <= y.1)
  }

  // ---- Duplicates ----

  function At(records: seq<Record>, a: int): (r: seq<Record>)
    ensures forall x :: x in r <==> x in records && x.address == a
  {
    if records == [] then []
    else
      var rest := At(records[..|records| - 1], a);
      if records[|records| - 1].address == a then rest + [records[|records| - 1]] else rest
  }

  /** `unique[fingerprint] = record`: a repeated fingerprint keeps its position and takes the new record. */
  function Put(unique: seq<Record>, r: Record): (s: seq<Record>)
    ensures s != []
  {
    if unique == [] then [r]
    else if SamePrint(unique[0], r) then [r] + unique[1..]
    else [unique[0]] + Put(unique[1..], r)
  }

  function Unique(records: seq<Record>): (s: seq<Record>)
    ensures records != [] ==> s != []
  {
    if records == [] then [] else Put(Unique(records[..|records| - 1]), records[|records| - 1])
  }

  ghost predicate LastOfPrint(records: seq<Record>, j: nat) {
    j < |records| && forall i :: j < i < |records| ==> !SamePrint(records[i], records[j])
  }

  /** The fingerprint of `x` occurs before any record with that of `y`. */
  ghost predicate AppearsBefore(records: seq<Record>, x: Record, y: Record) {
    exists j :: 0 <= j < |records| && SamePrint(records[j], x) && forall i :: 0 <= i <= j ==> !SamePrint(records[i], y)
  }

  ghost predicate DistinctPrints(s: seq<Record>) {
    forall i, j :: 0 <= i < j < |s| ==> !SamePrint(s[i], s[j])
  }

  lemma {:induction false} PutIs(u: seq<Record>, r: Record)
    requires DistinctPrints(u)
    ensures DistinctPrints(Put(u, r))
    ensures forall x :: x in Put(u, r) ==> x == r || (x in u && !SamePrint(x, r))
    ensures r in Put(u, r) && forall x :: x in u && !SamePrint(x, r) ==> x in Put(u, r)
    decreases |u|
  {
    hide SamePrint;
    assert forall x, y :: SamePrint(x, y) == SamePrint(y, x) by { SamePrintSymmetric(); }
    if u != [] {
      if SamePrint(u[0], r) {
        forall i | 1 <= i < |u| ensures !SamePrint(u[i], r) {
          assert !SamePrint(u[0], u[i]);
          SamePrintTransitive(u[0], r, u[i]);
        }
        forall i, j | 0 <= i < j < |u| ensures !SamePrint(Put(u, r)[i], Put(u, r)[j]) {
        }
      } else {
        PutIs(u[1..], r);
        var rest := Put(u[1..], r);
        forall j | 0 <= j < |rest| ensures !SamePrint(u[0], rest[j]) {
          assert rest[j] in rest;
          if rest[j] != r {
            var k :| 0 <= k < |u[1..]| && u[1..][k] == rest[j];
            assert u[k + 1] == rest[j];
          }
        }
      }
    }
  }

  lemma SamePrintSymmetric()
    ensures forall x, y :: SamePrint(x, y) == SamePrint(y, x)
  {
  }

  lemma SamePrintTransitive(x: Record, y: Record, z: Record)
    requires SamePrint(x, y)
    ensures SamePrint(x, z) == SamePrint(y, z)
  {
  }

  /** What de-duplication keeps of a list. */
  ghost predicate UniqueOf(records: seq<Record>, u: seq<Record>) {
    && DistinctPrints(u)
    && (forall x :: x in u ==> exists j: nat :: j < |records| && LastOfPrint(records, j) && records[j] == x)
    && (forall r :: r in records ==> exists x :: x in u && SamePrint(x, r))
    && (forall i, j :: 0 <= i < j < |u| ==> AppearsBefore(records, u[i], u[j]))
  }

  /** One record per fingerprint: its last occurrence, in order of first occurrence. */
  lemma {:induction false} UniqueIs(records: seq<Record>)
    ensures UniqueOf(records, Unique(records))
    decreases |records|
  {
    hide SamePrint, AppearsBefore, LastOfPrint;
    if records != [] {
      var front, r := records[..|records| - 1], records[|records| - 1];
      assert records == front + [r];
      UniqueIs(front);
      var u := Unique(front);
      PutIs(u, r);
      var v := Put(u, r);
      forall x | x in v ensures exists j: nat :: j < |records| && LastOfPrint(records, j) && records[j] == x {
        if x == r {
          NewIsLast(front, r);
        } else {
          var j: nat :| j < |front| && LastOfPrint(front, j) && front[j] == x;
          StaysLast(front, j, r);
        }
      }
      forall y | y in records ensures exists x :: x in v && SamePrint(x, y) {
        CoveredByPut(front, u, r, y);
      }
      OrderAfterPut(front, u, r);
    }
  }

  lemma NewIsLast(front: seq<Record>, r: Record)
    ensures LastOfPrint(front + [r], |front|)
  {
  }

  lemma StaysLast(front: seq<Record>, j: nat, r: Record)
    requires LastOfPrint(front, j) && !SamePrint(front[j], r)
    ensures LastOfPrint(front + [r], j)
  {
    SamePrintSymmetric();
  }

  lemma {:induction false} CoveredByPut(front: seq<Record>, u: seq<Record>, r: Record, y: Record)
    requires UniqueOf(front, u) && y in front + [r]
    ensures exists x :: x in Put(u, r) && SamePrint(x, y)
  {
    hide SamePrint, AppearsBefore, LastOfPrint, Put;
    PutIs(u, r);
    if y in front {
      var x :| x in u && SamePrint(x, y);
      if SamePrint(x, r) {
        SamePrintTransitive(x, r, y);
      } else {
        assert x in Put(u, r);
      }
    } else {
      assert SamePrint(r, r) by {
        SamePrintReflexive(r);
      }
    }
  }

  lemma SamePrintReflexive(r: Record)
    ensures SamePrint(r, r)
  {
  }

  /** Each position of `Put(u, r)` keeps its fingerprint; a new position holds `r`. */
  lemma {:induction false} PutPositions(u: seq<Record>, r: Record)
    ensures |u| <= |Put(u, r)| <= |u| + 1
    ensures forall i :: 0 <= i < |u| ==> SamePrint(Put(u, r)[i], u[i])
    ensures |Put(u, r)| > |u| ==> Put(u, r)[|u|] == r && forall i :: 0 <= i < |u| ==> !SamePrint(u[i], r)
    decreases |u|
  {
    hide SamePrint;
    SamePrintSymmetric();
    forall x: Record ensures SamePrint(x, x) {
      SamePrintReflexive(x);
    }
    if u != [] && !SamePrint(u[0], r) {
      PutPositions(u[1..], r);
    }
  }

  lemma {:induction false} OrderAfterPut(front: seq<Record>, u: seq<Record>, r: Record)
    requires UniqueOf(front, u)
    ensures forall i, j :: 0 <= i < j < |Put(u, r)| ==> AppearsBefore(front + [r], Put(u, r)[i], Put(u, r)[j])
  {
    hide Put, SamePrint, LastOfPrint, AppearsBefore;
    var v := Put(u, r);
    PutPositions(u, r);
    forall i, j | 0 <= i < j < |v| ensures AppearsBefore(front + [r], v[i], v[j]) {
      if j < |u| {
        AppearsInLonger(front, r, u[i], u[j], v[i], v[j]);
      } else {
        assert u[i] in u;
        var k: nat :| k < |front| && LastOfPrint(front, k) && front[k] == u[i];
        NewAppearsLast(front, u, r, u[i], v[i], k);
      }
    }
  }

  lemma AppearsInLonger(front: seq<Record>, r: Record, x: Record, y: Record, x': Record, y': Record)
    requires AppearsBefore(front, x, y) && SamePrint(x', x) && SamePrint(y', y)
    ensures AppearsBefore(front + [r], x', y')
  {
    var j :| 0 <= j < |front| && SamePrint(front[j], x) && forall i :: 0 <= i <= j ==> !SamePrint(front[i], y);
    assert SamePrint((front + [r])[j], x');
    hide SamePrint;
    forall i | 0 <= i <= j ensures !SamePrint((front + [r])[i], y') {
      assert (front + [r])[i] == front[i];
      SamePrintSymmetric();
      SamePrintTransitive(y', y, front[i]);
    }
  }

  /** A fingerprint new to the list appears after every old one. */
  lemma NewAppearsLast(
    front: seq<Record>, u: seq<Record>, r: Record, x: Record, x': Record, k: nat)
    requires k < |front| && front[k] == x && SamePrint(x', x)
    requires forall y :: y in front ==> exists z :: z in u && SamePrint(z, y)
    requires forall i :: 0 <= i < |u| ==> !SamePrint(u[i], r)
    ensures AppearsBefore(front + [r], x', r)
  {
    hide SamePrint;
    SamePrintSymmetric();
    forall i | 0 <= i <= k ensures !SamePrint((front + [r])[i], r) {
      assert (front + [r])[i] == front[i] && front[i] in front;
      var z :| z in u && SamePrint(z, front[i]);
      SamePrintTransitive(z, front[i], r);
    }
    assert SamePrint((front + [r])[k], x');
  }

  // ---- The best record at one address ----

  function WithPrecedence(s: seq<Record>, p: int): (r: seq<Record>)
    ensures forall x :: x in r <==> x in s && x.Precedence() == p
  {
    if s == [] then []
    else (if s[0].Precedence() == p then [s[0]] else []) + WithPrecedence(s[1..], p)
  }

  function WithConfidence(s: seq<Record>, c: real): (r: seq<Record>)
    ensures forall x :: x in r <==> x in s && x.confidence == c
  {
    if s == [] then []
    else (if s[0].confidence == c then [s[0]] else []) + WithConfidence(s[1..], c)
  }

  function Highest(s: seq<Record>): (c: real)
    requires s != []
    ensures forall x :: x in s ==> x.confidence <= c
    ensures exists x :: x in s && x.confidence == c
  {
    if |s| == 1 then
      assert s[0] in s;
      s[0].confidence
    else
      var rest := Highest(s[1..]);
      assert s[0] in s && s == [s[0]] + s[1..];
      if s[0].confidence >= rest then s[0].confidence else rest
  }

  /** The records tied for strongest type and highest confidence, in tie order. */
  function Tied(unique: seq<Record>): seq<Record>
    requires unique != []
  {
    var ordered := Sort(CandidateOrder, unique);
    var same := WithPrecedence(ordered, ordered[0].Precedence());
    assert ordered[0] in same;
    Sort(TieOrder, WithConfidence(same, Highest(same)))
  }

  ghost predicate Top(records: seq<Record>, x: Record) {
    x in records && forall y :: y in records ==> Dominates(x, y)
  }

  lemma Orders()
    ensures TotalPreorder(CandidateOrder) && TotalPreorder(TieOrder) && TotalPreorder(FinalOrder)
    ensures TotalPreorder(IntOrder) && TotalPreorder(RangeOrder)
  {
    hide Record.Precedence;
    assert TotalPreorder(CandidateOrder);
    assert TotalPreorder(TieOrder);
  }

  lemma {:induction false} FiltersDistinct(s: seq<Record>, p: int, c: real)
    requires Distinct(s)
    ensures Distinct(WithPrecedence(s, p)) && Distinct(WithConfidence(s, c))
    decreases |s|
  {
    if s != [] {
      assert s == [s[0]] + s[1..];
      FiltersDistinct(s[1..], p, c);
      assert s[0] !in s[1..];
    }
  }

  lemma {:induction false} FiltersKeep(s: seq<Record>, p: int, c: real, keep: Record -> bool)
    requires forall x :: keep(x) ==> x.Precedence() == p && x.confidence == c
    ensures Select(keep, WithPrecedence(s, p)) == Select(keep, s)
    ensures Select(keep, WithConfidence(s, c)) == Select(keep, s)
    decreases |s|
  {
    hide Record.Precedence, Select;
    if s != [] {
      FiltersKeep(s[1..], p, c, keep);
      assert s == [s[0]] + s[1..];
      SelectCons(keep, s[0], s[1..]);
      SelectCons(keep, s[0], WithPrecedence(s[1..], p));
      SelectCons(keep, s[0], WithConfidence(s[1..], c));
      assert WithPrecedence(s, p)
          == if s[0].Precedence() == p then [s[0]] + WithPrecedence(s[1..], p) else WithPrecedence(s[1..], p);
      assert WithConfidence(s, c)
          == if s[0].confidence == c then [s[0]] + WithConfidence(s[1..], c) else WithConfidence(s[1..], c);
    }
  }

  lemma {:induction false} TiedAreTop(u: seq<Record>, ordered: seq<Record>, same: seq<Record>, tied: seq<Record>)
    requires ordered != [] && forall x :: x in ordered <==> x in u
    requires forall x :: x in ordered ==> CandidateOrder(ordered[0], x)
    requires same != [] && same == WithPrecedence(ordered, ordered[0].Precedence())
    requires tied == WithConfidence(same, Highest(same))
    ensures forall x :: x in tied <==> Top(u, x)
  {
    hide WithPrecedence, WithConfidence, Highest, Record.Precedence;
    forall x ensures x in tied <==> Top(u, x) {
      if x in tied {
        forall y | y in u ensures Dominates(x, y) {
          assert CandidateOrder(ordered[0], y);
        }
      }
      if Top(u, x) {
        assert ordered[0] in ordered && CandidateOrder(ordered[0], x);
        assert x in same;
      }
    }
  }

  lemma {:induction false} TiedParts(u: seq<Record>)
    requires u != []
    ensures var ordered := Sort(CandidateOrder, u);
            var same := WithPrecedence(ordered, ordered[0].Precedence());
            && ordered != [] && same != [] && Tied(u) == Sort(TieOrder, WithConfidence(same, Highest(same)))
  {
    hide Sort, WithPrecedence, WithConfidence, Highest, Record.Precedence;
    var ordered := Sort(CandidateOrder, u);
    assert ordered[0] in WithPrecedence(ordered, ordered[0].Precedence());
  }

  lemma TiedIs(u: seq<Record>)
    requires u != [] && Distinct(u)
    ensures Tied(u) != [] && Distinct(Tied(u))
    ensures forall x :: x in Tied(u) <==> Top(u, x)
    ensures forall x :: Top(u, x) ==> TieOrder(Tied(u)[0], x)
  {
    hide *;
    Orders();
    TiedParts(u);
    var ordered := Sort(CandidateOrder, u);
    SortSorts(CandidateOrder, u);
    SortDistinct(CandidateOrder, u);
    var same := WithPrecedence(ordered, ordered[0].Precedence());
    var tied := WithConfidence(same, Highest(same));
    FiltersDistinct(ordered, ordered[0].Precedence(), Highest(same));
    FiltersDistinct(same, ordered[0].Precedence(), Highest(same));
    SortDistinct(TieOrder, tied);
    SortSorts(TieOrder, tied);
    HeadLeast(CandidateOrder, ordered);
    TiedAreTop(u, ordered, same, tied);
    var x :| x in same && x.confidence == Highest(same);
    assert x in tied && x in Tied(u);
    HeadLeast(TieOrder, Tied(u));
  }

  /** Equal in every sort key. */
  predicate SameRank(x: Record, y: Record) {
    Dominates(x, y) && Dominates(y, x) && TieOrder(x, y) && TieOrder(y, x)
  }

  /** Sorting is stable, so the chosen record is the first of its rank. */
  lemma TiedHeadIsFirst(u: seq<Record>)
    requires u != [] && Distinct(u)
    ensures Tied(u) != []
    ensures exists i :: 0 <= i < |u| && u[i] == Tied(u)[0] && forall k :: 0 <= k < i ==> !SameRank(Tied(u)[0], u[k])
  {
    hide *;
    TiedIs(u);
    TiedParts(u);
    Orders();
    var ordered := Sort(CandidateOrder, u);
    var same := WithPrecedence(ordered, ordered[0].Precedence());
    var tied := WithConfidence(same, Highest(same));
    var best := Tied(u)[0];
    SortSorts(TieOrder, tied);
    SameElements(Tied(u), tied);
    assert best in tied && best in same;
    var keep := (x: Record) => SameRank(best, x);
    RankKeys(best, keep);
    FiltersKeep(ordered, ordered[0].Precedence(), Highest(same), keep);
    FiltersKeep(same, ordered[0].Precedence(), Highest(same), keep);
    SortIsStable(TieOrder, keep, tied);
    SortIsStable(CandidateOrder, keep, u);
    assert Select(keep, Tied(u)) == Select(keep, u);
    HeadSelected(keep, Tied(u));
    SelectFirst(keep, u);
  }

  lemma {:induction false} HeadSelected(keep: Record -> bool, s: seq<Record>)
    requires s != [] && keep(s[0])
    ensures Select(keep, s) != [] && Select(keep, s)[0] == s[0]
  {
  }

  lemma RankKeys(best: Record, keep: Record -> bool)
    requires forall x :: keep(x) == SameRank(best, x)
    ensures keep(best)
    ensures forall x :: keep(x) ==> x.Precedence() == best.Precedence() && x.confidence == best.confidence
    ensures forall x, y :: keep(x) && keep(y) ==> TieOrder(x, y) && CandidateOrder(x, y)
  {
    hide Record.Precedence;
  }

  /** The record chosen among those at one address: strongest type, then highest confidence, then
      smallest size and evidence, then the fingerprint seen first; of equal fingerprints the last record. */
  ghost predicate BestOf(records: seq<Record>, b: Record) {
    && (exists j: nat :: j < |records| && LastOfPrint(records, j) && records[j] == b)
    && Top(records, b)
    && (forall x :: Top(records, x) ==> TieOrder(b, x))
    && (forall x :: Top(records, x) && TieOrder(x, b) && !SamePrint(x, b) ==> AppearsBefore(records, b, x))
  }

  /** Two records with different fingerprints share the strongest type and highest confidence. */
  ghost predicate Ambiguous(records: seq<Record>) {
    exists x, y :: Top(records, x) && Top(records, y) && !SamePrint(x, y)
  }

  lemma PrintKeys(x: Record, y: Record)
    requires SamePrint(x, y)
    ensures SameRank(x, y) && forall z :: Dominates(x, z) == Dominates(y, z) && Dominates(z, x) == Dominates(z, y)
  {
  }

  /** Being on top is decided by the de-duplicated list. */
  lemma TopUnique(records: seq<Record>, u: seq<Record>)
    requires UniqueOf(records, u)
    ensures forall x :: Top(u, x) ==> Top(records, x)
    ensures forall x :: Top(records, x) ==> exists y :: Top(u, y) && SamePrint(y, x)
  {
    hide SamePrint, Dominates, LastOfPrint, AppearsBefore, DistinctPrints;
    forall x, y | Top(u, x) && y in records ensures x in records && Dominates(x, y) {
      var z :| z in u && SamePrint(z, y);
      PrintKeys(z, y);
    }
    forall x | Top(records, x) ensures exists y :: Top(u, y) && SamePrint(y, x) {
      var y :| y in u && SamePrint(y, x);
      PrintKeys(y, x);
      assert Top(u, y);
    }
  }

  lemma {:induction false} ChosenIsBest(records: seq<Record>)
    requires records != []
    ensures BestOf(records, Tied(Unique(records))[0])
    ensures |Tied(Unique(records))| > 1 <==> Ambiguous(records)
  {
    hide *;
    var u := Unique(records);
    UniqueIs(records);
    UniqueParts(records, u);
    TiedIs(u);
    TiedHeadIsFirst(u);
    TopUnique(records, u);
    var tied := Tied(u);
    BestFromTied(records, u, tied);
    AmbiguousFromTied(records, u, tied);
  }

  lemma UniqueParts(records: seq<Record>, u: seq<Record>)
    requires UniqueOf(records, u)
    ensures Distinct(u)
    ensures forall x, y :: x in u && y in u && SamePrint(x, y) ==> x == y
  {
    forall r: Record ensures SamePrint(r, r) {
      SamePrintReflexive(r);
    }
    SamePrintSymmetric();
    hide SamePrint, LastOfPrint, AppearsBefore;
  }

  lemma BestFromTied(records: seq<Record>, u: seq<Record>, tied: seq<Record>)
    requires UniqueOf(records, u) && tied != []
    requires forall x, y :: x in u && y in u && SamePrint(x, y) ==> x == y
    requires forall x :: x in tied <==> Top(u, x)
    requires forall x :: Top(u, x) ==> TieOrder(tied[0], x)
    requires forall x :: Top(u, x) ==> Top(records, x)
    requires forall x :: Top(records, x) ==> exists y :: Top(u, y) && SamePrint(y, x)
    requires exists i :: 0 <= i < |u| && u[i] == tied[0] && forall k :: 0 <= k < i ==> !SameRank(tied[0], u[k])
    ensures BestOf(records, tied[0])
  {
    hide SamePrint, Dominates, TieOrder, LastOfPrint, AppearsBefore, SameRank, DistinctPrints;
    var b := tied[0];
    var i :| 0 <= i < |u| && u[i] == b && forall k :: 0 <= k < i ==> !SameRank(b, u[k]);
    forall x | Top(records, x)
      ensures TieOrder(b, x) && (TieOrder(x, b) && !SamePrint(x, b) ==> AppearsBefore(records, b, x))
    {
      var y :| Top(u, y) && SamePrint(y, x);
      PrintTies(y, x, b);
      SamePrintSymmetric();
      if TieOrder(x, b) && !SamePrint(x, b) {
        var k :| 0 <= k < |u| && u[k] == y;
        RankOf(records, b, y);
        if k > i {
          AppearsForPrint(records, b, y, x);
        }
      }
    }
  }

  lemma PrintTies(y: Record, x: Record, b: Record)
    requires SamePrint(y, x)
    ensures TieOrder(b, y) == TieOrder(b, x) && TieOrder(y, b) == TieOrder(x, b)
  {
  }

  lemma RankOf(records: seq<Record>, b: Record, y: Record)
    requires Top(records, b) && Top(records, y)
    ensures TieOrder(b, y) && TieOrder(y, b) ==> SameRank(b, y)
  {
    hide Dominates, TieOrder;
  }

  lemma AppearsForPrint(records: seq<Record>, b: Record, y: Record, x: Record)
    requires AppearsBefore(records, b, y) && SamePrint(y, x)
    ensures AppearsBefore(records, b, x)
  {
    var j :| 0 <= j < |records| && SamePrint(records[j], b) && forall i :: 0 <= i <= j ==> !SamePrint(records[i], y);
    hide SamePrint;
    SamePrintSymmetric();
    forall i | 0 <= i <= j ensures !SamePrint(records[i], x) {
      SamePrintTransitive(y, x, records[i]);
    }
  }

  lemma AmbiguousFromTied(records: seq<Record>, u: seq<Record>, tied: seq<Record>)
    requires forall x, y :: x in u && y in u && SamePrint(x, y) ==> x == y
    requires tied != [] && Distinct(tied)
    requires forall x :: x in tied <==> Top(u, x)
    requires forall x :: Top(u, x) ==> Top(records, x)
    requires forall x :: Top(records, x) ==> exists y :: Top(u, y) && SamePrint(y, x)
    ensures |tied| > 1 <==> Ambiguous(records)
  {
    hide SamePrint, Dominates, Top;
    if |tied| > 1 {
      assert tied[0] in tied && tied[1] in tied && tied[0] != tied[1];
      TiedTwice(records, u, tied);
    }
    if Ambiguous(records) {
      AmbiguousTies(records, u, tied);
    }
  }

  lemma TiedTwice(records: seq<Record>, u: seq<Record>, tied: seq<Record>)
    requires forall x, y :: x in u && y in u && SamePrint(x, y) ==> x == y
    requires |tied| > 1 && tied[0] != tied[1] && Top(u, tied[0]) && Top(u, tied[1])
    requires Top(records, tied[0]) && Top(records, tied[1])
    ensures Ambiguous(records)
  {
    hide SamePrint, Dominates;
    assert !SamePrint(tied[0], tied[1]);
  }

  lemma AmbiguousTies(records: seq<Record>, u: seq<Record>, tied: seq<Record>)
    requires Ambiguous(records) && forall x :: Top(u, x) ==> x in tied
    requires forall x :: Top(records, x) ==> exists y :: Top(u, y) && SamePrint(y, x)
    ensures |tied| > 1
  {
    hide SamePrint, Top;
    var x, y :| Top(records, x) && Top(records, y) && !SamePrint(x, y);
    var x' :| Top(u, x') && SamePrint(x', x);
    var y' :| Top(u, y') && SamePrint(y', y);
    SamePrintTransitive(x', x, y);
    SamePrintSymmetric();
    assert x' in tied && y' in tied && x' != y';
  }

  /** The choice is determined by the list of candidates. */
  lemma BestUnique(records: seq<Record>, b: Record, c: Record)
    requires BestOf(records, b) && BestOf(records, c)
    ensures b == c
  {
    hide SamePrint, Dominates, TieOrder, Top;
    SamePrintSymmetric();
    if SamePrint(b, c) {
      var i: nat :| i < |records| && LastOfPrint(records, i) && records[i] == b;
      var j: nat :| j < |records| && LastOfPrint(records, j) && records[j] == c;
    }
  }

  // ---- The whole list ----

  ghost predicate Ascending(final: seq<Record>) {
    forall i, j :: 0 <= i < j < |final| ==> final[i].address < final[j].address
  }

  ghost predicate Chosen(candidates: seq<Record>, r: Record) {
    BestOf(At(candidates, r.address), r)
  }

  /** Strong, or outside every chosen strong object. */
  ghost predicate Survives(candidates: seq<Record>, r: Record) {
    r.Strong() || forall q :: Chosen(candidates, q) && q.Strong() ==> !q.Covers(r.address)
  }

  /** The result and the addresses warned about. */
  ghost predicate Resolves(candidates: seq<Record>, final: seq<Record>, warned: seq<int>) {
    && Ascending(final)
    && (forall r :: r in final <==> Chosen(candidates, r) && Survives(candidates, r))
    && (forall i, j :: 0 <= i < j < |warned| ==> warned[i] < warned[j])
    && (forall a :: a in warned <==> Ambiguous(At(candidates, a)))
  }

  /** The records of each address in list order, and the addresses in order of first appearance. */
  ghost predicate Grouped(candidates: seq<Record>, groups: map<int, seq<Record>>, order: seq<int>) {
    && (forall a :: a in groups <==> At(candidates, a) != [])
    && (forall a :: a in groups ==> groups[a] == At(candidates, a))
    && Distinct(order) && (forall a :: a in order <==> a in groups)
  }

  method GroupByAddress(candidates: seq<Record>) returns (groups: map<int, seq<Record>>, order: seq<int>)
    ensures Grouped(candidates, groups, order)
  {
    hide *;
    groups, order := map[], [];
    NothingGrouped(candidates);
    for k := 0 to |candidates|
      invariant Grouped(candidates[..k], groups, order)
    {
      var r := candidates[k];
      assert candidates[..k + 1] == candidates[..k] + [r];
      GroupOne(candidates[..k], r, groups, order);
      if r.address !in groups {
        groups, order := groups[r.address := []], order + [r.address];
      }
      groups := groups[r.address := groups[r.address] + [r]];
    }
    assert candidates[..|candidates|] == candidates;
  }

  lemma {:induction false} GroupedParts(candidates: seq<Record>, groups: map<int, seq<Record>>, order: seq<int>)
    requires Grouped(candidates, groups, order)
    ensures forall a :: a in groups <==> At(candidates, a) != []
    ensures forall a :: a in groups ==> groups[a] == At(candidates, a)
    ensures Distinct(order) && forall a :: a in order <==> a in groups
  {
    hide At;
  }

  lemma NothingGrouped(candidates: seq<Record>)
    ensures Grouped(candidates[..0], map[], [])
  {
  }

  lemma GroupOne(
    front: seq<Record>, r: Record, groups: map<int, seq<Record>>, order: seq<int>)
    requires Grouped(front, groups, order)
    ensures var started := if r.address !in groups then groups[r.address := []] else groups;
            Grouped(front + [r], started[r.address := started[r.address] + [r]],
                    if r.address !in groups then order + [r.address] else order)
  {
    hide At;
    forall a ensures At(front + [r], a) == At(front, a) + if r.address == a then [r] else [] {
      AtAppends(front, r, a);
    }
  }

  lemma {:induction false} AtAppends(front: seq<Record>, r: Record, a: int)
    ensures At(front + [r], a) == At(front, a) + if r.address == a then [r] else []
  {
    assert (front + [r])[..|front|] == front;
  }

  /** Keeps the last record of each fingerprint at the fingerprint's first position. */
  method Deduplicate(records: seq<Record>) returns (unique: seq<Record>)
    ensures unique == Unique(records)
  {
    unique := [];
    for k := 0 to |records|
      invariant unique == Unique(records[..k])
    {
      assert records[..k + 1][..k] == records[..k];
      unique := Put(unique, records[k]);
    }
    assert records[..|records|] == records;
  }

  function Ranges(records: seq<Record>): seq<(int, int)> {
    if records == [] then []
    else (if records[0].Strong() then [(records[0].address, records[0].End())] else []) + Ranges(records[1..])
  }

  function StrongObjectRanges(records: seq<Record>): seq<(int, int)> {
    Sort(RangeOrder, Ranges(records))
  }

  predicate InsideRange(a: int, ranges: seq<(int, int)>) {
    exists i :: 0 <= i < |ranges| && ranges[i].0 <= a < ranges[i].1
  }

  lemma RangesAreStrong(records: seq<Record>, a: int)
    ensures InsideRange(a, StrongObjectRanges(records)) <==> exists q :: q in records && q.Strong() && q.Covers(a)
  {
    hide Ranges, Sort, Record.Precedence, Record.Strong, InsideRange, Record.End, TotalPreorder, Sorted;
    Orders();
    SortSorts(RangeOrder, Ranges(records));
    SameElements(StrongObjectRanges(records), Ranges(records));
    RangeMembers(records);
    hide StrongObjectRanges;
    InsideMembers(a, StrongObjectRanges(records));
    if q :| q in records && q.Strong() && q.Covers(a) {
      assert (q.address, q.End()) in StrongObjectRanges(records);
    }
  }

  lemma InsideMembers(a: int, ranges: seq<(int, int)>)
    ensures InsideRange(a, ranges) <==> exists x :: x in ranges && x.0 <= a < x.1
  {
    if InsideRange(a, ranges) {
      var i :| 0 <= i < |ranges| && ranges[i].0 <= a < ranges[i].1;
      assert ranges[i] in ranges;
    }
  }

  lemma {:induction false} RangeMembers(records: seq<Record>)
    ensures forall x :: x in Ranges(records) <==> exists q :: q in records && q.Strong() && x == (q.address, q.End())
    decreases |records|
  {
    hide Record.Precedence, Record.Strong, Record.End;
    if records != [] {
      RangeMembers(records[1..]);
      assert records == [records[0]] + records[1..];
    }
  }

  /** The chosen records of some addresses, in order. */
  ghost predicate ChosenFor(candidates: seq<Record>, addresses: seq<int>, chosen: seq<Record>) {
    && |chosen| == |addresses|
    && forall i :: 0 <= i < |chosen| ==> chosen[i].address == addresses[i] && Chosen(candidates, chosen[i])
  }

  ghost predicate WarnedFor(candidates: seq<Record>, addresses: seq<int>, warned: seq<int>) {
    && (forall i, j :: 0 <= i < j < |warned| ==> warned[i] < warned[j])
    && (forall a :: a in warned <==> a in addresses && Ambiguous(At(candidates, a)))
  }

  function Kept(chosen: seq<Record>, reserved: seq<(int, int)>): (r: seq<Record>)
    ensures forall x :: x in r <==> x in chosen && (x.Strong() || !InsideRange(x.address, reserved))
  {
    if chosen == [] then []
    else
      var rest, x := Kept(chosen[..|chosen| - 1], reserved), chosen[|chosen| - 1];
      assert chosen == chosen[..|chosen| - 1] + [x];
      if x.Strong() || !InsideRange(x.address, reserved) then rest + [x] else rest
  }

  lemma {:induction false} KeptStep(front: seq<Record>, x: Record, reserved: seq<(int, int)>)
    ensures Kept(front + [x], reserved)
         == Kept(front, reserved) + if x.Strong() || !InsideRange(x.address, reserved) then [x] else []
  {
    assert (front + [x])[..|front|] == front;
  }

  lemma {:induction false} KeptNone(chosen: seq<Record>, reserved: seq<(int, int)>)
    ensures Kept(chosen[..0], reserved) == []
  {
  }

  lemma {:induction false} KeptAscending(chosen: seq<Record>, reserved: seq<(int, int)>)
    requires Ascending(chosen)
    ensures Ascending(Kept(chosen, reserved))
    decreases |chosen|
  {
    hide InsideRange, Record.Strong;
    if chosen != [] {
      KeptAscending(chosen[..|chosen| - 1], reserved);
    }
  }

  lemma {:induction false} StrictlySorted(order: seq<int>)
    requires Distinct(order)
    ensures StrictInts(Sort(IntOrder, order))
    ensures forall a :: a in Sort(IntOrder, order) <==> a in order
  {
    Orders();
    SortSorts(IntOrder, order);
    SortDistinct(IntOrder, order);
    hide Sort;
  }

  ghost predicate StrictInts(s: seq<int>) {
    forall i, j :: 0 <= i < j < |s| ==> s[i] < s[j]
  }

  /** The first loop: one record per address, and a warning for each ambiguous address. */
  method ChooseAll(ghost candidates: seq<Record>, groups: map<int, seq<Record>>, addresses: seq<int>)
    returns (chosen: seq<Record>, warned: seq<int>)
    requires StrictInts(addresses)
    requires forall a :: a in addresses ==> a in groups && groups[a] == At(candidates, a) && groups[a] != []
    ensures ChosenFor(candidates, addresses, chosen) && WarnedFor(candidates, addresses, warned)
  {
    hide *;
    chosen, warned := [], [];
    ChooseNone(candidates);
    for k := 0 to |addresses|
      invariant ChosenFor(candidates, addresses[..k], chosen) && WarnedFor(candidates, addresses[..k], warned)
    {
      var address := addresses[k];
      var unique := Deduplicate(groups[address]);
      var tied := Tied(unique);
      ChosenIsBest(groups[address]);
      UniqueIs(groups[address]);
      UniqueParts(groups[address], unique);
      TiedIs(unique);
      ChooseOne(candidates, addresses, k, chosen, warned, tied);
      if |tied| > 1 {
        warned := warned + [address];
      }
      chosen := chosen + [tied[0]];
    }
    assert addresses[..|addresses|] == addresses;
  }

  lemma ChooseNone(candidates: seq<Record>)
    ensures ChosenFor(candidates, [], []) && WarnedFor(candidates, [], [])
  {
  }

  lemma {:induction false} ChooseOne(
    candidates: seq<Record>, addresses: seq<int>, k: nat, chosen: seq<Record>, warned: seq<int>, tied: seq<Record>)
    requires k < |addresses| && StrictInts(addresses) && tied != []
    requires ChosenFor(candidates, addresses[..k], chosen) && WarnedFor(candidates, addresses[..k], warned)
    requires BestOf(At(candidates, addresses[k]), tied[0])
    requires |tied| > 1 <==> Ambiguous(At(candidates, addresses[k]))
    ensures ChosenFor(candidates, addresses[..k + 1], chosen + [tied[0]])
    ensures WarnedFor(candidates, addresses[..k + 1], if |tied| > 1 then warned + [addresses[k]] else warned)
  {
    hide Ambiguous, LastOfPrint, Top, AppearsBefore;
    assert addresses[..k + 1] == addresses[..k] + [addresses[k]];
    assert tied[0] in At(candidates, addresses[k]);
    forall i | 0 <= i < |warned| ensures warned[i] < addresses[k] {
      assert warned[i] in warned && warned[i] in addresses[..k];
    }
  }

  lemma {:induction false} Finishes(
    candidates: seq<Record>, addresses: seq<int>, chosen: seq<Record>, warned: seq<int>)
    requires StrictInts(addresses) && forall a :: a in addresses <==> At(candidates, a) != []
    requires ChosenFor(candidates, addresses, chosen) && WarnedFor(candidates, addresses, warned)
    ensures Resolves(candidates, Sort(FinalOrder, Kept(chosen, StrongObjectRanges(chosen))), warned)
  {
    hide *;
    var kept := Kept(chosen, StrongObjectRanges(chosen));
    ChosenAscend(candidates, addresses, chosen);
    KeptAscending(chosen, StrongObjectRanges(chosen));
    AscendingSorted(kept);
    SortOfSorted(FinalOrder, kept);
    SurvivorsKept(candidates, addresses, chosen);
    WarnedExactly(candidates, addresses, warned);
    ResolvesParts(candidates, kept, warned);
  }

  lemma {:induction false} ResolvesParts(candidates: seq<Record>, final: seq<Record>, warned: seq<int>)
    requires Ascending(final) && forall r :: r in final <==> Chosen(candidates, r) && Survives(candidates, r)
    requires StrictInts(warned) && forall a :: a in warned <==> Ambiguous(At(candidates, a))
    ensures Resolves(candidates, final, warned)
  {
    hide Ascending, Chosen, Survives, Ambiguous, At;
  }

  lemma ChosenAscend(candidates: seq<Record>, addresses: seq<int>, chosen: seq<Record>)
    requires StrictInts(addresses) && ChosenFor(candidates, addresses, chosen)
    ensures Ascending(chosen)
  {
    hide Chosen;
  }

  lemma AscendingSorted(s: seq<Record>)
    requires Ascending(s)
    ensures Sorted(FinalOrder, s)
  {
    hide Record.Precedence;
  }

  lemma {:induction false} SurvivorsKept(candidates: seq<Record>, addresses: seq<int>, chosen: seq<Record>)
    requires forall a :: a in addresses <==> At(candidates, a) != []
    requires ChosenFor(candidates, addresses, chosen)
    ensures forall r :: r in Kept(chosen, StrongObjectRanges(chosen)) <==> Chosen(candidates, r) && Survives(candidates, r)
  {
    hide Kept, At, Chosen, ChosenFor, InsideRange, Record.Precedence, Record.Strong, Record.End, StrongObjectRanges;
    forall r ensures r in chosen <==> Chosen(candidates, r) {
      ChosenMember(candidates, addresses, chosen, r);
    }
    forall r ensures r in Kept(chosen, StrongObjectRanges(chosen)) <==> Chosen(candidates, r) && Survives(candidates, r) {
      RangesAreStrong(chosen, r.address);
    }
  }

  lemma {:induction false} WarnedExactly(candidates: seq<Record>, addresses: seq<int>, warned: seq<int>)
    requires forall a :: a in addresses <==> At(candidates, a) != []
    requires WarnedFor(candidates, addresses, warned)
    ensures StrictInts(warned) && forall a :: a in warned <==> Ambiguous(At(candidates, a))
  {
    hide At, Ambiguous;
    forall a ensures a in warned <==> Ambiguous(At(candidates, a)) {
      NotAmbiguousWhenEmpty(At(candidates, a));
    }
  }

  lemma NotAmbiguousWhenEmpty(records: seq<Record>)
    ensures Ambiguous(records) ==> records != []
  {
  }

  lemma {:induction false} ChosenMember(
    candidates: seq<Record>, addresses: seq<int>, chosen: seq<Record>, r: Record)
    requires forall a :: a in addresses <==> At(candidates, a) != []
    requires ChosenFor(candidates, addresses, chosen)
    ensures r in chosen <==> Chosen(candidates, r)
  {
    hide LastOfPrint, Top, AppearsBefore, At;
    if Chosen(candidates, r) {
      var i :| 0 <= i < |addresses| && addresses[i] == r.address;
      BestUnique(At(candidates, r.address), r, chosen[i]);
    }
  }

  method ResolveConflicts(candidates: seq<Record>) returns (final: seq<Record>, warned: seq<int>)
    ensures Resolves(candidates, final, warned)
  {
    hide *;
    var groups, order := GroupByAddress(candidates);
    GroupedParts(candidates, groups, order);
    var addresses := Sort(IntOrder, order);
    StrictlySorted(order);
    var chosen;
    chosen, warned := ChooseAll(candidates, groups, addresses);
    var reserved := StrongObjectRanges(chosen);
    var kept := [];
    assert Kept(chosen[..0], reserved) == [] by {
      KeptNone(chosen, reserved);
    }
    for k := 0 to |chosen|
      invariant kept == Kept(chosen[..k], reserved)
    {
      assert chosen[..k + 1][..k] == chosen[..k];
      KeptStep(chosen[..k], chosen[k], reserved);
      assert chosen[..k + 1] == chosen[..k] + [chosen[k]];
      if chosen[k].Strong() || !InsideRange(chosen[k].address, reserved) {
        kept := kept + [chosen[k]];
      }
    }
    assert chosen[..|chosen|] == chosen;
    final := Sort(FinalOrder, kept);
    Finishes(candidates, addresses, chosen, warned);
  }

  // ---- What resolution guarantees ----

  lemma FrontMembers(f: seq<Record>, r: Record)
    requires Ascending(f) && f != []
    ensures r in f[..|f| - 1] <==> r in f && r != f[|f| - 1]
  {
    assert f == f[..|f| - 1] + [f[|f| - 1]];
  }

  lemma {:induction false} SameAscending(f: seq<Record>, g: seq<Record>)
    requires Ascending(f) && Ascending(g) && forall r :: r in f <==> r in g
    ensures f == g
    decreases |f|
  {
    assert (|f| > 0 ==> f[0] in f) && (|g| > 0 ==> g[0] in g);
    if f != [] && g != [] {
      var x, y := f[|f| - 1], g[|g| - 1];
      assert x in g && y in f;
      assert x == y;
      var f', g' := f[..|f| - 1], g[..|g| - 1];
      forall r ensures r in f' <==> r in g' {
        FrontMembers(f, r);
        FrontMembers(g, r);
      }
      SameAscending(f', g');
      assert f == f[..|f| - 1] + [x] && g == g[..|g| - 1] + [y];
    }
  }

  /** The result is a function of the candidates. */
  lemma ResolutionUnique(
    candidates: seq<Record>, f: seq<Record>, g: seq<Record>, v: seq<int>, w: seq<int>)
    requires Resolves(candidates, f, v) && Resolves(candidates, g, w)
    ensures f == g && forall a :: a in v <==> a in w
  {
    hide Chosen, Survives, Ambiguous;
    SameAscending(f, g);
  }

  lemma AtBest(records: seq<Record>, b: Record)
    requires BestOf(records, b)
    ensures b in records
  {
  }

  /** Each address keeps its best record unless that record is weak and lies inside a strong result. */
  lemma {:induction false} AddressesAccountedFor(
    candidates: seq<Record>, final: seq<Record>, warned: seq<int>, r: Record)
    requires Resolves(candidates, final, warned) && r in candidates
    ensures exists b :: BestOf(At(candidates, r.address), b)
                        && (b in final || (!b.Strong() && exists q :: q in final && q.Strong() && q.Covers(r.address)))
  {
    hide BestOf, Ambiguous, Record.Precedence, Record.Strong, Record.End;
    var here := At(candidates, r.address);
    ChosenIsBest(here);
    hide Tied, Unique;
    var b := Tied(Unique(here))[0];
    AtBest(here, b);
    assert Chosen(candidates, b);
    if !Survives(candidates, b) {
      var q :| Chosen(candidates, q) && q.Strong() && q.Covers(r.address);
      assert q in final;
    }
  }

  /** No weak record of the result starts inside a strong one. */
  lemma NoWeakInside(
    candidates: seq<Record>, final: seq<Record>, warned: seq<int>, w: Record, q: Record)
    requires Resolves(candidates, final, warned) && w in final && q in final && !w.Strong() && q.Strong()
    ensures !q.Covers(w.address)
  {
    hide Chosen, Ambiguous;
    assert Chosen(candidates, q);
  }

  lemma {:induction false} AtAscending(f: seq<Record>, r: Record)
    requires Ascending(f) && r in f
    ensures At(f, r.address) == [r]
  {
    var here := At(f, r.address);
    AtLength(f, r.address);
    assert here[0] in here && here[0] in f;
  }

  lemma {:induction false} AtLength(f: seq<Record>, a: int)
    requires Ascending(f)
    ensures |At(f, a)| <= 1
    decreases |f|
  {
    if f != [] {
      AtLength(f[..|f| - 1], a);
      var front := At(f[..|f| - 1], a);
      assert |front| > 0 ==> front[0] in front && front[0] in f[..|f| - 1];
    }
  }

  lemma BestOfOne(r: Record)
    ensures BestOf([r], r) && !Ambiguous([r])
  {
    SamePrintReflexive(r);
    assert LastOfPrint([r], 0);
  }

  /** A resolved list resolves to itself, without warnings. */
  lemma Idempotent(
    candidates: seq<Record>, final: seq<Record>, warned: seq<int>, again: seq<Record>, warnedAgain: seq<int>)
    requires Resolves(candidates, final, warned) && Resolves(final, again, warnedAgain)
    ensures again == final && warnedAgain == []
  {
    hide BestOf, Ambiguous, At;
    forall r ensures Chosen(final, r) <==> r in final {
      if r in final {
        AtAscending(final, r);
        BestOfOne(r);
      }
      if Chosen(final, r) {
        AtBest(At(final, r.address), r);
      }
    }
    forall r | r in final ensures Survives(final, r) {
    }
    SameAscending(again, final);
    if warnedAgain != [] {
      var a := warnedAgain[0];
      assert a in warnedAgain;
      NotAmbiguousWhenEmpty(At(final, a));
      var r := At(final, a)[0];
      AtAscending(final, r);
      BestOfOne(r);
    }
  }

  // ---- The result by type names ----

  /** From the strongest type to the weakest. */
  function Ranking(): (names: seq<TypeName>)
    ensures |names| == 8
  {
    [Text, JumpTable, FunctionPointerTable, PointerTable, ArrayCandidate, StructCandidate, FunctionPointer, Pointer]
  }

  /** The type at place `k` of the ranking is the first that a candidate at `a` has. */
  ghost predicate FirstType(candidates: seq<Record>, a: int, k: nat) {
    && k < 8 && (exists r :: r in candidates && r.address == a && r.typeName == Ranking()[k])
    && forall r, i :: r in candidates && r.address == a && 0 <= i < k ==> r.typeName != Ranking()[i]
  }

  /** A record of one of the four types that keep weaker records out of the bytes they occupy. */
  ghost predicate Occupies(q: Record, a: int) {
    && q.typeName in {Text, JumpTable, FunctionPointerTable, PointerTable}
    && q.address <= a && (a < q.address + q.size || a == q.address)
  }

  /** Of the candidates of the first type at `x.address`, `x` has the highest confidence, then the least
      size, then the least evidence. */
  ghost predicate BestOfType(candidates: seq<Record>, x: Record, k: nat) {
    && x in candidates && k < 8 && x.typeName == Ranking()[k]
    && forall y :: y in candidates && y.address == x.address && y.typeName == Ranking()[k] ==>
         && y.confidence <= x.confidence
         && (y.confidence == x.confidence ==> x.size < y.size || (x.size == y.size && x.evidence <= y.evidence))
  }

  lemma RankingIs(r: Record, k: nat)
    requires k < 8
    ensures r.typeName == Ranking()[k] <==> r.Precedence() == k + 1
    ensures r.Strong() <==> r.typeName in {Text, JumpTable, FunctionPointerTable, PointerTable}
    ensures 1 <= r.Precedence() <= 8
  {
  }

  lemma CoversIs(q: Record, a: int)
    ensures q.Strong() && q.Covers(a) <==> Occupies(q, a)
  {
  }

  /** What is chosen at an address has the first type, and the best confidence, size and evidence of it. */
  lemma ChosenByType(candidates: seq<Record>, x: Record, k: nat)
    requires Chosen(candidates, x) && FirstType(candidates, x.address, k)
    ensures BestOfType(candidates, x, k)
  {
    hide LastOfPrint, AppearsBefore, Record.Precedence, Ranking, At;
    var here := At(candidates, x.address);
    forall r: Record ensures (r.typeName == Ranking()[k] <==> r.Precedence() == k + 1) && 1 <= r.Precedence() <= 8 {
      RankingIs(r, k);
    }
    AtBest(here, x);
    assert Top(here, x);
    NoEarlierType(candidates, x, k);
    var r :| r in candidates && r.address == x.address && r.typeName == Ranking()[k];
    assert r in here && Dominates(x, r);
    forall y | y in candidates && y.address == x.address && y.typeName == Ranking()[k]
      ensures y.confidence <= x.confidence
      ensures y.confidence == x.confidence ==> x.size < y.size || (x.size == y.size && x.evidence <= y.evidence)
    {
      assert y in here && Dominates(x, y);
      if y.confidence == x.confidence {
        AsTop(here, x, y);
      }
    }
  }

  lemma NoEarlierType(candidates: seq<Record>, x: Record, k: nat)
    requires FirstType(candidates, x.address, k) && x in candidates
    ensures x.Precedence() >= k + 1
  {
    PlaceOf(x);
  }

  lemma PlaceOf(x: Record)
    ensures 0 <= x.Precedence() - 1 < 8 && x.typeName == Ranking()[x.Precedence() - 1]
  {
  }

  lemma AsTop(here: seq<Record>, x: Record, y: Record)
    requires Top(here, x) && y in here && y.Precedence() == x.Precedence() && y.confidence == x.confidence
    ensures Top(here, y)
  {
    hide Record.Precedence;
  }

  /** A type with any candidate at all is first somewhere in the ranking. */
  lemma {:induction false} SomeFirstType(candidates: seq<Record>, a: int, from: nat)
    requires from <= 8 && exists r :: r in candidates && r.address == a
    requires forall r, i :: r in candidates && r.address == a && 0 <= i < from ==> r.typeName != Ranking()[i]
    ensures exists k :: FirstType(candidates, a, k)
    decreases 8 - from
  {
    if from == 8 {
      var r :| r in candidates && r.address == a;
      NotRanked(r);
    } else if exists r :: r in candidates && r.address == a && r.typeName == Ranking()[from] {
      assert FirstType(candidates, a, from);
    } else {
      SomeFirstType(candidates, a, from + 1);
    }
  }

  lemma NotRanked(r: Record)
    ensures exists i :: 0 <= i < 8 && r.typeName == Ranking()[i]
  {
    PlaceOf(r);
  }

  /** Resolution by names.  Every address with a candidate yields at most one record, of the first type in
      the ranking that a candidate there has.  The four strong types always stay; the four weak ones stay
      exactly where no strong record of the result occupies their address. */
  lemma ResolvedByType(candidates: seq<Record>, final: seq<Record>, warned: seq<int>, a: int, k: nat)
    requires Resolves(candidates, final, warned) && FirstType(candidates, a, k)
    ensures forall x :: x in final && x.address == a ==> BestOfType(candidates, x, k)
    ensures (exists x :: x in final && x.address == a)
       <==> Ranking()[k] in {Text, JumpTable, FunctionPointerTable, PointerTable}
            || forall q :: q in final ==> !Occupies(q, a)
  {
    hide BestOf, Ambiguous, Record.Precedence, Record.Strong, Ranking, FirstType, At;
    forall x | x in final && x.address == a ensures BestOfType(candidates, x, k) {
      ChosenByType(candidates, x, k);
    }
    var b := ChosenAt(candidates, a, k);
    ChosenByType(candidates, b, k);
    RankingOf(b, k);
    forall q: Record ensures q.Strong() && q.Covers(a) <==> Occupies(q, a) {
      CoversIs(q, a);
    }
    hide Record.Covers, Occupies, BestOfType;
    forall x | x in final && x.address == a ensures x == b {
      SameChoice(candidates, x, b);
    }
    assert b in final <==> Survives(candidates, b);
    SurvivesIff(candidates, final, warned, b);
  }

  /** Every record of the result is the best of the first type at its address. */
  lemma ResultIsRanked(candidates: seq<Record>, final: seq<Record>, warned: seq<int>, x: Record)
    requires Resolves(candidates, final, warned) && x in final
    ensures exists k: nat :: FirstType(candidates, x.address, k) && BestOfType(candidates, x, k)
  {
    hide Ambiguous, FirstType, BestOfType, Survives, BestOf, Ranking, Record.Precedence;
    assert Chosen(candidates, x);
    AtBest(At(candidates, x.address), x);
    SomeFirstType(candidates, x.address, 0);
    var k: nat :| FirstType(candidates, x.address, k);
    ChosenByType(candidates, x, k);
  }

  lemma RankingOf(b: Record, k: nat)
    requires k < 8 && b.typeName == Ranking()[k]
    ensures b.Strong() <==> Ranking()[k] in {Text, JumpTable, FunctionPointerTable, PointerTable}
  {
  }

  lemma SameChoice(candidates: seq<Record>, x: Record, b: Record)
    requires Chosen(candidates, x) && Chosen(candidates, b) && x.address == b.address
    ensures x == b
  {
    hide BestOf;
    BestUnique(At(candidates, b.address), x, b);
  }

  lemma ChosenAt(candidates: seq<Record>, a: int, k: nat) returns (b: Record)
    requires FirstType(candidates, a, k)
    ensures Chosen(candidates, b) && b.address == a
  {
    hide BestOf;
    var r :| r in candidates && r.address == a;
    var here := At(candidates, a);
    assert r in here;
    ChosenIsBest(here);
    hide Tied, Unique;
    b := Tied(Unique(here))[0];
    AtBest(here, b);
  }

  /** A chosen record stays exactly when it is strong or no strong record of the result covers its address. */
  lemma SurvivesIff(candidates: seq<Record>, final: seq<Record>, warned: seq<int>, b: Record)
    requires Resolves(candidates, final, warned)
    ensures Survives(candidates, b) <==> b.Strong() || forall q :: q in final && q.Strong() ==> !q.Covers(b.address)
  {
    hide Chosen, Ambiguous, Record.Strong, Record.Covers;
    forall q | Chosen(candidates, q) && q.Strong() ensures q in final {
      assert Survives(candidates, q);
    }
  }

  /** A warning is due exactly where two records of the first type share the highest confidence and differ in
      more than section, address and field evidence. */
  lemma WarnedByType(candidates: seq<Record>, final: seq<Record>, warned: seq<int>, a: int, k: nat)
    requires Resolves(candidates, final, warned) && FirstType(candidates, a, k)
    ensures a in warned
       <==> exists x, y :: TopOfType(candidates, a, k, x) && TopOfType(candidates, a, k, y)
              && x.(section := 0, address := 0, fieldEvidence := 0) != y.(section := 0, address := 0, fieldEvidence := 0)
  {
    hide Record.Precedence, Chosen, Survives, Ranking, FirstType, At;
    var here := At(candidates, a);
    forall x ensures Top(here, x) <==> TopOfType(candidates, a, k, x) {
      TopByType(candidates, a, k, x);
    }
    hide Top, TopOfType;
  }

  ghost predicate TopOfType(candidates: seq<Record>, a: int, k: nat, x: Record) {
    && x in candidates && x.address == a && k < 8 && x.typeName == Ranking()[k]
    && forall y :: y in candidates && y.address == a && y.typeName == Ranking()[k] ==> y.confidence <= x.confidence
  }

  lemma TopByType(candidates: seq<Record>, a: int, k: nat, x: Record)
    requires FirstType(candidates, a, k)
    ensures Top(At(candidates, a), x) <==> TopOfType(candidates, a, k, x)
  {
    hide Record.Precedence, Ranking;
    forall r: Record ensures (r.typeName == Ranking()[k] <==> r.Precedence() == k + 1) && 1 <= r.Precedence() <= 8 {
      RankingIs(r, k);
    }
    forall y | y in candidates && y.address == a ensures y.Precedence() >= k + 1 {
      NoEarlierType(candidates, y, k);
    }
    hide FirstType;
    TopIff(candidates, a, k, x);
  }

  lemma TopIff(candidates: seq<Record>, a: int, k: nat, x: Record)
    requires k < 8 && exists r :: r in candidates && r.address == a && r.Precedence() == k + 1
    requires forall r: Record :: r.typeName == Ranking()[k] <==> r.Precedence() == k + 1
    requires forall y :: y in candidates && y.address == a ==> y.Precedence() >= k + 1
    ensures Top(At(candidates, a), x) <==> TopOfType(candidates, a, k, x)
  {
    hide Record.Precedence, Ranking, At;
  }
}
