/** What the patched image of a relocated load view means. */
module LoadViewTheorems {
  import opened Prelude
  import opened ByteStrings
  import opened ElfModel
  import opened RelocationWords
  import opened LoadView

  ghost predicate Covers(elf: ElfImage, size: nat, r: Relocation, p: int) {
    var site := Site(elf, size, r);
    site.Ok? && site.value <= p < site.value + 4
  }

  /** No two relocations of the list write a common byte. */
  ghost predicate SitesDisjoint(elf: ElfImage, size: nat, relocs: seq<Relocation>) {
    forall i, j, p :: 0 <= i < j < |relocs| && Covers(elf, size, relocs[i], p) ==> !Covers(elf, size, relocs[j], p)
  }

  lemma {:induction false} PrefixSucceeds(data: Bytes, elf: ElfImage, bases: map<int, int>, relocs: seq<Relocation>,
                                          k: nat, n: nat)
    requires k < n <= |relocs| && Patched(data, elf, bases, relocs, n).Ok?
    ensures Patched(data, elf, bases, relocs, k).Ok?
    ensures Site(elf, |data|, relocs[k]).Ok?
    decreases n
  {
    hide Site, NewWord;
    if k < n - 1 {
      PrefixSucceeds(data, elf, bases, relocs, k, n - 1);
    }
  }

  /** Exact frame: a byte no relocation covers keeps its input value. */
  lemma {:induction false} Frame(data: Bytes, elf: ElfImage, bases: map<int, int>, relocs: seq<Relocation>,
                                 n: nat, p: nat)
    requires n <= |relocs| && p < |data| && Patched(data, elf, bases, relocs, n).Ok?
    requires forall k :: 0 <= k < n ==> !Covers(elf, |data|, relocs[k], p)
    ensures Patched(data, elf, bases, relocs, n).value[p] == data[p]
    decreases n
  {
    if n > 0 {
      Frame(data, elf, bases, relocs, n - 1, p);
      assert !Covers(elf, |data|, relocs[n - 1], p);
    }
  }

  /** A word whose bytes agree reads the same. */
  lemma SameBytesSameWord(a: Bytes, b: Bytes, offset: nat)
    requires |a| == |b| && offset + 4 <= |a|
    requires forall p :: offset <= p < offset + 4 ==> a[p] == b[p]
    ensures WordAt(a, offset) == WordAt(b, offset)
  {
    assert a[offset..offset + 4] == b[offset..offset + 4];
  }

  lemma PatchReads(image: Bytes, offset: nat, word: nat)
    requires offset + 4 <= |image| && word < 0x1_0000_0000
    ensures WordAt(Patch(image, offset, word), offset) == word
  {
    Pow2Words();
    LEBytesRoundTrip(word, 4);
  }

  /** With disjoint source words the image before step `k` still holds the input word there. */
  lemma {:induction false} UnpatchedYet(
    data: Bytes, elf: ElfImage, bases: map<int, int>, relocs: seq<Relocation>, k: nat)
    requires k < |relocs| && SitesDisjoint(elf, |data|, relocs)
    requires Patched(data, elf, bases, relocs, k).Ok? && Site(elf, |data|, relocs[k]).Ok?
    ensures var site := Site(elf, |data|, relocs[k]).value;
            WordAt(Patched(data, elf, bases, relocs, k).value, site) == WordAt(data, site)
  {
    var image, site := Patched(data, elf, bases, relocs, k).value, Site(elf, |data|, relocs[k]).value;
    forall p | site <= p < site + 4 ensures image[p] == data[p] {
      assert Covers(elf, |data|, relocs[k], p);
      Frame(data, elf, bases, relocs, k, p);
    }
    SameBytesSameWord(image, data, site);
  }

  lemma DisjointPair(elf: ElfImage, size: nat, relocs: seq<Relocation>, i: nat, j: nat, p: int)
    requires i < j < |relocs| && SitesDisjoint(elf, size, relocs) && Covers(elf, size, relocs[i], p)
    ensures !Covers(elf, size, relocs[j], p)
  {
  }

  /** With disjoint source words every patched word is its relocation of the input word. */
  lemma {:induction false} WordsExact(data: Bytes, elf: ElfImage, bases: map<int, int>, relocs: seq<Relocation>,
                                      n: nat, k: nat)
    requires k < n <= |relocs| && SitesDisjoint(elf, |data|, relocs)
    requires Patched(data, elf, bases, relocs, n).Ok?
    ensures Site(elf, |data|, relocs[k]).Ok?
    ensures var site := Site(elf, |data|, relocs[k]).value;
            NewWord(data, elf, bases, relocs, k, WordAt(data, site))
              == Ok(WordAt(Patched(data, elf, bases, relocs, n).value, site))
    decreases n
  {
    hide NewWord, Site, Patched, SitesDisjoint, LE;
    PrefixSucceeds(data, elf, bases, relocs, k, n);
    PrefixSucceeds(data, elf, bases, relocs, n - 1, n);
    PatchedStep(data, elf, bases, relocs, n - 1, Patched(data, elf, bases, relocs, n - 1).value);
    var image := Patched(data, elf, bases, relocs, n - 1).value;
    var last := Site(elf, |data|, relocs[n - 1]).value;
    if k == n - 1 {
      UnpatchedYet(data, elf, bases, relocs, k);
      var word := NewWord(data, elf, bases, relocs, k, WordAt(data, last)).value;
      PatchReads(image, last, word);
    } else {
      WordsExact(data, elf, bases, relocs, n - 1, k);
      var site := Site(elf, |data|, relocs[k]).value;
      var patched := Patched(data, elf, bases, relocs, n).value;
      forall p | site <= p < site + 4 ensures patched[p] == image[p] {
        DisjointPair(elf, |data|, relocs, k, n - 1, p);
      }
      SameBytesSameWord(patched, image, site);
    }
  }

  /** A Type-A HI16 that carries no explicit addend. */
  predicate TypeAHi16(r: Relocation) {
    r.rtype == 5 && r.addend.None? && r.source != FromProgramHeaderRel2
  }

  /** End to end: in the patched image a Type-A HI16 and its companion low half build the address
      they built in the input plus the segment's load base.  Any number of HI16s may share one
      companion, because each reads it from the unpatched input. */
  lemma {:induction false} HighLowPairMoves(
    data: Bytes, elf: ElfImage, bases: map<int, int>, relocs: seq<Relocation>, i: nat, j: nat)
    requires i < |relocs| && SitesDisjoint(elf, |data|, relocs)
    requires Patched(data, elf, bases, relocs, |relocs|).Ok?
    requires TypeAHi16(relocs[i]) && FirstCompanion(relocs, relocs[i], i + 1) == Some(j)
    ensures Site(elf, |data|, relocs[i]).Ok? && Site(elf, |data|, relocs[j]).Ok?
    ensures TargetIndex(relocs[i]) in bases
    ensures var image := Patched(data, elf, bases, relocs, |relocs|).value;
            var hi, lo := Site(elf, |data|, relocs[i]).value, Site(elf, |data|, relocs[j]).value;
            && Congruent32(Ahl(WordAt(image, hi), WordAt(image, lo)),
                           Ahl(WordAt(data, hi), WordAt(data, lo)) + bases[TargetIndex(relocs[i])])
            && WordAt(image, hi) / 0x1_0000 == WordAt(data, hi) / 0x1_0000
            && WordAt(image, lo) / 0x1_0000 == WordAt(data, lo) / 0x1_0000
  {
    hide ApplyWord, Ahl, Congruent32, SignedLowHalf, Patched, SitesDisjoint;
    WordsExact(data, elf, bases, relocs, |relocs|, i);
    WordsExact(data, elf, bases, relocs, |relocs|, j);
    var hi, lo := Site(elf, |data|, relocs[i]).value, Site(elf, |data|, relocs[j]).value;
    var base := bases[TargetIndex(relocs[i])];
    WordIs32Bit(data, hi);
    WordIs32Bit(data, lo);
    CompanionLowHalf(data, elf, relocs, i, j, lo);
    var lo16 := Some(SignedLowHalf(WordAt(data, lo)));
    HighLowPair(WordAt(data, hi), WordAt(data, lo), relocs[i], relocs[j], base, lo16);
  }

  lemma WordIs32Bit(data: Bytes, offset: nat)
    requires offset + 4 <= |data|
    ensures WordAt(data, offset) < 0x1_0000_0000
  {
    Pow2Words();
    LERoundTrip(data[offset..offset + 4]);
  }

  lemma {:induction false} CompanionLowHalf(
    data: Bytes, elf: ElfImage, relocs: seq<Relocation>, i: nat, j: nat, lo: nat)
    requires i < |relocs| && TypeAHi16(relocs[i]) && FirstCompanion(relocs, relocs[i], i + 1) == Some(j)
    requires Site(elf, |data|, relocs[j]) == Ok(lo)
    ensures LowHalfFor(data, elf, relocs, i) == Ok(Some(SignedLowHalf(WordAt(data, lo))))
    ensures LowHalfFor(data, elf, relocs, j) == Ok(None)
  {
  }

  // ---- When the patch loop succeeds ----

  /** A low half is at hand where one is needed: an addend, or a Type-A companion whose word lies in the
      file. */
  predicate LowHalfAtHand(elf: ElfImage, size: nat, relocs: seq<Relocation>, k: nat)
    requires k < |relocs|
  {
    var r := relocs[k];
    r.rtype == 5 && r.addend.None? ==>
      r.source != FromProgramHeaderRel2
      && match FirstCompanion(relocs, r, k + 1)
         case None => false
         case Some(j) => var offset := SourceFileOffset(elf, relocs[j]);
                         offset.Ok? && 0 <= offset.value && offset.value + 4 <= size
  }

  /** Everything the loop asks of relocation `k`: nothing depends on the bytes of the image. */
  predicate Applies(elf: ElfImage, size: nat, bases: map<int, int>, relocs: seq<Relocation>, k: nat)
    requires k < |relocs|
  {
    && Site(elf, size, relocs[k]).Ok? && TargetIndex(relocs[k]) in bases
    && SupportedType(relocs[k].rtype) && LowHalfAtHand(elf, size, relocs, k)
  }

  lemma {:induction false} NewWordSucceedsIff(
    data: Bytes, elf: ElfImage, bases: map<int, int>, relocs: seq<Relocation>, k: nat, word: int)
    requires k < |relocs|
    ensures NewWord(data, elf, bases, relocs, k, word).Ok?
       <==> TargetIndex(relocs[k]) in bases && SupportedType(relocs[k].rtype)
            && LowHalfAtHand(elf, |data|, relocs, k)
  {
    hide ApplyWord, SourceFileOffset, FirstCompanion, SignedLowHalf, WordAt, SupportedType;
    if TargetIndex(relocs[k]) in bases {
      var lo16 := LowHalfFor(data, elf, relocs, k);
      if lo16.Ok? {
        ApplyWordSucceedsIff(word, relocs[k], bases[TargetIndex(relocs[k])], lo16.value);
      }
    }
  }

  /** The loop over the first `n` relocations succeeds exactly when each of them applies. */
  lemma {:induction false} PatchSucceedsIff(
    data: Bytes, elf: ElfImage, bases: map<int, int>, relocs: seq<Relocation>, n: nat)
    requires n <= |relocs|
    ensures Patched(data, elf, bases, relocs, n).Ok?
       <==> forall k: nat :: k < n ==> Applies(elf, |data|, bases, relocs, k)
    decreases n
  {
    hide Site, NewWord, Patched, LowHalfAtHand, SupportedType, WordAt;
    if n == 0 {
      PatchedStart(data, elf, bases, relocs);
    } else {
      PatchSucceedsIff(data, elf, bases, relocs, n - 1);
      if Patched(data, elf, bases, relocs, n - 1).Ok? {
        var image := Patched(data, elf, bases, relocs, n - 1).value;
        PatchedStep(data, elf, bases, relocs, n - 1, image);
        var site := Site(elf, |data|, relocs[n - 1]);
        if site.Ok? {
          NewWordSucceedsIff(data, elf, bases, relocs, n - 1, WordAt(image, site.value));
        }
        assert Patched(data, elf, bases, relocs, n).Ok? <==> Applies(elf, |data|, bases, relocs, n - 1);
      } else {
        PatchedFails(data, elf, bases, relocs, n);
      }
    }
  }

  // ---- Order independence ----

  /** The word `r` writes when it needs no companion: a function of the relocation alone. */
  function AloneWord(data: Bytes, elf: ElfImage, bases: map<int, int>, r: Relocation): Result<int, LoadError> {
    var offset :- Site(elf, |data|, r);
    NewWord(data, elf, bases, [r], 0, WordAt(data, offset))
  }

  predicate ExplicitAddends(relocs: seq<Relocation>) {
    forall r :: r in relocs && r.rtype == 5 ==> r.addend.Some?
  }

  lemma {:induction false} SucceedsIffEachDoes(
    data: Bytes, elf: ElfImage, bases: map<int, int>, relocs: seq<Relocation>, n: nat)
    requires n <= |relocs| && ExplicitAddends(relocs)
    ensures Patched(data, elf, bases, relocs, n).Ok?
       <==> forall k :: 0 <= k < n ==> AloneWord(data, elf, bases, relocs[k]).Ok?
    decreases n
  {
    hide *;
    if n > 0 {
      SucceedsIffEachDoes(data, elf, bases, relocs, n - 1);
      if Patched(data, elf, bases, relocs, n - 1).Ok? {
        var image := Patched(data, elf, bases, relocs, n - 1).value;
        PatchedStep(data, elf, bases, relocs, n - 1, image);
        StepAlone(data, elf, bases, relocs, n - 1, image);
      } else {
        PatchedFails(data, elf, bases, relocs, n);
      }
    } else {
      PatchedStart(data, elf, bases, relocs);
    }
  }

  lemma {:induction false} PatchedFails(data: Bytes, elf: ElfImage, bases: map<int, int>, relocs: seq<Relocation>,
                                        n: nat)
    requires 0 < n <= |relocs| && Patched(data, elf, bases, relocs, n - 1).Err?
    ensures Patched(data, elf, bases, relocs, n).Err?
  {
    hide Site, NewWord;
  }

  lemma {:induction false} StepAlone(
    data: Bytes, elf: ElfImage, bases: map<int, int>, relocs: seq<Relocation>, k: nat, image: Bytes)
    requires k < |relocs| && |image| == |data| && ExplicitAddends(relocs)
    ensures AloneWord(data, elf, bases, relocs[k]).Ok?
       <==> var site := Site(elf, |image|, relocs[k]);
            site.Ok? && NewWord(data, elf, bases, relocs, k, WordAt(image, site.value)).Ok?
  {
    hide ApplyWord, Site;
    var r, t := relocs[k], TargetIndex(relocs[k]);
    assert r in relocs;
    var site := Site(elf, |data|, r);
    if site.Ok? && t in bases {
      ApplyWordSucceedsIff(WordAt(image, site.value), r, bases[t], None);
      ApplyWordSucceedsIff(WordAt(data, site.value), r, bases[t], None);
    }
  }

  /** A covered byte holds the matching byte of its relocation's own word. */
  lemma {:induction false} CoveredByte(
    data: Bytes, elf: ElfImage, bases: map<int, int>, relocs: seq<Relocation>, k: nat, p: nat)
    requires k < |relocs| && ExplicitAddends(relocs) && SitesDisjoint(elf, |data|, relocs)
    requires Patched(data, elf, bases, relocs, |relocs|).Ok? && Covers(elf, |data|, relocs[k], p)
    ensures AloneWord(data, elf, bases, relocs[k]).Ok?
    ensures Patched(data, elf, bases, relocs, |relocs|).value[p]
         == LEBytes(AloneWord(data, elf, bases, relocs[k]).value, 4)[p - Site(elf, |data|, relocs[k]).value]
  {
    hide Patched, ApplyWord, SitesDisjoint;
    WordsExact(data, elf, bases, relocs, |relocs|, k);
    assert relocs[k] in relocs;
    var site := Site(elf, |data|, relocs[k]).value;
    var image := Patched(data, elf, bases, relocs, |relocs|).value;
    LERoundTrip(image[site..site + 4]);
    assert image[p] == image[site..site + 4][p - site];
  }

  lemma PermutedSites(elf: ElfImage, size: nat, xs: seq<Relocation>, ys: seq<Relocation>)
    requires multiset(xs) == multiset(ys) && SitesDisjoint(elf, size, xs)
    ensures SitesDisjoint(elf, size, ys)
  {
    forall i, j, p | 0 <= i < j < |ys| && Covers(elf, size, ys[i], p)
      ensures !Covers(elf, size, ys[j], p)
    {
      assert ys[i] in multiset(ys) && ys[j] in multiset(ys);
      var a :| 0 <= a < |xs| && xs[a] == ys[i];
      var b :| 0 <= b < |xs| && xs[b] == ys[j];
      CoveredOnce(elf, size, xs, ys[i], p);
      if ys[i] == ys[j] {
        TwoOccurrences(ys, i, j);
        assert false;
      }
    }
  }

  lemma CoveredOnce(elf: ElfImage, size: nat, xs: seq<Relocation>, r: Relocation, p: int)
    requires SitesDisjoint(elf, size, xs) && Covers(elf, size, r, p)
    ensures multiset(xs)[r] <= 1
  {
    if multiset(xs)[r] >= 2 {
      var c, d := FindTwo(xs, r);
      assert false;
    }
  }

  lemma TwoOccurrences<T>(s: seq<T>, i: nat, j: nat)
    requires i < j < |s| && s[i] == s[j]
    ensures multiset(s)[s[i]] >= 2
  {
    assert s == s[..j] + [s[j]] + s[j + 1..];
    assert s[i] in s[..j];
  }

  lemma {:induction false} FindTwo<T>(s: seq<T>, x: T) returns (i: nat, j: nat)
    requires multiset(s)[x] >= 2
    ensures i < j < |s| && s[i] == x && s[j] == x
  {
    assert s == [s[0]] + s[1..];
    if s[0] == x {
      assert x in multiset(s[1..]);
      i := 0;
      var k :| 0 <= k < |s[1..]| && s[1..][k] == x;
      j := k + 1;
    } else {
      i, j := FindTwo(s[1..], x);
      i, j := i + 1, j + 1;
    }
  }

  /** When every HI16 names its addend, the image does not depend on the order of the list. */
  lemma {:induction false} OrderIndependent(
    data: Bytes, elf: ElfImage, bases: map<int, int>, xs: seq<Relocation>, ys: seq<Relocation>)
    requires multiset(xs) == multiset(ys)
    requires ExplicitAddends(xs) && SitesDisjoint(elf, |data|, xs)
    ensures var x, y := Patched(data, elf, bases, xs, |xs|), Patched(data, elf, bases, ys, |ys|);
            (x.Ok? <==> y.Ok?) && (x.Ok? ==> x == y)
  {
    hide Patched, AloneWord, SitesDisjoint;
    forall r: Relocation ensures r in xs <==> r in ys {
      assert r in xs <==> r in multiset(xs);
      assert r in ys <==> r in multiset(ys);
    }
    PermutedSites(elf, |data|, xs, ys);
    SucceedsIffEachDoes(data, elf, bases, xs, |xs|);
    SucceedsIffEachDoes(data, elf, bases, ys, |ys|);
    var x, y := Patched(data, elf, bases, xs, |xs|), Patched(data, elf, bases, ys, |ys|);
    EachAlike(data, elf, bases, xs, ys);
    if x.Ok? && y.Ok? {
      forall p | 0 <= p < |data| ensures x.value[p] == y.value[p] {
        SameByte(data, elf, bases, xs, ys, p);
      }
      assert x.value == y.value;
    }
  }

  lemma {:induction false} EachAlike(data: Bytes, elf: ElfImage, bases: map<int, int>,
                                     xs: seq<Relocation>, ys: seq<Relocation>)
    requires forall r :: r in xs <==> r in ys
    ensures (forall k :: 0 <= k < |xs| ==> AloneWord(data, elf, bases, xs[k]).Ok?)
       <==> (forall k :: 0 <= k < |ys| ==> AloneWord(data, elf, bases, ys[k]).Ok?)
  {
    hide AloneWord;
    assert forall k :: 0 <= k < |xs| ==> xs[k] in ys;
    assert forall k :: 0 <= k < |ys| ==> ys[k] in xs;
  }

  lemma {:induction false} SameByte(
    data: Bytes, elf: ElfImage, bases: map<int, int>, xs: seq<Relocation>, ys: seq<Relocation>, p: nat)
    requires forall r :: r in xs <==> r in ys
    requires ExplicitAddends(xs) && SitesDisjoint(elf, |data|, xs) && SitesDisjoint(elf, |data|, ys)
    requires p < |data|
    requires Patched(data, elf, bases, xs, |xs|).Ok? && Patched(data, elf, bases, ys, |ys|).Ok?
    ensures Patched(data, elf, bases, xs, |xs|).value[p] == Patched(data, elf, bases, ys, |ys|).value[p]
  {
    hide Patched, Covers, SitesDisjoint;
    if k :| 0 <= k < |xs| && Covers(elf, |data|, xs[k], p) {
      assert xs[k] in ys;
      var l :| 0 <= l < |ys| && ys[l] == xs[k];
      CoveredByte(data, elf, bases, xs, k, p);
      CoveredByte(data, elf, bases, ys, l, p);
    } else {
      forall l | 0 <= l < |ys| ensures !Covers(elf, |data|, ys[l], p) {
        assert ys[l] in xs;
      }
      Frame(data, elf, bases, xs, |xs|, p);
      Frame(data, elf, bases, ys, |ys|, p);
    }
  }
}
