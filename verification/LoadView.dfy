/** `load_view.py`: applying a relocation list to a byte image at an explicit load address. */
module LoadView {
  import opened Prelude
  import opened ByteStrings
  import opened ElfModel
  import opened RelocationWords

  datatype LoadError =
    | BigEndian | BadLoadAddress | NoLoadedSegment | DeltaOutOfRange | LayoutOutside32Bit
    | BadSegmentIndex | NotALoadSegment | OffsetNotFileBacked | WordBeyondInput
    | CompanionBeyondInput | NoSegmentBase | BadWord(word: WordError) | AddressOutside32Bit

  // ---- Locating a relocation's source word ----

  /** The packed byte of `info`, or the decoder's explicit index when there is one. */
  function SourceIndex(r: Relocation): int {
    if r.sourceSegment.Some? then r.sourceSegment.value else r.info / 0x100 % 0x100
  }

  function TargetIndex(r: Relocation): int {
    if r.targetSegment.Some? then r.targetSegment.value else r.info / 0x1_0000 % 0x100
  }

  function Segment(elf: ElfImage, index: int): (res: Result<ProgramHeader, LoadError>)
    ensures res.Ok? <==> 0 <= index < |elf.programHeaders| && elf.programHeaders[index].ptype == 1
    ensures res.Ok? ==> res.value == elf.programHeaders[index]
  {
    if !(0 <= index < |elf.programHeaders|) then Err(BadSegmentIndex)
    else if elf.programHeaders[index].ptype != 1 then Err(NotALoadSegment)
    else Ok(elf.programHeaders[index])
  }

  function SourceFileOffset(elf: ElfImage, r: Relocation): Result<int, LoadError> {
    var source :- Segment(elf, SourceIndex(r));
    if r.offset < 0 || r.offset + 4 > source.filesz then Err(OffsetNotFileBacked)
    else Ok(source.offset + r.offset)
  }

  // ---- The unpatched low half paired with a Type-A HI16 ----

  predicate IsCompanion(hi: Relocation, lo: Relocation) {
    (lo.rtype == 1 || lo.rtype == 6) && SourceIndex(lo) == SourceIndex(hi) && TargetIndex(lo) == TargetIndex(hi)
  }

  function FirstCompanion(relocs: seq<Relocation>, hi: Relocation, from: nat): (j: Option<nat>)
    requires from <= |relocs|
    ensures j.Some? ==> from <= j.value < |relocs| && IsCompanion(hi, relocs[j.value])
    ensures j.Some? ==> forall k :: from <= k < j.value ==> !IsCompanion(hi, relocs[k])
    ensures j.None? ==> forall k :: from <= k < |relocs| ==> !IsCompanion(hi, relocs[k])
    decreases |relocs| - from
  {
    if from == |relocs| then None
    else if IsCompanion(hi, relocs[from]) then Some(from)
    else FirstCompanion(relocs, hi, from + 1)
  }

  function TypeAHi16LowHalf(data: Bytes, elf: ElfImage, relocs: seq<Relocation>, index: nat)
    : Result<Option<int>, LoadError>
    requires index < |relocs|
  {
    var r := relocs[index];
    if r.rtype != 5 || r.source == FromProgramHeaderRel2 then Ok(None)
    else
      match FirstCompanion(relocs, r, index + 1)
      case None => Ok(None)
      case Some(j) =>
        var offset :- SourceFileOffset(elf, relocs[j]);
        if offset < 0 || offset + 4 > |data| then Err(CompanionBeyondInput)
        else Ok(Some(SignedLowHalf(WordAt(data, offset))))
  }

  // ---- One patch ----

  function WordAt(data: Bytes, offset: nat): nat
    requires offset + 4 <= |data|
  {
    LE(data[offset..offset + 4])
  }

  function Patch(image: Bytes, offset: nat, word: nat): (res: Bytes)
    requires offset + 4 <= |image|
    ensures |res| == |image|
    ensures forall p :: 0 <= p < |image| && !(offset <= p < offset + 4) ==> res[p] == image[p]
    ensures res[offset..offset + 4] == LEBytes(word, 4)
  {
    image[..offset] + LEBytes(word, 4) + image[offset + 4..]
  }

  /** Where relocation `k` writes. */
  function Site(elf: ElfImage, size: nat, r: Relocation): (res: Result<int, LoadError>)
    ensures res.Ok? ==> 0 <= res.value && res.value + 4 <= size
  {
    var _ :- Segment(elf, TargetIndex(r));
    var offset :- SourceFileOffset(elf, r);
    if offset < 0 || offset + 4 > size then Err(WordBeyondInput) else Ok(offset)
  }

  function LowHalfFor(data: Bytes, elf: ElfImage, relocs: seq<Relocation>, k: nat)
    : Result<Option<int>, LoadError>
    requires k < |relocs|
  {
    if relocs[k].rtype == 5 && relocs[k].addend.None? then TypeAHi16LowHalf(data, elf, relocs, k) else Ok(None)
  }

  /** The value relocation `k` writes over `word`: its low half comes from the unpatched `data`. */
  function NewWord(data: Bytes, elf: ElfImage, bases: map<int, int>, relocs: seq<Relocation>, k: nat, word: int)
    : (res: Result<int, LoadError>)
    requires k < |relocs|
    ensures res.Ok? ==> 0 <= res.value < 0x1_0000_0000
  {
    var lo16 :- LowHalfFor(data, elf, relocs, k);
    if TargetIndex(relocs[k]) !in bases then Err(NoSegmentBase)
    else
      match ApplyWord(word, relocs[k], bases[TargetIndex(relocs[k])], lo16)
      case Err(e) => Err(BadWord(e))
      case Ok(w) => ApplyWordIs32Bit(word, relocs[k], bases[TargetIndex(relocs[k])], lo16); Ok(w)
  }

  lemma {:induction false} ApplyWordIs32Bit(word: int, r: Relocation, base: int, lo16: Option<int>)
    ensures var res := ApplyWord(word, r, base, lo16); res.Ok? ==> 0 <= res.value < 0x1_0000_0000
  {
    var w, b := word % 0x1_0000_0000, base % 0x1_0000_0000;
    if JumpType(r.rtype) {
      OpcodeAndField(w, r.rtype, b);
    } else if r.rtype == 1 || r.rtype == 6 {
      LowPart(w, b);
    }
  }

  /** The image after the first `n` relocations. */
  function Patched(data: Bytes, elf: ElfImage, bases: map<int, int>, relocs: seq<Relocation>, n: nat)
    : (res: Result<Bytes, LoadError>)
    requires n <= |relocs|
    ensures res.Ok? ==> |res.value| == |data|
    decreases n
  {
    if n == 0 then Ok(data)
    else
      var image :- Patched(data, elf, bases, relocs, n - 1);
      var offset :- Site(elf, |image|, relocs[n - 1]);
      var word :- NewWord(data, elf, bases, relocs, n - 1, WordAt(image, offset));
      Ok(Patch(image, offset, word))
  }

  lemma {:induction false} PatchedStart(data: Bytes, elf: ElfImage, bases: map<int, int>, relocs: seq<Relocation>)
    ensures Patched(data, elf, bases, relocs, 0) == Ok(data)
  {
  }

  lemma {:induction false} PatchedStep(data: Bytes, elf: ElfImage, bases: map<int, int>, relocs: seq<Relocation>,
                                       k: nat, image: Bytes)
    requires k < |relocs| && Patched(data, elf, bases, relocs, k) == Ok(image)
    ensures Patched(data, elf, bases, relocs, k + 1)
         == var offset := Site(elf, |image|, relocs[k]);
            if offset.Err? then Err(offset.error)
            else
              var word := NewWord(data, elf, bases, relocs, k, WordAt(image, offset.value));
              if word.Err? then Err(word.error) else Ok(Patch(image, offset.value, word.value))
  {
    hide Site, NewWord, Patch, WordAt;
  }
}
