/** The pure word transform of `prxreloc2.py`: one PSP relocation on one 32-bit word. */
module RelocationWords {
  import opened Prelude
  import opened ElfModel

  /* Relocation types, as normalized by the decoders:
     0 R_MIPS_NONE, 1 R_MIPS_16, 2 R_MIPS_32, 4 R_MIPS_26, 5 R_MIPS_HI16, 6 R_MIPS_LO16,
     7 R_MIPS_GPREL16, 14 R_MIPS_X_J26, 15 R_MIPS_X_JAL26. */

  datatype WordError = UnresolvedLowHalf | UnsupportedType

  /** The low half-word read as a signed 16-bit immediate. */
  function SignedLowHalf(word: int): int {
    var value := word % 0x1_0000;
    if value >= 0x8000 then value - 0x1_0000 else value
  }

  /** The word with `base` added to its low half, without a carry into the high half. */
  function LowWord(word: int, base: int): int {
    word / 0x1_0000 * 0x1_0000 + (word % 0x1_0000 + base) % 0x1_0000
  }

  /** The word whose low half becomes the carried upper half of the built address. */
  function HighWord(word: int, low: int, base: int): int {
    var address := (word % 0x1_0000 * 0x1_0000 + low + base) % 0x1_0000_0000;
    var carried := if address % 0x1_0000 >= 0x8000 then (address + 0x1_0000) % 0x1_0000_0000 else address;
    word / 0x1_0000 * 0x1_0000 + carried / 0x1_0000
  }

  /** The opcode bits a jump keeps, or the J (0x08...) or JAL (0x0C...) opcode it is forced to. */
  function JumpOpcode(word: int, t: int): int {
    if t == 14 then 0x0800_0000 else if t == 15 then 0x0C00_0000 else word / 0x400_0000 * 0x400_0000
  }

  function JumpField(word: int, base: int): int {
    (word % 0x400_0000 + base / 4) % 0x400_0000
  }

  predicate JumpType(t: int) {
    t == 4 || t == 14 || t == 15
  }

  function ApplyWord(word0: int, r: Relocation, base0: int, lo16: Option<int>): (res: Result<int, WordError>)
  {
    var word, base := word0 % 0x1_0000_0000, base0 % 0x1_0000_0000;
    if r.rtype == 0 || r.rtype == 7 then Ok(word)
    else if r.rtype == 2 then Ok((word + base) % 0x1_0000_0000)
    else if r.rtype == 1 || r.rtype == 6 then
      Ok(LowWord(word, base))
    else if JumpType(r.rtype) then
      Ok(JumpOpcode(word, r.rtype) + JumpField(word, base))
    else if r.rtype == 5 then
      match if lo16.Some? then lo16 else r.addend
      case None => Err(UnresolvedLowHalf)
      case Some(low) =>
        Ok(HighWord(word, low, base))
    else Err(UnsupportedType)
  }

  predicate SupportedType(t: int) {
    0 <= t <= 2 || 4 <= t <= 7 || t == 14 || t == 15
  }

  /** Success depends on the relocation alone, never on the word or the base. */
  lemma {:induction false} ApplyWordSucceedsIff(word: int, r: Relocation, base: int, lo16: Option<int>)
    ensures ApplyWord(word, r, base, lo16).Ok?
       <==> SupportedType(r.rtype) && (r.rtype == 5 ==> lo16.Some? || r.addend.Some?)
  {
  }

  /** The address an HI16/LO16 instruction pair builds: the AHL value. */
  function Ahl(hi: int, lo: int): int {
    hi % 0x1_0000 * 0x1_0000 + SignedLowHalf(lo)
  }

  ghost predicate Congruent32(a: int, b: int) {
    (a - b) % 0x1_0000_0000 == 0
  }

  /** Relocating both halves moves the address they build by exactly the base, modulo 2^32,
      and leaves both opcodes alone: the carry out of the low half is accounted for. */
  lemma {:induction false} HighLowPair(hi: int, lo: int, rHi: Relocation, rLo: Relocation, base: int, lo16: Option<int>)
    requires 0 <= hi < 0x1_0000_0000 && 0 <= lo < 0x1_0000_0000
    requires rHi.rtype == 5 && (rLo.rtype == 1 || rLo.rtype == 6)
    requires (if lo16.Some? then lo16 else rHi.addend) == Some(SignedLowHalf(lo))
    ensures var hi', lo' := ApplyWord(hi, rHi, base, lo16), ApplyWord(lo, rLo, base, None);
            && hi'.Ok? && lo'.Ok?
            && Congruent32(Ahl(hi'.value, lo'.value), Ahl(hi, lo) + base)
            && hi'.value / 0x1_0000 == hi / 0x1_0000 && lo'.value / 0x1_0000 == lo / 0x1_0000
  {
    hide Ahl, HighWord, LowWord, SignedLowHalf;
    PairWords(hi, lo, base % 0x1_0000_0000);
    var hi' := HighWord(hi, SignedLowHalf(lo), base % 0x1_0000_0000);
    var lo' := LowWord(lo, base % 0x1_0000_0000);
    CongruentTransitive(Ahl(hi', lo'), Ahl(hi, lo) + base % 0x1_0000_0000, Ahl(hi, lo) + base);
  }

  lemma {:induction false} PairWords(hi: int, lo: int, b: int)
    ensures var hi', lo' := HighWord(hi, SignedLowHalf(lo), b), LowWord(lo, b);
            && Congruent32(Ahl(hi', lo'), Ahl(hi, lo) + b)
            && hi' / 0x1_0000 == hi / 0x1_0000 && lo' / 0x1_0000 == lo / 0x1_0000
  {
    HighPart(hi, SignedLowHalf(lo), b);
    LowPart(lo, b);
    SignedOfLow(LowWord(lo, b), SignedLowHalf(lo) + b);
  }

  lemma {:induction false} HighPart(hi: int, low: int, b: int)
    ensures var hi' := HighWord(hi, low, b);
            && hi' / 0x1_0000 == hi / 0x1_0000
            && Congruent32(hi' % 0x1_0000 * 0x1_0000 + SignedLowHalf(low + b), hi % 0x1_0000 * 0x1_0000 + low + b)
  {
    var sum := hi % 0x1_0000 * 0x1_0000 + low + b;
    var address := sum % 0x1_0000_0000;
    var carried := if address % 0x1_0000 >= 0x8000 then (address + 0x1_0000) % 0x1_0000_0000 else address;
    SumKeepsLow(hi % 0x1_0000, low + b);
    CarriedHalves(address);
    ReplaceLow(hi, carried / 0x1_0000);
    SignedOfLow(address, low + b);
    CongruentTransitive(carried / 0x1_0000 * 0x1_0000 + SignedLowHalf(address), address, sum);
  }

  lemma LowPart(lo: int, b: int)
    ensures var lo' := LowWord(lo, b);
            && lo' / 0x1_0000 == lo / 0x1_0000
            && lo' % 0x1_0000 == (SignedLowHalf(lo) + b) % 0x1_0000
  {
    LowSum(lo, b);
    ReplaceLow(lo, (lo % 0x1_0000 + b) % 0x1_0000);
  }

  lemma SignedOfLow(a: int, b: int)
    requires a % 0x1_0000 == b % 0x1_0000
    ensures SignedLowHalf(a) == SignedLowHalf(b)
  {
  }

  lemma SumKeepsLow(a: int, b: int)
    ensures (a * 0x1_0000 + b) % 0x1_0000_0000 % 0x1_0000 == b % 0x1_0000
  {
    var sum := a * 0x1_0000 + b;
    var q := sum / 0x1_0000_0000;
    assert sum % 0x1_0000_0000 == b + 0x1_0000 * (a - 0x1_0000 * q);
  }

  lemma LowSum(lo: int, b: int)
    ensures (SignedLowHalf(lo) + b) % 0x1_0000 == (lo % 0x1_0000 + b) % 0x1_0000
  {
  }

  lemma ReplaceLow(word: int, x: int)
    requires 0 <= x < 0x1_0000
    ensures (word / 0x1_0000 * 0x1_0000 + x) % 0x1_0000 == x && (word / 0x1_0000 * 0x1_0000 + x) / 0x1_0000 == word / 0x1_0000
  {
  }

  lemma CongruentTransitive(a: int, b: int, c: int)
    requires Congruent32(a, b) && Congruent32(b, c)
    ensures Congruent32(a, c)
  {
  }

  /** Adding 2^16 when the low half is negative cancels its sign extension. */
  lemma CarriedHalves(address: int)
    requires 0 <= address < 0x1_0000_0000
    ensures var carried := if address % 0x1_0000 >= 0x8000 then (address + 0x1_0000) % 0x1_0000_0000 else address;
            && 0 <= carried / 0x1_0000 < 0x1_0000
            && Congruent32(carried / 0x1_0000 * 0x1_0000 + SignedLowHalf(address), address)
  {
  }

  /** A jump target moves, inside its 256 MB region, by the base rounded down to a word: by the base
      itself exactly when the base is a multiple of four.  The X forms force the opcode. */
  lemma {:induction false} JumpTargetMoves(word: int, r: Relocation, base: int)
    requires 0 <= word < 0x1_0000_0000 && JumpType(r.rtype)
    ensures var res := ApplyWord(word, r, base, None);
            && res.Ok?
            && (res.value % 0x400_0000 * 4 - (word % 0x400_0000 * 4 + base - base % 4)) % 0x1000_0000 == 0
            && ((res.value % 0x400_0000 * 4 - (word % 0x400_0000 * 4 + base)) % 0x1000_0000 == 0 <==> base % 4 == 0)
            && res.value / 0x400_0000 == if r.rtype == 4 then word / 0x400_0000
                                         else if r.rtype == 14 then 2 else 3
  {
    hide JumpField, JumpOpcode;
    var b := base % 0x1_0000_0000;
    OpcodeAndField(word, r.rtype, b);
    RoundedBase(word, base);
    FieldMoves(word, b - b % 4, base - base % 4);
    var moved := JumpField(word, b) * 4 - word % 0x400_0000 * 4;
    OffByRemainder(moved, base);
  }

  lemma OffByRemainder(moved: int, base: int)
    requires (moved - (base - base % 4)) % 0x1000_0000 == 0
    ensures (moved - base) % 0x1000_0000 == 0 <==> base % 4 == 0
  {
  }

  lemma OpcodeAndField(word: int, t: int, b: int)
    requires JumpType(t) && 0 <= word < 0x1_0000_0000
    ensures var res := JumpOpcode(word, t) + JumpField(word, b);
            && 0 <= res < 0x1_0000_0000
            && res % 0x400_0000 == JumpField(word, b)
            && res / 0x400_0000 == (if t == 4 then word / 0x400_0000 else if t == 14 then 2 else 3)
  {
  }

  lemma FieldMoves(word: int, b: int, base: int)
    requires b % 4 == 0 && (base - b) % 0x1_0000_0000 == 0
    ensures (JumpField(word, b) * 4 - (word % 0x400_0000 * 4 + base)) % 0x1000_0000 == 0
  {
    var sum := word % 0x400_0000 + b / 4;
    assert JumpField(word, b) * 4 == sum * 4 - sum / 0x400_0000 * 0x1000_0000;
  }

  /** Only the word part of the base matters to a jump. */
  lemma RoundedBase(word: int, base: int)
    ensures var b, down := base % 0x1_0000_0000, base - base % 4;
            && (b - b % 4) % 4 == 0 && (down - (b - b % 4)) % 0x1_0000_0000 == 0
            && JumpField(word, b) == JumpField(word, b - b % 4)
  {
    hide JumpField;
    var b, q := base % 0x1_0000_0000, base / 0x1_0000_0000;
    assert b == base - 4 * (0x4000_0000 * q);
    MultipleOf4Drops(base, 0x4000_0000 * q);
    assert base - base % 4 - (b - b % 4) == 0x1_0000_0000 * q;
    MultipleOf32Bits(q);
    SameField(word, b);
  }

  lemma MultipleOf4Drops(x: int, k: int)
    ensures (x - 4 * k) % 4 == x % 4
  {
  }

  lemma MultipleOf32Bits(q: int)
    ensures 0x1_0000_0000 * q % 0x1_0000_0000 == 0
  {
  }

  lemma SameField(word: int, b: int)
    ensures JumpField(word, b) == JumpField(word, b - b % 4) && (b - b % 4) % 4 == 0
  {
    assert (b - b % 4) / 4 == b / 4;
  }

  /** Every type but HI16: relocating twice equals relocating once by the sum of the bases, except
      that a jump drops each base's last two bits, so there it holds exactly when they do not carry.
      In particular a jump is restored by the opposite base exactly when the base is word-aligned. */
  lemma {:induction false} ApplyWordComposes(word: int, r: Relocation, base1: int, base2: int)
    requires 0 <= word < 0x1_0000_0000
    requires SupportedType(r.rtype) && r.rtype != 5
    ensures var once := ApplyWord(word, r, base1, None);
            && once.Ok?
            && (ApplyWord(once.value, r, base2, None) == ApplyWord(word, r, base1 + base2, None)
                <==> (JumpType(r.rtype) ==> base1 % 4 + base2 % 4 < 4))
  {
    hide ApplyWord;
    if JumpType(r.rtype) {
      JumpWordComposes(word, r, base1, base2);
    } else {
      OtherWordComposes(word, r, base1, base2);
    }
  }

  lemma {:induction false} JumpWordComposes(word: int, r: Relocation, base1: int, base2: int)
    requires 0 <= word < 0x1_0000_0000 && JumpType(r.rtype)
    ensures var once := ApplyWord(word, r, base1, None);
            && once.Ok?
            && (ApplyWord(once.value, r, base2, None) == ApplyWord(word, r, base1 + base2, None)
                <==> base1 % 4 + base2 % 4 < 4)
  {
    hide JumpField, JumpOpcode;
    var a, b, c := base1 % 0x1_0000_0000, base2 % 0x1_0000_0000, (base1 + base2) % 0x1_0000_0000;
    SumOfBases(base1, base2);
    SameLowBits(base1);
    SameLowBits(base2);
    ComposeJump(word, r.rtype, a, b, c);
  }

  lemma SameLowBits(base: int)
    ensures base % 0x1_0000_0000 % 4 == base % 4
  {
    var q := base / 0x1_0000_0000;
    assert base % 0x1_0000_0000 == base - 4 * (0x4000_0000 * q);
    MultipleOf4Drops(base, 0x4000_0000 * q);
  }

  lemma {:induction false} OtherWordComposes(word: int, r: Relocation, base1: int, base2: int)
    requires 0 <= word < 0x1_0000_0000 && SupportedType(r.rtype) && r.rtype != 5 && !JumpType(r.rtype)
    ensures var once := ApplyWord(word, r, base1, None);
            && once.Ok?
            && ApplyWord(once.value, r, base2, None) == ApplyWord(word, r, base1 + base2, None)
  {
    if r.rtype == 1 || r.rtype == 6 {
      LowWordComposes(word, r, base1, base2);
    } else if r.rtype == 2 {
      WholeWordComposes(word, r, base1, base2);
    }
  }

  lemma {:induction false} LowWordComposes(word: int, r: Relocation, base1: int, base2: int)
    requires 0 <= word < 0x1_0000_0000 && (r.rtype == 1 || r.rtype == 6)
    ensures var once := ApplyWord(word, r, base1, None);
            && once.Ok?
            && ApplyWord(once.value, r, base2, None) == ApplyWord(word, r, base1 + base2, None)
  {
    hide LowWord, HighWord, JumpField, JumpOpcode;
    SumOfBases(base1, base2);
    ComposeLow(word, base1 % 0x1_0000_0000, base2 % 0x1_0000_0000, (base1 + base2) % 0x1_0000_0000);
  }

  lemma {:induction false} WholeWordComposes(word: int, r: Relocation, base1: int, base2: int)
    requires 0 <= word < 0x1_0000_0000 && r.rtype == 2
    ensures var once := ApplyWord(word, r, base1, None);
            && once.Ok?
            && ApplyWord(once.value, r, base2, None) == ApplyWord(word, r, base1 + base2, None)
  {
    hide ApplyWord;
    var a, b, c := base1 % 0x1_0000_0000, base2 % 0x1_0000_0000, (base1 + base2) % 0x1_0000_0000;
    SumOfBases(base1, base2);
    WholeWord(word, r, base1);
    WholeWord((word + a) % 0x1_0000_0000, r, base2);
    WholeWord(word, r, base1 + base2);
    ComposeWord(word, a, b, c);
  }

  lemma {:induction false} WholeWord(word: int, r: Relocation, base: int)
    requires 0 <= word < 0x1_0000_0000 && r.rtype == 2
    ensures ApplyWord(word, r, base, None) == Ok((word + base % 0x1_0000_0000) % 0x1_0000_0000)
  {
  }

  lemma ComposeWord(word: int, a: int, b: int, c: int)
    requires c == a + b || c == a + b - 0x1_0000_0000
    ensures ((word + a) % 0x1_0000_0000 + b) % 0x1_0000_0000 == (word + c) % 0x1_0000_0000
  {
  }

  lemma SumOfBases(x: int, y: int)
    ensures var a, b, c := x % 0x1_0000_0000, y % 0x1_0000_0000, (x + y) % 0x1_0000_0000;
            c == a + b || c == a + b - 0x1_0000_0000
  {
  }

  lemma ComposeLow(word: int, a: int, b: int, c: int)
    requires 0 <= word < 0x1_0000_0000
    requires c == a + b || c == a + b - 0x1_0000_0000
    ensures 0 <= LowWord(word, a) < 0x1_0000_0000
    ensures LowWord(LowWord(word, a), b) == LowWord(word, c)
  {
    ReplaceLow(word, (word % 0x1_0000 + a) % 0x1_0000);
    assert ((word % 0x1_0000 + a) % 0x1_0000 + b) % 0x1_0000 == (word % 0x1_0000 + c) % 0x1_0000;
  }

  lemma ComposeJump(word: int, t: int, a: int, b: int, c: int)
    requires JumpType(t) && 0 <= word < 0x1_0000_0000
    requires c == a + b || c == a + b - 0x1_0000_0000
    ensures var once := JumpOpcode(word, t) + JumpField(word, a);
            && 0 <= once < 0x1_0000_0000
            && JumpOpcode(once, t) == JumpOpcode(word, t)
            && (JumpField(once, b) == JumpField(word, c) <==> a % 4 + b % 4 < 4)
  {
    OpcodeAndField(word, t, a);
    QuarterSum(a, b, c);
    FieldSum(word % 0x400_0000, a / 4, b / 4, c / 4, if a % 4 + b % 4 < 4 then 0 else 1);
  }

  lemma QuarterSum(a: int, b: int, c: int)
    requires c == a + b || c == a + b - 0x1_0000_0000
    ensures (c / 4 - a / 4 - b / 4 - if a % 4 + b % 4 < 4 then 0 else 1) % 0x400_0000 == 0
  {
    var carry := if a % 4 + b % 4 < 4 then 0 else 1;
    assert (a + b) / 4 == a / 4 + b / 4 + carry;
    assert c / 4 == (a + b) / 4 || c / 4 == (a + b) / 4 - 0x4000_0000;
  }

  lemma FieldSum(x: int, a: int, b: int, c: int, carry: int)
    requires (c - a - b - carry) % 0x400_0000 == 0 && 0 <= carry <= 1
    ensures ((x + a) % 0x400_0000 + b) % 0x400_0000 == (x + c) % 0x400_0000 <==> carry == 0
  {
  }

  // ---- Each relocation type by what it does to a word ----

  datatype MipsType =
    | Nothing | Half16 | Word32 | Jump26 | High16 | Low16 | GpRelative | ForcedJ | ForcedJal
  {
    /** The ELF number: R_MIPS_NONE, 16, 32, 26, HI16, LO16, GPREL16, X_J26, X_JAL26. */
    function Number(): int {
      match this
      case Nothing => 0
      case Half16 => 1
      case Word32 => 2
      case Jump26 => 4
      case High16 => 5
      case Low16 => 6
      case GpRelative => 7
      case ForcedJ => 14
      case ForcedJal => 15
    }
  }

  /** `after` is a 32-bit word that differs from `before` as a relocation of type `t` by `base` makes
      it; `low` is the low half that an HI16 completes. */
  ghost predicate Moved(t: MipsType, before: int, after: int, base: int, low: int) {
    && 0 <= after < 0x1_0000_0000
    && match t
       case Nothing => after == before
       case GpRelative => after == before
       case Word32 => (after - (before + base)) % 0x1_0000_0000 == 0
       case Half16 => after / 0x1_0000 == before / 0x1_0000 && (after - (before + base)) % 0x1_0000 == 0
       case Low16 => after / 0x1_0000 == before / 0x1_0000 && (after - (before + base)) % 0x1_0000 == 0
       case Jump26 => after / 0x400_0000 == before / 0x400_0000 && TargetMoved(before, after, base)
       case ForcedJ => after / 0x400_0000 == 2 && TargetMoved(before, after, base)
       case ForcedJal => after / 0x400_0000 == 3 && TargetMoved(before, after, base)
       case High16 =>
         && after / 0x1_0000 == before / 0x1_0000
         && (after % 0x1_0000 * 0x1_0000 + Signed16(low + base)
             - (before % 0x1_0000 * 0x1_0000 + low + base)) % 0x1_0000_0000 == 0
  }

  /** The 26-bit word index a jump holds moves, in its 256 MB region, by the words of the base. */
  ghost predicate TargetMoved(before: int, after: int, base: int) {
    (after % 0x400_0000 * 4 - (before % 0x400_0000 * 4 + base - base % 4)) % 0x1000_0000 == 0
  }

  /** The value congruent to `x` modulo 2^16 that a signed 16-bit immediate holds. */
  ghost function Signed16(x: int): int {
    (x + 0x8000) % 0x1_0000 - 0x8000
  }

  /** The type alone decides what is written: `after` is written exactly when the word moved so. */
  lemma ApplyWordIff(t: MipsType, word: int, r: Relocation, base: int, lo16: Option<int>, after: int)
    requires 0 <= word < 0x1_0000_0000 && r.rtype == t.Number()
    requires t == High16 ==> lo16.Some? || r.addend.Some?
    ensures var low := if lo16.Some? then lo16.value else if r.addend.Some? then r.addend.value else 0;
            ApplyWord(word, r, base, lo16) == Ok(after) <==> Moved(t, word, after, base, low)
  {
    var low := if lo16.Some? then lo16.value else if r.addend.Some? then r.addend.value else 0;
    ApplyWordMoves(t, word, r, base, lo16, low);
    hide ApplyWord, Moved;
    if Moved(t, word, after, base, low) {
      MovedOnce(t, word, after, ApplyWord(word, r, base, lo16).value, base, low);
    }
  }

  lemma ApplyWordMoves(t: MipsType, word: int, r: Relocation, base: int, lo16: Option<int>, low: int)
    requires 0 <= word < 0x1_0000_0000 && r.rtype == t.Number()
    requires t == High16 ==> (if lo16.Some? then lo16 else r.addend) == Some(low)
    ensures ApplyWord(word, r, base, lo16).Ok? && Moved(t, word, ApplyWord(word, r, base, lo16).value, base, low)
  {
    hide HighWord, LowWord, JumpField, JumpOpcode, TargetMoved, Signed16;
    match t {
      case Nothing | GpRelative =>
      case Word32 => SumMoves(word, base);
      case Half16 | Low16 => LowMoves(word, base);
      case Jump26 | ForcedJ | ForcedJal => JumpMoves(word, r, base);
      case High16 => HighMoves(word, low, base);
    }
  }

  lemma SumMoves(word: int, base: int)
    ensures ((word + base % 0x1_0000_0000) % 0x1_0000_0000 - (word + base)) % 0x1_0000_0000 == 0
  {
  }

  lemma LowMoves(word: int, base: int)
    requires 0 <= word < 0x1_0000_0000
    ensures var after := LowWord(word, base % 0x1_0000_0000);
            && 0 <= after < 0x1_0000_0000 && after / 0x1_0000 == word / 0x1_0000
            && (after - (word + base)) % 0x1_0000 == 0
  {
    var b := base % 0x1_0000_0000;
    ReplaceLow(word, (word % 0x1_0000 + b) % 0x1_0000);
    assert b == base - 0x1_0000 * (0x1_0000 * (base / 0x1_0000_0000));
    LowDifference(word, b, base, 0x1_0000 * (base / 0x1_0000_0000));
  }

  lemma LowDifference(word: int, b: int, base: int, q: int)
    requires b == base - 0x1_0000 * q
    ensures (word / 0x1_0000 * 0x1_0000 + (word % 0x1_0000 + b) % 0x1_0000 - (word + base)) % 0x1_0000 == 0
  {
  }

  lemma JumpMoves(word: int, r: Relocation, base: int)
    requires 0 <= word < 0x1_0000_0000 && JumpType(r.rtype)
    ensures var res := ApplyWord(word, r, base, None);
            && res.Ok? && 0 <= res.value < 0x1_0000_0000 && TargetMoved(word, res.value, base)
            && res.value / 0x400_0000 == (if r.rtype == 4 then word / 0x400_0000 else if r.rtype == 14 then 2 else 3)
            && forall lo16 :: ApplyWord(word, r, base, lo16) == res
  {
    hide ApplyWord;
    JumpTargetMoves(word, r, base);
    JumpBounded(word, r, base);
  }

  lemma JumpBounded(word: int, r: Relocation, base: int)
    requires 0 <= word < 0x1_0000_0000 && JumpType(r.rtype)
    ensures var res := ApplyWord(word, r, base, None);
            && res.Ok? && 0 <= res.value < 0x1_0000_0000 && forall lo16 :: ApplyWord(word, r, base, lo16) == res
  {
    hide JumpField, JumpOpcode;
    OpcodeAndField(word, r.rtype, base % 0x1_0000_0000);
  }

  lemma HighMoves(word: int, low: int, base: int)
    requires 0 <= word < 0x1_0000_0000
    ensures var after := HighWord(word, low, base % 0x1_0000_0000);
            && 0 <= after < 0x1_0000_0000 && after / 0x1_0000 == word / 0x1_0000
            && (after % 0x1_0000 * 0x1_0000 + Signed16(low + base)
                - (word % 0x1_0000 * 0x1_0000 + low + base)) % 0x1_0000_0000 == 0
  {
    hide HighWord;
    var b := base % 0x1_0000_0000;
    HighPart(word, low, b);
    var after := HighWord(word, low, b);
    var q := base / 0x1_0000_0000;
    assert low + b == low + base - 0x1_0000 * (0x1_0000 * q);
    SignedForms(low + b, low + base, 0x1_0000 * q);
    WholeTurns(after % 0x1_0000 * 0x1_0000 + Signed16(low + base), word % 0x1_0000 * 0x1_0000 + low + base, q);
  }

  lemma SignedForms(x: int, y: int, q: int)
    requires x == y - 0x1_0000 * q
    ensures SignedLowHalf(x) == Signed16(y)
  {
  }

  lemma WholeTurns(x: int, y: int, q: int)
    ensures (x - (y - 0x1_0000_0000 * q)) % 0x1_0000_0000 == (x - y) % 0x1_0000_0000
  {
  }

  /** A word moves in one way only. */
  lemma MovedOnce(t: MipsType, before: int, x: int, y: int, base: int, low: int)
    requires Moved(t, before, x, base, low) && Moved(t, before, y, base, low)
    ensures x == y
  {
    hide TargetMoved, Signed16;
    match t {
      case Nothing | GpRelative =>
      case Word32 => SameRemainder(x, y, before + base);
      case Half16 | Low16 => SameLow(x, y, before + base);
      case Jump26 | ForcedJ | ForcedJal =>
        SameTarget(x, y, before, base);
      case High16 => SameHigh(x, y, Signed16(low + base), before % 0x1_0000 * 0x1_0000 + low + base);
    }
  }

  lemma SameRemainder(x: int, y: int, z: int)
    requires 0 <= x < 0x1_0000_0000 && 0 <= y < 0x1_0000_0000
    requires (x - z) % 0x1_0000_0000 == 0 && (y - z) % 0x1_0000_0000 == 0
    ensures x == y
  {
  }

  lemma SameLow(x: int, y: int, z: int)
    requires x / 0x1_0000 == y / 0x1_0000 && (x - z) % 0x1_0000 == 0 && (y - z) % 0x1_0000 == 0
    ensures x == y
  {
    assert x % 0x1_0000 == y % 0x1_0000;
  }

  lemma SameTarget(x: int, y: int, before: int, base: int)
    requires TargetMoved(before, x, base) && TargetMoved(before, y, base) && x / 0x400_0000 == y / 0x400_0000
    ensures x == y
  {
    var z := before % 0x400_0000 * 4 + base - base % 4;
    var a, b := x % 0x400_0000, y % 0x400_0000;
    assert (a * 4 - z) % 0x1000_0000 == 0 && (b * 4 - z) % 0x1000_0000 == 0;
    assert a == b;
  }

  lemma SameHigh(x: int, y: int, s: int, z: int)
    requires x / 0x1_0000 == y / 0x1_0000
    requires (x % 0x1_0000 * 0x1_0000 + s - z) % 0x1_0000_0000 == 0
    requires (y % 0x1_0000 * 0x1_0000 + s - z) % 0x1_0000_0000 == 0
    ensures x == y
  {
    var a, b := x % 0x1_0000, y % 0x1_0000;
    assert a == b;
  }

  /** Two words keep their upper halves, and the address they build as an HI16 and LO16 pair moves by `base`. */
  ghost predicate PairMoved(hi: int, lo: int, hi': int, lo': int, base: int) {
    && hi' / 0x1_0000 == hi / 0x1_0000 && lo' / 0x1_0000 == lo / 0x1_0000
    && (hi' % 0x1_0000 * 0x1_0000 + Signed16(lo') - (hi % 0x1_0000 * 0x1_0000 + Signed16(lo) + base))
       % 0x1_0000_0000 == 0
  }

  /** An HI16 that completes its companion's low half, and that companion, move as a pair. */
  lemma PairMoves(hi: int, lo: int, hi': int, lo': int, base: int, t: MipsType)
    requires t == Low16 || t == Half16
    requires Moved(High16, hi, hi', base, Signed16(lo)) && Moved(t, lo, lo', base, 0)
    ensures PairMoved(hi, lo, hi', lo', base)
  {
    SameImmediate(lo', Signed16(lo) + base, lo);
  }

  lemma SameImmediate(x: int, y: int, lo: int)
    requires (x - (lo + (y - Signed16(lo)))) % 0x1_0000 == 0
    ensures Signed16(x) == Signed16(y)
  {
  }
}
