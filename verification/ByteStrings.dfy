/** Byte strings and the fixed-width integers stored in them. */
module ByteStrings {
  import opened Bits

  type Byte = x: int | 0 <= x < 256
  type Bytes = seq<Byte>

  /** `int.from_bytes(s, "little")`. */
  function LE(s: Bytes): (v: nat) {
    if s == [] then 0 else s[0] + 256 * LE(s[1..])
  }

  /** `int.from_bytes(s, "big")`. */
  function BE(s: Bytes): nat {
    if s == [] then 0 else 256 * BE(s[..|s| - 1]) + s[|s| - 1]
  }

  function LEBytes(v: nat, n: nat): (s: Bytes)
    ensures |s| == n
  {
    if n == 0 then [] else [v % 256] + LEBytes(v / 256, n - 1)
  }

  function BEBytes(v: nat, n: nat): (s: Bytes)
    ensures |s| == n
  {
    if n == 0 then [] else BEBytes(v / 256, n - 1) + [v % 256]
  }

  function Repeat(b: Byte, n: nat): (s: Bytes)
    ensures |s| == n
    ensures forall i :: 0 <= i < n ==> s[i] == b
  {
    seq(n, _ => b)
  }

  /** The characters of an ASCII text as bytes. */
  function Ascii(text: string): (s: Bytes)
    ensures |s| == |text|
  {
    seq(|text|, i requires 0 <= i < |text| => text[i] as int % 256)
  }

  lemma {:induction false} LEBytesRoundTrip(v: nat, n: nat)
    requires v < Pow2(8 * n)
    ensures LE(LEBytes(v, n)) == v
  {
    if n > 0 {
      Pow2Byte(n - 1);
      LEBytesRoundTrip(v / 256, n - 1);
      assert LEBytes(v, n)[1..] == LEBytes(v / 256, n - 1);
    }
  }

  lemma {:induction false} LERoundTrip(s: Bytes)
    ensures LEBytes(LE(s), |s|) == s
    ensures LE(s) < Pow2(8 * |s|)
  {
    hide Pow2;
    if s != [] {
      Pow2Byte(|s| - 1);
      LERoundTrip(s[1..]);
      SplitByte(s[0], LE(s[1..]));
      assert s == [s[0]] + s[1..];
    } else {
      assert Pow2(0) >= 1;
    }
  }

  lemma SplitByte(b: Byte, rest: nat)
    ensures (b + 256 * rest) % 256 == b && (b + 256 * rest) / 256 == rest
  {
  }

  lemma {:induction false} BEBytesRoundTrip(v: nat, n: nat)
    requires v < Pow2(8 * n)
    ensures BE(BEBytes(v, n)) == v
  {
    if n > 0 {
      Pow2Byte(n - 1);
      BEBytesRoundTrip(v / 256, n - 1);
      assert BEBytes(v, n)[..n - 1] == BEBytes(v / 256, n - 1);
    }
  }

  lemma {:induction false} BERoundTrip(s: Bytes)
    ensures BEBytes(BE(s), |s|) == s
    ensures BE(s) < Pow2(8 * |s|)
  {
    hide Pow2;
    if s != [] {
      var front, last := s[..|s| - 1], s[|s| - 1];
      Pow2Byte(|s| - 1);
      BERoundTrip(front);
      SplitByte(last, BE(front));
      assert s == front + [last];
    } else {
      assert Pow2(0) >= 1;
    }
  }

  lemma {:induction false} Pow2Byte(n: nat)
    ensures Pow2(8 * (n + 1)) == 256 * Pow2(8 * n)
  {
    Pow2Plus4(8 * n);
    Pow2Plus4(8 * n + 4);
  }

  lemma Pow2Words()
    ensures Pow2(8) == 0x100 && Pow2(16) == 0x1_0000 && Pow2(32) == 0x1_0000_0000
    ensures Pow2(64) == 0x1_0000_0000_0000_0000
  {
    Pow2Values();
    Pow2Plus16(16);
    Pow2Plus16(32);
    Pow2Plus16(48);
  }

  /** `data` holds `bytes` at `pos`. */
  predicate StandsAt(data: Bytes, pos: int, bytes: Bytes) {
    0 <= pos && pos + |bytes| <= |data| && data[pos..pos + |bytes|] == bytes
  }

  lemma PartsStand(data: Bytes, pos: int, a: Bytes, b: Bytes)
    ensures StandsAt(data, pos, a + b) <==> StandsAt(data, pos, a) && StandsAt(data, pos + |a|, b)
  {
    if StandsAt(data, pos, a + b) {
      assert (a + b)[..|a|] == a && (a + b)[|a|..] == b;
      assert data[pos..pos + |a|] == data[pos..pos + |a + b|][..|a|];
      assert data[pos + |a|..pos + |a| + |b|] == data[pos..pos + |a + b|][|a|..];
    }
    if StandsAt(data, pos, a) && StandsAt(data, pos + |a|, b) {
      assert data[pos..pos + |a + b|] == data[pos..pos + |a|] + data[pos + |a|..pos + |a| + |b|];
    }
  }

  lemma WholeStands(data: Bytes)
    ensures StandsAt(data, 0, data)
  {
  }

  lemma SliceStands(data: Bytes, from: int, to: int)
    requires 0 <= from <= to <= |data|
    ensures StandsAt(data, from, data[from..to])
  {
  }

  lemma Stood(data: Bytes, pos: int, bytes: Bytes)
    requires StandsAt(data, pos, bytes)
    ensures 0 <= pos && pos + |bytes| <= |data| && data[pos..pos + |bytes|] == bytes
  {
  }

  lemma NothingStands(data: Bytes, pos: int)
    requires 0 <= pos <= |data|
    ensures StandsAt(data, pos, [])
  {
  }

  lemma SliceOfSlice(data: Bytes, a: int, b: int, c: int, d: int)
    requires 0 <= a <= c <= d <= b <= |data|
    ensures data[a..b][c - a..d - a] == data[c..d]
  {
    var x, y := data[a..b][c - a..d - a], data[c..d];
    assert |x| == |y| && forall i :: 0 <= i < |y| ==> x[i] == y[i];
  }
}
