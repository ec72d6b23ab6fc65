/** Byte strings, fixed-width integers and padding, as `struct`, `int.to_bytes` and the C readers use them. */
module ByteStrings {
  type Byte = x: int | 0 <= x < 256

  const TWO32: nat := 0x1_0000_0000
  const TWO64: nat := 0x1_0000_0000_0000_0000

  function Pow256(w: nat): (p: nat)
    ensures p > 0
  {
    if w == 0 then 1 else 256 * Pow256(w - 1)
  }

  lemma Pow256Values()
    ensures Pow256(4) == TWO32
    ensures Pow256(8) == TWO64
  {
    assert Pow256(2) == 65536;
    assert Pow256(4) == 65536 * Pow256(2);
    assert Pow256(6) == 65536 * Pow256(4);
  }

  /** The low `w` bytes of `n`, most significant first. */
  function ToBE(n: nat, w: nat): (s: seq<Byte>)
    ensures |s| == w
  {
    if w == 0 then [] else ToBE(n / 256, w - 1) + [n % 256]
  }

  function FromBE(s: seq<Byte>): nat {
    if |s| == 0 then 0 else FromBE(s[..|s| - 1]) * 256 + s[|s| - 1]
  }

  /** The low `w` bytes of `n`, least significant first. */
  function ToLE(n: nat, w: nat): (s: seq<Byte>)
    ensures |s| == w
  {
    if w == 0 then [] else [n % 256] + ToLE(n / 256, w - 1)
  }

  function FromLE(s: seq<Byte>): nat {
    if |s| == 0 then 0 else s[0] + 256 * FromLE(s[1..])
  }

  lemma {:induction false} BERoundTrip(n: nat, w: nat)
    requires n < Pow256(w)
    ensures FromBE(ToBE(n, w)) == n
  {
    if w > 0 {
      BERoundTrip(n / 256, w - 1);
      assert ToBE(n, w)[..w - 1] == ToBE(n / 256, w - 1);
    }
  }

  lemma {:induction false} BERange(s: seq<Byte>)
    ensures FromBE(s) < Pow256(|s|)
  {
    if |s| > 0 {
      BERange(s[..|s| - 1]);
    }
  }

  lemma {:induction false} BEInverse(s: seq<Byte>)
    ensures ToBE(FromBE(s), |s|) == s
  {
    if |s| > 0 {
      BEInverse(s[..|s| - 1]);
      DivMod256(s[|s| - 1], FromBE(s[..|s| - 1]));
    }
  }

  lemma {:induction false} LERoundTrip(n: nat, w: nat)
    requires n < Pow256(w)
    ensures FromLE(ToLE(n, w)) == n
  {
    if w > 0 {
      LERoundTrip(n / 256, w - 1);
      assert ToLE(n, w)[1..] == ToLE(n / 256, w - 1);
    }
  }

  lemma {:induction false} LERange(s: seq<Byte>)
    ensures FromLE(s) < Pow256(|s|)
  {
    if |s| > 0 {
      LERange(s[1..]);
    }
  }

  lemma DivMod256(low: Byte, high: nat)
    ensures (low + 256 * high) % 256 == low && (low + 256 * high) / 256 == high
  {}

  lemma {:induction false} LEInverse(s: seq<Byte>)
    ensures ToLE(FromLE(s), |s|) == s
  {
    if |s| > 0 {
      LEInverse(s[1..]);
      DivMod256(s[0], FromLE(s[1..]));
    }
  }

  function U32At(s: seq<Byte>, i: nat): (n: nat)
    requires i + 4 <= |s|
    ensures n < TWO32
  {
    BERange(s[i..i + 4]);
    Pow256Values();
    FromBE(s[i..i + 4])
  }

  function U64At(s: seq<Byte>, i: nat): (n: nat)
    requires i + 8 <= |s|
    ensures n < TWO64
  {
    BERange(s[i..i + 8]);
    Pow256Values();
    FromBE(s[i..i + 8])
  }

  function BE32(n: nat): (s: seq<Byte>)
    requires n < TWO32
    ensures |s| == 4 && FromBE(s) == n
  {
    Pow256Values();
    BERoundTrip(n, 4);
    ToBE(n, 4)
  }

  function BE64(n: nat): (s: seq<Byte>)
    requires n < TWO64
    ensures |s| == 8 && FromBE(s) == n
  {
    Pow256Values();
    BERoundTrip(n, 8);
    ToBE(n, 8)
  }

  function LE32(n: nat): (s: seq<Byte>)
    requires n < TWO32
    ensures |s| == 4 && FromLE(s) == n
  {
    Pow256Values();
    LERoundTrip(n, 4);
    ToLE(n, 4)
  }

  function LE64(n: nat): (s: seq<Byte>)
    requires n < TWO64
    ensures |s| == 8 && FromLE(s) == n
  {
    Pow256Values();
    LERoundTrip(n, 8);
    ToLE(n, 8)
  }

  /** Four bytes are the encoding of what they decode to. */
  lemma LE32Of(s: seq<Byte>)
    requires |s| == 4
    ensures FromLE(s) < TWO32 && LE32(FromLE(s)) == s
  {
    Pow256Values();
    LERange(s);
    LEInverse(s);
    hide FromLE, ToLE, Pow256;
  }

  lemma LE64Of(s: seq<Byte>)
    requires |s| == 8
    ensures FromLE(s) < TWO64 && LE64(FromLE(s)) == s
  {
    Pow256Values();
    LERange(s);
    LEInverse(s);
    hide FromLE, ToLE, Pow256;
  }

  lemma BE32Of(s: seq<Byte>)
    requires |s| == 4
    ensures FromBE(s) < TWO32 && BE32(FromBE(s)) == s
  {
    Pow256Values();
    BERange(s);
    BEInverse(s);
    hide FromBE, ToBE, Pow256;
  }

  /** `struct.pack_into`: overwrite `|t|` bytes at `i`. */
  function PackInto(s: seq<Byte>, i: nat, t: seq<Byte>): (r: seq<Byte>)
    requires i + |t| <= |s|
    ensures |r| == |s|
    ensures r[i..i + |t|] == t
    ensures r[..i] == s[..i] && r[i + |t|..] == s[i + |t|..]
  {
    s[..i] + t + s[i + |t|..]
  }

  /** Strings that agree on a window agree on every part of it. */
  lemma Window(a: seq<Byte>, b: seq<Byte>, i: nat, j: nat, lo: nat, hi: nat)
    requires i <= lo <= hi <= j <= |a| && j <= |b|
    requires a[i..j] == b[i..j]
    ensures a[lo..hi] == b[lo..hi]
  {
    forall k | lo <= k < hi
      ensures a[k] == b[k]
    {
      assert a[i..j][k - i] == b[i..j][k - i];
    }
  }

  lemma SliceOfSlice(s: seq<Byte>, start: nat, end: nat, lo: nat, hi: nat)
    requires start <= end <= |s| && lo <= hi <= end - start
    ensures s[start..end][lo..hi] == s[start + lo..start + hi]
  {
    var t := s[start..end];
    forall k | lo <= k < hi
      ensures t[k] == s[start + k]
    {}
  }

  /** Patching leaves every byte outside the patch alone. */
  lemma PackIntoElsewhere(s: seq<Byte>, i: nat, t: seq<Byte>)
    requires i + |t| <= |s|
    ensures forall k :: 0 <= k < |s| && !(i <= k < i + |t|) ==> PackInto(s, i, t)[k] == s[k]
  {}

  /** Two fields patched into a string of five parts. */
  lemma PackTwoFields(a: seq<Byte>, b: seq<Byte>, c: seq<Byte>, d: seq<Byte>, e: seq<Byte>, t: seq<Byte>, u: seq<Byte>)
    requires |b| == |t| && |d| == |u|
    ensures PackInto(PackInto(a + b + c + d + e, |a|, t), |a| + |b| + |c|, u) == a + t + c + u + e
  {
    var s := a + b + c + d + e;
    assert s[..|a|] == a && s[|a| + |t|..] == c + d + e;
    var s' := PackInto(s, |a|, t);
    assert s' == a + t + c + d + e;
    assert s'[..|a| + |b| + |c|] == a + t + c && s'[|a| + |b| + |c| + |d|..] == e;
  }

  function Zeros(n: nat): (s: seq<Byte>)
    ensures |s| == n && AllZero(s)
  {
    seq(n, _ => 0)
  }

  predicate AllZero(s: seq<Byte>) {
    forall i :: 0 <= i < |s| ==> s[i] == 0
  }

  lemma AllZeroAt(s: seq<Byte>, lo: nat, hi: nat)
    requires lo <= hi <= |s| && AllZero(s[lo..hi])
    ensures forall i :: lo <= i < hi ==> s[i] == 0
  {
    var part := s[lo..hi];
    forall i | lo <= i < hi
      ensures s[i] == 0
    {
      assert part[i - lo] == s[i];
    }
  }

  // How many zero bytes take a length to the next multiple of 4, 8 or 64 (Python's `-n % m`).
  function Pad4(n: nat): (p: nat)
    ensures p < 4 && (n + p) % 4 == 0
  {
    var r := n % 4;
    if r == 0 then 0 else 4 - r
  }

  function Pad8(n: nat): (p: nat)
    ensures p < 8 && (n + p) % 8 == 0
  {
    var r := n % 8;
    if r == 0 then 0 else 8 - r
  }

  function Pad64(n: nat): (p: nat)
    ensures p < 64 && (n + p) % 64 == 0
  {
    var r := n % 64;
    if r == 0 then 0 else 64 - r
  }

  /** The bytes of an ASCII literal. */
  function Ascii(s: string): (b: seq<Byte>)
    ensures |b| == |s|
  {
    seq(|s|, i requires 0 <= i < |s| => (s[i] as int) % 128)
  }
}
