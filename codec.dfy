/** The integer/byte helpers `int2bytes` and `bytes2int` and the decimal text the decoder builds with
    `'{0:0>Nd}'.format`. Bytes are big-endian everywhere in the DG-200 protocol. */
module Codec {
  import opened Base
  import opened Arith

  function Pow256(k: nat): (r: nat)
    ensures r > 0
  {
    if k == 0 then 1 else 256 * Pow256(k - 1)
  }

  function Pow16(k: nat): (r: nat)
    ensures r > 0
  {
    if k == 0 then 1 else 16 * Pow16(k - 1)
  }

  function Pow10(k: nat): (r: nat)
    ensures r > 0
  {
    if k == 0 then 1 else 10 * Pow10(k - 1)
  }

  /** The number a big-endian byte string denotes. */
  function BigEndian(s: seq<byte>): (n: nat)
    ensures n < Pow256(|s|)
  {
    if s == [] then 0 else BigEndian(s[..|s| - 1]) * 256 + s[|s| - 1]
  }

  /** The `k` low-order bytes of `n`, most significant first. */
  function ToBigEndian(n: nat, k: nat): (r: seq<byte>)
    ensures |r| == k
  {
    if k == 0 then [] else ToBigEndian(n / 256, k - 1) + [n % 256]
  }

  lemma {:induction false} BigEndianOfToBigEndian(n: nat, k: nat)
    requires n < Pow256(k)
    ensures BigEndian(ToBigEndian(n, k)) == n
  {
    if k > 0 {
      var hi := n / 256;
      DivBelow(n, 256, Pow256(k - 1));
      BigEndianOfToBigEndian(hi, k - 1);
      BigEndianSnoc(ToBigEndian(hi, k - 1), n % 256);
    }
  }

  lemma BigEndianSnoc(s: seq<byte>, b: byte)
    ensures BigEndian(s + [b]) == BigEndian(s) * 256 + b
  {
    assert (s + [b])[..|s|] == s;
  }

  /** The two bytes of a 16-bit field: high byte first. */
  lemma ToBigEndianPair(n: nat)
    requires n < 0x10000
    ensures ToBigEndian(n, 2)[0] == n / 256 && ToBigEndian(n, 2)[1] == n % 256
  {
    assert ToBigEndian(n, 2) == ToBigEndian(n / 256, 1) + [n % 256];
    assert ToBigEndian(n / 256, 1) == [] + [(n / 256) % 256];
  }

  lemma {:induction false} ToBigEndianOfBigEndian(s: seq<byte>)
    ensures ToBigEndian(BigEndian(s), |s|) == s
  {
    if s != [] {
      var n := BigEndian(s);
      var init := s[..|s| - 1];
      assert n / 256 == BigEndian(init) && n % 256 == s[|s| - 1];
      ToBigEndianOfBigEndian(init);
    }
  }

  /** Number of characters `'{0:X}'.format(n)` prints. */
  function HexDigits(n: nat): (d: nat)
    ensures d >= 1
  {
    if n < 16 then 1 else 1 + HexDigits(n / 16)
  }

  lemma {:induction false} Pow256IsPow16(k: nat)
    ensures Pow256(k) == Pow16(2 * k)
  {
    if k > 0 {
      Pow256IsPow16(k - 1);
      assert Pow16(2 * k) == 16 * (16 * Pow16(2 * (k - 1)));
    }
  }

  lemma {:induction false} HexDigitsAtMost(n: nat, w: nat)
    requires w >= 1 && n < Pow16(w)
    ensures HexDigits(n) <= w
  {
    if n >= 16 {
      assert Pow16(1) == 16;
      assert w >= 2;
      assert n / 16 < Pow16(w - 1);
      HexDigitsAtMost(n / 16, w - 1);
    }
  }

  lemma {:induction false} HexDigitsLeading(n: nat)
    ensures Pow16(HexDigits(n) - 1) <= n || n == 0
    ensures n < Pow16(HexDigits(n))
  {
    if n >= 16 {
      HexDigitsLeading(n / 16);
    }
  }

  /** `int2bytes(number, nbBytes)`: None for a negative number; otherwise the number is printed in
      upper-case hex padded to at least 2*nbBytes digits and the FIRST 2*nbBytes digits are cut into
      bytes. A number too large for `width` bytes therefore keeps its leading digits, not its low bytes. */
  function Int2Bytes(number: int, width: nat): (r: Option<seq<byte>>)
    ensures r.None? <==> number < 0
    ensures r.Some? ==> |r.value| == width
  {
    if number < 0 then None
    else
      var printed := if HexDigits(number) > 2 * width then HexDigits(number) else 2 * width;
      Some(ToBigEndian(LeadingPart(number, Pow16(printed - 2 * width)), width))
  }

  /** `n` with its low-order digits (a factor `unit`) cut off. */
  function LeadingPart(n: nat, unit: nat): nat
    requires unit > 0
  {
    n / unit
  }

  /** `bytes2int(bytes)`: the big-endian value; Python raises on the empty list (`int('', 16)`). */
  function Bytes2Int(bytes: seq<byte>): (r: Option<nat>)
    ensures r.None? <==> bytes == []
    ensures r.Some? ==> r.value < Pow256(|bytes|) && ToBigEndian(r.value, |bytes|) == bytes
  {
    if bytes == [] then None
    else
      ToBigEndianOfBigEndian(bytes);
      Some(BigEndian(bytes))
  }

  /** `bytes2int(int2bytes(n, k)) == n` for every n that fits in k bytes. */
  lemma {:induction false} Int2BytesRoundTrip(n: int, k: nat)
    requires 0 <= n < Pow256(k) && k > 0
    ensures Int2Bytes(n, k) == Some(ToBigEndian(n, k))
    ensures Bytes2Int(Int2Bytes(n, k).value) == Some(n)
  {
    Pow256IsPow16(k);
    HexDigitsAtMost(n, 2 * k);
    assert LeadingPart(n, Pow16(0)) == n;
    BigEndianOfToBigEndian(n, k);
    ToBigEndianOfBigEndian(ToBigEndian(n, k));
  }

  /** For a number that does not fit, the bytes hold its leading 2k hex digits: a non-zero leading
      digit, followed by e >= 1 dropped digits. */
  lemma {:induction false} Int2BytesOverflow(n: int, k: nat)
    requires n >= Pow256(k) && k > 0
    ensures HexDigits(n) > 2 * k
    ensures var v, e := BigEndian(Int2Bytes(n, k).value), HexDigits(n) - 2 * k;
      v * Pow16(e) <= n < (v + 1) * Pow16(e) && Pow16(2 * k - 1) <= v
  {
    Pow256IsPow16(k);
    HexDigitsLeading(n);
    var d := HexDigits(n);
    assert d > 2 * k by {
      if d <= 2 * k {
        Pow16Monotone(d, 2 * k);
      }
    }
    var e: nat := d - 2 * k;
    var p := Pow16(e);
    var v := LeadingPart(n, p);
    assert Int2Bytes(n, k) == Some(ToBigEndian(v, k));
    assert v < Pow256(k) by {
      Pow16Add(2 * k, e);
      DivBelow(n, p, Pow16(2 * k));
    }
    BigEndianOfToBigEndian(v, k);
    assert Pow16(2 * k - 1) <= v by {
      Pow16Add(2 * k - 1, e);
      assert Pow16(d - 1) == Pow16(2 * k - 1) * p;
      DivAtLeast(n, p, Pow16(2 * k - 1));
    }
    LeadingPartBounds(n, p);
  }

  lemma LeadingPartBounds(n: nat, p: nat)
    requires p > 0
    ensures LeadingPart(n, p) * p <= n < (LeadingPart(n, p) + 1) * p
  {
    var v := n / p;
    assert n == v * p + n % p;
    assert (v + 1) * p == v * p + p;
  }

  lemma {:induction false} Pow16Monotone(a: nat, b: nat)
    requires a <= b
    ensures Pow16(a) <= Pow16(b)
  {
    if a < b {
      Pow16Monotone(a, b - 1);
    }
  }

  lemma {:induction false} Pow16Add(a: nat, b: nat)
    ensures Pow16(a + b) == Pow16(a) * Pow16(b)
  {
    if a > 0 {
      Pow16Add(a - 1, b);
    }
  }

  // ---- decimal text -------------------------------------------------------------------------

  function DigitChar(d: nat): char
    requires d < 10
  {
    "0123456789"[d]
  }

  /** `str(n)` for a natural number. */
  function Decimal(n: nat): (s: string)
    ensures |s| >= 1
  {
    if n < 10 then [DigitChar(n)] else Decimal(n / 10) + [DigitChar(n % 10)]
  }

  function Zeros(k: nat): (s: string)
    ensures |s| == k && forall i :: 0 <= i < k ==> s[i] == '0'
  {
    seq(k, _ => '0')
  }

  /** `'{0:0>wd}'.format(n)`: decimal text left-padded with zeros to at least `w` characters. */
  function PadDecimal(n: nat, w: nat): (s: string)
    ensures |s| >= w
  {
    var d := Decimal(n);
    if |d| >= w then d else Zeros(w - |d|) + d
  }

  /** The `w` low-order decimal digits of `n`, most significant first. */
  function FixedDigits(n: nat, w: nat): (s: string)
    ensures |s| == w
  {
    if w == 0 then [] else FixedDigits(n / 10, w - 1) + [DigitChar(n % 10)]
  }

  lemma {:induction false} FixedDigitsOfZero(w: nat)
    ensures FixedDigits(0, w) == Zeros(w)
  {
    if w > 0 {
      FixedDigitsOfZero(w - 1);
      assert Zeros(w) == Zeros(w - 1) + ['0'];
    }
  }

  lemma {:induction false} DecimalLength(n: nat, w: nat)
    requires w >= 1 && n < Pow10(w)
    ensures |Decimal(n)| <= w
  {
    if n >= 10 {
      assert Pow10(1) == 10;
      assert w >= 2;
      DecimalLength(n / 10, w - 1);
    }
  }

  /** Padding a number of two or more digits pads all but its last digit. */
  lemma PadDecimalSnoc(n: nat, w: nat)
    requires n >= 10 && w >= 1 && |Decimal(n)| <= w
    ensures PadDecimal(n, w) == PadDecimal(n / 10, w - 1) + [DigitChar(n % 10)]
  {
    var d := Decimal(n / 10);
    assert Decimal(n) == d + [DigitChar(n % 10)];
    Concat3(Zeros(w - 1 - |d|), d, [DigitChar(n % 10)]);
  }

  /** A number below 10^w is printed by `'{0:0>wd}'` as exactly its w low-order digits. */
  lemma {:induction false} PadDecimalIsFixed(n: nat, w: nat)
    requires w >= 1 && n < Pow10(w)
    ensures PadDecimal(n, w) == FixedDigits(n, w)
  {
    if n < 10 {
      FixedDigitsOfZero(w - 1);
      assert FixedDigits(n, w) == FixedDigits(0, w - 1) + [DigitChar(n)];
    } else {
      assert Pow10(1) == 10;
      assert w >= 2;
      DecimalLength(n, w);
      DivBelow(n, 10, Pow10(w - 1));
      PadDecimalIsFixed(n / 10, w - 1);
      PadDecimalSnoc(n, w);
    }
  }

  lemma MulPow10(q: nat, b: nat)
    requires b > 0
    ensures q * Pow10(b) == (q * Pow10(b - 1)) * 10
  {
  }

  /** The last of the `w` digits of `m * 10 + d` is `d`. */
  lemma FixedDigitsStep(n: nat, m: nat, d: nat, w: nat)
    requires w > 0 && d < 10 && n == m * 10 + d
    ensures FixedDigits(n, w) == FixedDigits(m, w - 1) + [DigitChar(d)]
  {
    DivUnique(n, 10, m, d);
  }

  /** Splitting the digit string: the first a digits above the last b digits. */
  lemma {:induction false} FixedDigitsSplit(n: nat, q: nat, r: nat, a: nat, b: nat)
    requires r < Pow10(b) && n == q * Pow10(b) + r
    ensures FixedDigits(n, a + b) == FixedDigits(q, a) + FixedDigits(r, b)
  {
    if b > 0 {
      var qp := q * Pow10(b - 1);
      var hi, lo := r / 10, r % 10;
      MulPow10(q, b);
      Split(r, 10);
      DivBelow(r, 10, Pow10(b - 1));
      FixedDigitsSplit(qp + hi, q, hi, a, b - 1);
      FixedDigitsStep(n, qp + hi, lo, a + b);
      FixedDigitsStep(r, hi, lo, b);
      var w := a + b - 1;
      assert FixedDigits(qp + hi, w) == FixedDigits(q, a) + FixedDigits(hi, b - 1);
      Concat3(FixedDigits(q, a), FixedDigits(hi, b - 1), [DigitChar(lo)]);
    } else {
      assert n == q;
    }
  }

  /** Two low digits split off a decimal string. */
  lemma FixedDigitsSplitPair(n: nat, q: nat, r: nat, w: nat)
    requires r < 100 && n == q * 100 + r && w >= 2
    ensures FixedDigits(n, w) == FixedDigits(q, w - 2) + FixedDigits(r, 2)
  {
    assert Pow10(2) == 100;
    FixedDigitsSplit(n, q, r, w - 2, 2);
  }

  lemma Slices3<T>(x: seq<T>, y: seq<T>, z: seq<T>)
    requires |x| == 2 && |y| == 2 && |z| == 2
    ensures (x + y + z)[0..2] == x && (x + y + z)[2..4] == y && (x + y + z)[4..6] == z
  {
  }

  /** A six-digit field printed with `'{0:0>6d}'` and cut in three pairs, as timestamps and dates are. */
  lemma DigitPairs(a: nat, b: nat, c: nat)
    requires a < 100 && b < 100 && c < 100
    ensures var s := PadDecimal(a * 10000 + b * 100 + c, 6);
      s[0..2] == TwoDigits(a) && s[2..4] == TwoDigits(b) && s[4..6] == TwoDigits(c)
  {
    var m := a * 100 + b;
    var n := m * 100 + c;
    assert n == a * 10000 + b * 100 + c;
    assert n < Pow10(6) by {
      assert Pow10(6) == 1000000;
    }
    PadDecimalIsFixed(n, 6);
    FixedDigitsSplitPair(n, m, c, 6);
    FixedDigitsSplitPair(m, a, b, 4);
    TwoDigitsIsFixed(a);
    TwoDigitsIsFixed(b);
    TwoDigitsIsFixed(c);
    var s := PadDecimal(n, 6);
    assert s == FixedDigits(m, 4) + FixedDigits(c, 2);
    assert s == TwoDigits(a) + TwoDigits(b) + TwoDigits(c);
    Slices3(TwoDigits(a), TwoDigits(b), TwoDigits(c));
  }

  /** Two decimal digits, tens first. */
  function TwoDigits(n: nat): (s: string)
    requires n < 100
  {
    [DigitChar(n / 10), DigitChar(n % 10)]
  }

  lemma TwoDigitsIsFixed(n: nat)
    requires n < 100
    ensures FixedDigits(n, 2) == TwoDigits(n)
  {
    assert FixedDigits(n / 10, 1) == [DigitChar(n / 10 % 10)];
  }
}
