/**
 bindings/python/rad_util.py: `int2bin`, `bin2int`, `binary_range`, `gray_encode`.

 A word is a string of the digits 0 and 1, most significant first.  The three ways
 to get at words, by number, by counting up and by Gray code, are specified on
 their own and then shown to fit together.
 */
module BinaryWords {
  import opened Wrappers

  function Pow2(n: nat): (p: nat)
    ensures p > 0
  {
    if n == 0 then 1 else 2 * Pow2(n - 1)
  }

  predicate IsWord(s: string) {
    forall i :: 0 <= i < |s| ==> s[i] == '0' || s[i] == '1'
  }

  function Bit(c: char): nat {
    if c == '1' then 1 else 0
  }

  /** `bin2int`: the number a word stands for, most significant bit first. */
  function Value(s: string): nat {
    if s == "" then 0 else 2 * Value(s[..|s| - 1]) + Bit(s[|s| - 1])
  }

  lemma {:induction false} ValueBound(s: string)
    ensures Value(s) < Pow2(|s|)
  {
    if s != "" {
      ValueBound(s[..|s| - 1]);
    }
  }

  /** Words of one length are told apart by their values. */
  lemma {:induction false} ValueInjective(s: string, t: string)
    requires IsWord(s) && IsWord(t) && |s| == |t| && Value(s) == Value(t)
    ensures s == t
  {
    if s != "" {
      var n := |s| - 1;
      ValueInjective(s[..n], t[..n]);
      assert s == s[..n] + [s[n]] && t == t[..n] + [t[n]];
    }
  }

  lemma {:induction false} ValueConcat(a: string, b: string)
    ensures Value(a + b) == Value(a) * Pow2(|b|) + Value(b)
    decreases |b|
  {
    if b == "" {
      assert a + b == a;
    } else {
      var n := |b| - 1;
      assert (a + b)[..|a + b| - 1] == a + b[..n];
      ValueConcat(a, b[..n]);
      Doubled(Value(a), Pow2(n));
    }
  }

  lemma Doubled(a: nat, p: nat)
    ensures 2 * (a * p) == a * (2 * p)
  {
  }

  lemma {:induction false} NoOnes(s: string)
    ensures Value(s) == 0 <==> '1' !in s
  {
    if s != "" {
      var n := |s| - 1;
      NoOnes(s[..n]);
      assert s == s[..n] + [s[n]];
    }
  }

  // ---------- int2bin ----------

  /** The table from hexadecimal digits to bits. */
  function Nibble(d: nat): (s: string)
    requires d < 16
    ensures |s| == 4 && IsWord(s)
  {
    ["0000", "0001", "0010", "0011", "0100", "0101", "0110", "0111",
     "1000", "1001", "1010", "1011", "1100", "1101", "1110", "1111"][d]
  }

  lemma NibbleValue(d: nat)
    requires d < 16
    ensures Value(Nibble(d)) == d
  {
    var s := Nibble(d);
    var a, b, c := s[..3], s[..2], s[..1];
    assert a[..2] == b && b[..1] == c && c[..0] == "";
    assert Value(s) == 2 * Value(a) + Bit(s[3]);
    assert Value(a) == 2 * Value(b) + Bit(s[2]);
    assert Value(b) == 2 * Value(c) + Bit(s[1]);
    assert Value(c) == Bit(s[0]);
  }

  /** `hex(i)` with every digit replaced by its bits. */
  function HexBits(i: nat): (s: string)
    ensures s != "" && IsWord(s)
  {
    if i < 16 then Nibble(i) else HexBits(i / 16) + Nibble(i % 16)
  }

  lemma NibbleAppended(s: string, d: nat)
    requires d < 16
    ensures Value(s + Nibble(d)) == 16 * Value(s) + d
  {
    NibbleValue(d);
    ValueConcat(s, Nibble(d));
    assert Pow2(4) == 2 * Pow2(3) == 4 * Pow2(2) == 8 * Pow2(1) == 16 * Pow2(0);
  }

  lemma {:induction false} HexBitsValue(i: nat)
    ensures Value(HexBits(i)) == i
  {
    if i < 16 {
      NibbleValue(i);
    } else {
      var high, low := i / 16, i % 16;
      HexBitsValue(high);
      NibbleAppended(HexBits(high), low);
      assert i == 16 * high + low;
    }
  }

  function Zeros(n: int): (s: string)
    ensures IsWord(s) && |s| == if n > 0 then n else 0
  {
    if n <= 0 then "" else "0" + Zeros(n - 1)
  }

  datatype Error = ValueError | KeyError

  /**
   A negative number has no digits the table knows: KeyError.  Python's `s[:-0]` is
   empty and `s[-0:]` is all of s.
   */
  function Int2Bin(i: int, n: nat): Result<string, Error> {
    if i < 0 then Err(KeyError)
    else
      var bits := HexBits(i);
      var cut := if n == 0 || |bits| <= n then 0 else |bits| - n;
      if '1' in bits[..cut] then Err(ValueError)
      else
        var result := bits[cut..];
        Ok(Zeros(n - |result|) + result)
  }

  lemma {:induction false} PaddingKeepsValue(n: int, s: string)
    ensures Value(Zeros(n) + s) == Value(s)
  {
    ValueConcat(Zeros(n), s);
    ZerosValue(n);
  }

  lemma {:induction false} ZerosValue(n: int)
    ensures Value(Zeros(n)) == 0
    decreases n
  {
    if n > 0 {
      ZerosValue(n - 1);
      ValueConcat("0", Zeros(n - 1));
      assert Value("0") == 0 by { assert "0"[..0] == ""; }
    }
  }

  lemma {:induction false} Pow2Grows(m: nat, n: nat)
    requires m <= n
    ensures Pow2(m) <= Pow2(n)
    decreases n
  {
    if m < n {
      Pow2Grows(m, n - 1);
    }
  }

  /** For a positive width the conversion succeeds exactly on the numbers that fit, and keeps their value. */
  lemma Int2BinFits(i: nat, n: nat)
    requires n > 0
    ensures Int2Bin(i, n).Ok? <==> i < Pow2(n)
    ensures Int2Bin(i, n).Err? ==> Int2Bin(i, n).error == ValueError
    ensures Int2Bin(i, n).Ok? ==> var w := Int2Bin(i, n).value; IsWord(w) && |w| == n && Value(w) == i
  {
    var bits := HexBits(i);
    if |bits| <= n {
      ShortFits(i, n);
    } else {
      LongFits(i, n);
    }
  }

  lemma LongFits(i: nat, n: nat)
    requires n > 0 && |HexBits(i)| > n
    ensures Int2Bin(i, n) == if Pow2(n) <= i then Err(ValueError) else Ok(HexBits(i)[|HexBits(i)| - n..])
    ensures i < Pow2(n) ==> Value(HexBits(i)[|HexBits(i)| - n..]) == i
  {
    CutFits(i, n);
    assert forall s: string :: "" + s == s;
  }

  lemma ShortFits(i: nat, n: nat)
    requires n > 0 && |HexBits(i)| <= n
    ensures i < Pow2(n) && Int2Bin(i, n) == Ok(Zeros(n - |HexBits(i)|) + HexBits(i))
    ensures Value(Zeros(n - |HexBits(i)|) + HexBits(i)) == i
  {
    var bits := HexBits(i);
    HexBitsValue(i);
    ValueBound(bits);
    Pow2Grows(|bits|, n);
    PaddingKeepsValue(n - |bits|, bits);
    assert bits[..0] == "" && bits[0..] == bits;
  }

  /** Cutting to n bits loses a one exactly when the number does not fit. */
  lemma CutFits(i: nat, n: nat)
    requires |HexBits(i)| > n
    ensures var high, low := HexBits(i)[..|HexBits(i)| - n], HexBits(i)[|HexBits(i)| - n..];
      ('1' in high <==> Pow2(n) <= i) && ('1' !in high ==> Value(low) == i)
  {
    HexBitsValue(i);
    CutWord(HexBits(i), n, i);
  }

  lemma CutWord(bits: string, n: nat, i: nat)
    requires |bits| > n && Value(bits) == i
    ensures var high, low := bits[..|bits| - n], bits[|bits| - n..];
      ('1' in high <==> Pow2(n) <= i) && ('1' !in high ==> Value(low) == i)
  {
    var high, low := bits[..|bits| - n], bits[|bits| - n..];
    assert bits == high + low;
    ValueConcat(high, low);
    ValueBound(low);
    NoOnes(high);
    CutNumber(Value(high), Value(low), Pow2(n), i);
  }

  lemma CutNumber(high: nat, low: nat, p: nat, i: nat)
    requires i == high * p + low && low < p
    ensures (high > 0 <==> p <= i) && (high == 0 ==> low == i)
  {
    if high > 0 {
      AtLeastOnce(high, p);
    } else {
      assert 0 * p == 0;
    }
  }

  lemma AtLeastOnce(a: nat, p: nat)
    requires a > 0
    ensures p <= a * p
  {
    assert a * p == (a - 1) * p + p;
  }

  /** On words of positive width the two conversions are inverse to each other. */
  lemma WordRoundTrip(w: string)
    requires IsWord(w) && w != ""
    ensures Int2Bin(Value(w), |w|) == Ok(w)
  {
    ValueBound(w);
    Int2BinFits(Value(w), |w|);
    ValueInjective(w, Int2Bin(Value(w), |w|).value);
  }

  /** Width 0 skips the range check: every number that is not negative is accepted, at its full width. */
  lemma ZeroWidthAcceptsAll(i: nat)
    ensures Int2Bin(i, 0) == Ok(HexBits(i))
  {
    assert HexBits(i)[0..] == HexBits(i) && "" + HexBits(i) == HexBits(i);
  }

  /** The range check rejects every number that does not fit exactly for the positive widths. */
  lemma ChecksRangeIffPositive(n: nat)
    ensures (forall i: nat :: Int2Bin(i, n).Ok? ==> i < Pow2(n)) <==> n > 0
  {
    if n > 0 {
      forall i: nat
        ensures Int2Bin(i, n).Ok? ==> i < Pow2(n)
      {
        Int2BinFits(i, n);
      }
    } else {
      ZeroWidthAcceptsAll(1);
      assert Int2Bin(1, 0).Ok?;
    }
  }

  // ---------- binary_range ----------

  /** The value of a word whose least significant bit comes first. */
  function LowFirst(v: string): nat {
    if v == "" then 0 else Bit(v[0]) + 2 * LowFirst(v[1..])
  }

  function Reversed(v: string): (r: string)
    ensures |r| == |v|
  {
    if v == "" then "" else Reversed(v[1..]) + [v[0]]
  }

  lemma {:induction false} ReversedValue(v: string)
    requires IsWord(v)
    ensures IsWord(Reversed(v)) && Value(Reversed(v)) == LowFirst(v)
  {
    if v != "" {
      ReversedValue(v[1..]);
      assert Reversed(v)[..|v| - 1] == Reversed(v[1..]);
    }
  }

  lemma {:induction false} FlipBit(v: string, i: nat, c: char)
    requires i < |v|
    ensures LowFirst(v[i := c]) == LowFirst(v) + (Bit(c) - Bit(v[i])) * Pow2(i)
    decreases i
  {
    if i == 0 {
      assert v[0 := c][1..] == v[1..];
      assert Pow2(0) == 1;
    } else {
      FlipBit(v[1..], i - 1, c);
      assert v[i := c][1..] == v[1..][i - 1 := c];
      var d := Bit(c) - Bit(v[i]);
      assert 2 * (d * Pow2(i - 1)) == d * (2 * Pow2(i - 1));
    }
  }

  /** The inner loop: add one, leaving the carry out of the last place in the last toggle. */
  method Increment(v0: string, bits: nat) returns (v: string, toggle: seq<int>)
    requires |v0| == bits && IsWord(v0)
    ensures |v| == bits && IsWord(v) && |toggle| == bits + 1
    ensures toggle[bits] == 0 || toggle[bits] == 1
    ensures LowFirst(v) + toggle[bits] * Pow2(bits) == LowFirst(v0) + 1
  {
    v := v0;
    toggle := [1] + seq(bits, _ => 0);
    var i := 0;
    assert Pow2(0) == 1;
    while i < bits && toggle[i] == 1
      invariant i <= bits && |v| == bits && IsWord(v) && |toggle| == bits + 1
      invariant toggle[i] == 0 || toggle[i] == 1
      invariant forall j :: i < j <= bits ==> toggle[j] == 0
      invariant LowFirst(v) + toggle[i] * Pow2(i) == LowFirst(v0) + 1
    {
      if v[i] == '0' {
        FlipBit(v, i, '1');
        v := v[i := '1'];
        toggle := toggle[i + 1 := 0];
      } else {
        FlipBit(v, i, '0');
        v := v[i := '0'];
        toggle := toggle[i + 1 := 1];
      }
      i := i + 1;
    }
    if i < bits {
      assert toggle[bits] == 0;
    }
  }

  /** The k-th word listed is k in binary; for width 0 nothing is listed. */
  ghost predicate CountsUp(l: seq<string>, bits: nat) {
    forall k :: 0 <= k < |l| ==> IsWord(l[k]) && |l[k]| == bits && Value(l[k]) == k
  }

  method BinaryRange(bits: nat) returns (l: seq<string>)
    ensures CountsUp(l, bits)
    ensures |l| == if bits == 0 then 0 else Pow2(bits)
  {
    l := [];
    var v := Zeros(bits);
    var toggle := [1] + seq(bits, _ => 0);
    ZerosLowFirst(bits);
    while toggle[bits] != 1
      invariant |v| == bits && IsWord(v) && |toggle| == bits + 1
      invariant CountsUp(l, bits)
      invariant toggle[bits] == 0 || toggle[bits] == 1
      invariant toggle[bits] == 0 ==> bits > 0 && LowFirst(v) == |l| < Pow2(bits)
      invariant toggle[bits] == 1 ==> |l| == if bits == 0 then 0 else Pow2(bits)
      decreases Pow2(bits) - |l|, 1 - toggle[bits]
    {
      ReversedValue(v);
      l := l + [Reversed(v)];
      ghost var v0 := v;
      v, toggle := Increment(v, bits);
      LowFirstBound(v);
    }
  }

  lemma {:induction false} ZerosLowFirst(n: nat)
    ensures LowFirst(Zeros(n)) == 0
  {
    if n > 0 {
      ZerosLowFirst(n - 1);
      assert Zeros(n)[1..] == Zeros(n - 1);
    }
  }

  lemma {:induction false} LowFirstBound(v: string)
    ensures LowFirst(v) < Pow2(|v|)
  {
    if v != "" {
      LowFirstBound(v[1..]);
    }
  }

  /** The list `binary_range` gives is the list of `int2bin` of 0, 1, 2, and so on. */
  lemma RangeIsInt2Bin(l: seq<string>, bits: nat, k: nat)
    requires bits > 0 && CountsUp(l, bits) && k < |l|
    ensures Int2Bin(k, bits) == Ok(l[k])
  {
    WordRoundTrip(l[k]);
  }

  // ---------- gray_encode ----------

  type Binary = b: nat | b < 2

  function Differ(x: nat, y: nat): Binary {
    if x % 2 != y % 2 then 1 else 0
  }

  /** Bitwise exclusive or of two numbers that are not negative. */
  function Xor(a: nat, b: nat): nat {
    if a == 0 && b == 0 then 0 else 2 * Xor(a / 2, b / 2) + Differ(a, b)
  }

  function GrayEncode(i: nat): nat {
    Xor(i, i / 2)
  }

  /** The code bit by bit: whether a bit differs from the one above it. */
  function Gray(i: nat): nat {
    if i == 0 then 0 else 2 * Gray(i / 2) + Differ(i, i / 2)
  }

  /** The inverse: every bit depends on the decoded bits above it. */
  function GrayDecode(g: nat): nat {
    if g == 0 then 0 else
      var k := GrayDecode(g / 2);
      2 * k + Differ(g, k)
  }

  /** Shifting and exclusive or compute the code of every bit at once. */
  lemma {:induction false} EncodeIsGray(i: nat)
    ensures GrayEncode(i) == Gray(i)
    decreases i
  {
    if i == 0 {
      assert Xor(0, 0) == 0;
    } else {
      EncodeIsGray(i / 2);
      assert Xor(i, i / 2) == 2 * Xor(i / 2, i / 2 / 2) + Differ(i, i / 2);
    }
  }

  lemma Halve(i: nat) returns (k: nat, b: Binary)
    ensures i == 2 * k + b && (i > 0 ==> k < i)
  {
    k, b := i / 2, i % 2;
  }

  lemma XorBits(a: nat, x: Binary, b: nat, y: Binary)
    ensures Xor(2 * a + x, 2 * b + y) == 2 * Xor(a, b) + Differ(x, y)
  {
    assert (2 * a + x) / 2 == a && (2 * b + y) / 2 == b;
    assert (2 * a + x) % 2 == x && (2 * b + y) % 2 == y;
  }

  /** The code of a number: the code of its upper bits, then whether its last two bits differ. */
  lemma GrayBits(k: nat, b: Binary)
    ensures Gray(2 * k + b) == 2 * Gray(k) + Differ(b, k)
  {
    assert (2 * k + b) / 2 == k && (2 * k + b) % 2 == b;
    if k == 0 && b == 0 {
      assert Gray(0) == 0;
    }
  }

  lemma DecodeBits(h: nat, c: Binary)
    ensures GrayDecode(2 * h + c) == 2 * GrayDecode(h) + Differ(c, GrayDecode(h))
  {
    assert (2 * h + c) / 2 == h && (2 * h + c) % 2 == c;
    if h == 0 && c == 0 {
      assert GrayDecode(0) == 0;
    }
  }

  lemma Parity(b: Binary, k: nat)
    ensures Differ(Differ(b, k), k) == b
  {
  }

  /** Encoding is a bijection. */
  lemma {:induction false} DecodeEncode(i: nat)
    ensures GrayDecode(Gray(i)) == i
    decreases i
  {
    if i == 0 {
      assert Gray(0) == 0;
    } else {
      var k, b := Halve(i);
      DecodeEncode(k);
      GrayBits(k, b);
      assert Gray(i) == 2 * Gray(k) + Differ(b, k);
      DecodeBits(Gray(k), Differ(b, k));
      Parity(b, k);
    }
  }

  lemma {:induction false} EncodeDecode(g: nat)
    ensures Gray(GrayDecode(g)) == g
    decreases g
  {
    if g == 0 {
      assert GrayDecode(0) == 0 && Gray(0) == 0;
    } else {
      var h, c := Halve(g);
      EncodeDecode(h);
      DecodeBits(h, c);
      GrayBits(GrayDecode(h), Differ(c, GrayDecode(h)));
      Parity(c, GrayDecode(h));
    }
  }

  /** A word and its half against a power of two. */
  lemma HalfFits(h: nat, c: Binary, n: nat)
    requires n > 0
    ensures 2 * h + c < Pow2(n) <==> h < Pow2(n - 1)
  {
  }

  lemma {:induction false} GrayWidth(i: nat, n: nat)
    ensures Gray(i) < Pow2(n) <==> i < Pow2(n)
    decreases n
  {
    if n == 0 {
      DecodeEncode(i);
      assert Gray(0) == 0 && Pow2(0) == 1 && GrayDecode(0) == 0;
    } else {
      var k, b := Halve(i);
      GrayWidth(k, n - 1);
      GrayBits(k, b);
      HalfFits(k, b, n);
      HalfFits(Gray(k), Differ(b, k), n);
    }
  }

  /** `gray_encode` permutes the n-bit numbers. */
  lemma GrayPermutes(n: nat, g: nat)
    requires g < Pow2(n)
    ensures GrayEncode(g) < Pow2(n)
    ensures GrayDecode(g) < Pow2(n) && GrayEncode(GrayDecode(g)) == g
    ensures GrayDecode(GrayEncode(g)) == g
  {
    GrayWidth(g, n);
    EncodeIsGray(g);
    DecodeEncode(g);
    EncodeDecode(g);
    EncodeIsGray(GrayDecode(g));
    GrayWidth(GrayDecode(g), n);
  }

  lemma EvenNeighbour(m: nat)
    ensures Xor(Gray(2 * m), Gray(2 * m + 1)) == 1
  {
    GrayBits(m, 0);
    GrayBits(m, 1);
    XorBits(Gray(m), Differ(0, m), Gray(m), Differ(1, m));
    XorSelf(Gray(m));
  }

  lemma OddNeighbour(m: nat)
    ensures Xor(Gray(2 * m + 1), Gray(2 * (m + 1))) == 2 * Xor(Gray(m), Gray(m + 1))
  {
    GrayBits(m, 1);
    GrayBits(m + 1, 0);
    var b := Differ(1, m);
    assert Differ(0, m + 1) == b;
    assert Gray(2 * m + 1) == 2 * Gray(m) + b;
    assert Gray(2 * (m + 1)) == 2 * Gray(m + 1) + b;
    XorSameBit(Gray(m), Gray(m + 1), b);
  }

  lemma XorSameBit(g: nat, h: nat, b: Binary)
    ensures Xor(2 * g + b, 2 * h + b) == 2 * Xor(g, h)
  {
    XorBits(g, b, h, b);
  }

  lemma {:induction false} NeighbourBit(i: nat) returns (k: nat)
    ensures Xor(Gray(i), Gray(i + 1)) == Pow2(k) && Pow2(k) <= i + 1
    decreases i
  {
    var m, b := Halve(i);
    if b == 0 {
      k := 0;
      EvenNeighbour(m);
      assert Pow2(0) == 1;
    } else {
      var j := NeighbourBit(m);
      k := j + 1;
      OddNeighbour(m);
      assert i + 1 == 2 * (m + 1) && Pow2(k) == 2 * Pow2(j);
    }
  }

  /** Codes of consecutive numbers differ in exactly one bit. */
  lemma GrayNeighbours(i: nat) returns (k: nat)
    ensures Xor(GrayEncode(i), GrayEncode(i + 1)) == Pow2(k)
    ensures Pow2(k) <= i + 1
  {
    EncodeIsGray(i);
    EncodeIsGray(i + 1);
    k := NeighbourBit(i);
  }

  lemma {:induction false} XorSelf(a: nat)
    ensures Xor(a, a) == 0
    decreases a
  {
    if a > 0 {
      var k, b := Halve(a);
      XorSelf(k);
      XorBits(k, b, k, b);
    }
  }

  lemma {:induction false} XorZero(a: nat)
    ensures Xor(a, 0) == a
    decreases a
  {
    if a > 0 {
      var k, b := Halve(a);
      XorZero(k);
      XorBits(k, b, 0, 0);
    }
  }

  /** So do the last and the first code of a width. */
  lemma GrayWraps(n: nat)
    requires n > 0
    ensures Xor(GrayEncode(Pow2(n) - 1), GrayEncode(0)) == Pow2(n - 1)
  {
    LastCode(n);
    EncodeIsGray(Pow2(n) - 1);
    EncodeIsGray(0);
    assert Gray(0) == 0;
    XorZero(Pow2(n - 1));
  }

  lemma {:induction false} LastCode(n: nat)
    requires n > 0
    ensures Gray(Pow2(n) - 1) == Pow2(n - 1)
  {
    var p := Pow2(n - 1);
    GrayBits(p - 1, 1);
    assert Pow2(n) - 1 == 2 * (p - 1) + 1;
    if n == 1 {
      assert Gray(0) == 0 && p == 1;
    } else {
      LastCode(n - 1);
      assert p == 2 * Pow2(n - 2);
    }
  }

  // ---------- the codes as words ----------

  predicate FlipAt(u: string, v: string, j: nat) {
    && j < |u| == |v| && u[j] != v[j]
    && forall i :: 0 <= i < |u| && i != j ==> u[i] == v[i]
  }

  lemma {:induction false} XorEqual(a: nat, b: nat)
    requires Xor(a, b) == 0
    ensures a == b
    decreases a + b
  {
    if a > 0 || b > 0 {
      var h, x := Halve(a);
      var k, y := Halve(b);
      XorBits(h, x, k, y);
      XorEqual(h, k);
    }
  }

  /** A difference in one bit is in the last bit, or in one bit of the halves. */
  lemma BitStep(a: nat, x: Binary, b: nat, y: Binary, k: nat)
    requires Xor(2 * a + x, 2 * b + y) == Pow2(k)
    ensures if k == 0 then a == b && x != y else x == y && Xor(a, b) == Pow2(k - 1)
  {
    XorBits(a, x, b, y);
    if k == 0 {
      assert Pow2(0) == 1;
      XorEqual(a, b);
    } else {
      assert Pow2(k) == 2 * Pow2(k - 1);
    }
  }

  lemma LongerFlip(u: string, v: string, c: char, d: char, j: nat)
    requires if c == d then FlipAt(u, v, j) else u == v && j == |u|
    ensures FlipAt(u + [c], v + [d], j)
  {
  }

  lemma ValueSnoc(u: string, c: char)
    ensures Value(u + [c]) == 2 * Value(u) + Bit(c)
  {
    assert (u + [c])[..|u|] == u;
  }

  /** Words whose values differ in bit k differ in the k-th place from the right, and nowhere else. */
  lemma {:induction false} FlipsAtBit(u: string, v: string, k: nat)
    requires IsWord(u) && IsWord(v) && |u| == |v| && Xor(Value(u), Value(v)) == Pow2(k)
    ensures k < |u| && FlipAt(u, v, |u| - 1 - k)
    decreases |u|
  {
    assert Xor(0, 0) == 0;
    var front, other, c, d := u[..|u| - 1], v[..|u| - 1], u[|u| - 1], v[|u| - 1];
    assert u == front + [c] && v == other + [d];
    assert IsWord(front) && IsWord(other);
    ValueSnoc(front, c);
    ValueSnoc(other, d);
    BitStep(Value(front), Bit(c), Value(other), Bit(d), k);
    if k == 0 {
      ValueInjective(front, other);
    } else {
      FlipsAtBit(front, other, k - 1);
    }
    LongerFlip(front, other, c, d, |front| - k);
  }

  ghost predicate OneFlip(a: Result<string, Error>, b: Result<string, Error>) {
    a.Ok? && b.Ok? && exists j :: FlipAt(a.value, b.value, j)
  }

  lemma WordsFlip(a: nat, b: nat, n: nat, k: nat)
    requires n > 0 && a < Pow2(n) && b < Pow2(n) && Xor(a, b) == Pow2(k)
    ensures OneFlip(Int2Bin(a, n), Int2Bin(b, n))
  {
    Int2BinFits(a, n);
    Int2BinFits(b, n);
    FlipsAtBit(Int2Bin(a, n).value, Int2Bin(b, n).value, k);
  }

  lemma GrayWordsStep(i: nat, n: nat)
    requires n > 0 && i + 1 < Pow2(n)
    ensures OneFlip(Int2Bin(GrayEncode(i), n), Int2Bin(GrayEncode(i + 1), n))
  {
    GrayPermutes(n, i);
    GrayPermutes(n, i + 1);
    var k := GrayNeighbours(i);
    WordsFlip(GrayEncode(i), GrayEncode(i + 1), n, k);
  }

  lemma GrayWordsWrap(last: nat, first: nat, n: nat)
    requires n > 0 && last + 1 == Pow2(n) && first == 0
    ensures OneFlip(Int2Bin(GrayEncode(last), n), Int2Bin(GrayEncode(first), n))
  {
    GrayPermutes(n, last);
    GrayPermutes(n, first);
    LastCode(n);
    EncodeIsGray(last);
    EncodeIsGray(first);
    XorZero(Pow2(n - 1));
    WordsFlip(GrayEncode(last), GrayEncode(first), n, n - 1);
  }

  /** Along the numbers of a width the words of the codes change in one place only, also from the last to the first. */
  lemma GrayWordsFlip(i: nat, n: nat)
    requires n > 0 && i < Pow2(n)
    ensures OneFlip(Int2Bin(GrayEncode(i), n), Int2Bin(GrayEncode(if i + 1 == Pow2(n) then 0 else i + 1), n))
  {
    if i + 1 == Pow2(n) {
      GrayWordsWrap(i, 0, n);
    } else {
      GrayWordsStep(i, n);
    }
  }

  /** And every word of the width is met exactly once. */
  lemma GrayVisitsOnce(w: string) returns (i: nat)
    requires IsWord(w) && w != ""
    ensures i < Pow2(|w|)
    ensures forall j: nat :: j < Pow2(|w|) ==> (Int2Bin(GrayEncode(j), |w|) == Ok(w) <==> j == i)
  {
    ValueBound(w);
    GrayPermutes(|w|, Value(w));
    i := GrayDecode(Value(w));
    WordRoundTrip(w);
    forall j: nat | j < Pow2(|w|)
      ensures Int2Bin(GrayEncode(j), |w|) == Ok(w) <==> j == i
    {
      GrayPermutes(|w|, j);
      Int2BinFits(GrayEncode(j), |w|);
    }
  }
}
