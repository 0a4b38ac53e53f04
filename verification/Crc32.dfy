/** Table-driven CRC-32 as in section 8 of RFC 1952, against the bit-serial division by the
    generator polynomial, and the error patterns it detects.

    A 32-bit word is the list of its bits, least significant first, so a shift right by k drops k
    bits at the front and adds as many zeros at the end, and `c & 1` is the first bit.
 */
module Crc32 {
  import opened Powers

  function Zeros(n: nat): (s: seq<bool>)
    ensures |s| == n && forall i :: 0 <= i < n ==> !s[i]
  {
    seq(n, _ => false)
  }

  type Word32 = c: seq<bool> | |c| == 32 witness Zeros(32)

  type Byte8 = b: seq<bool> | |b| == 8 witness Zeros(8)

  /** The low `k` bits of a number. */
  function ToBits(n: nat, k: nat): (bits: seq<bool>)
    ensures |bits| == k
  {
    if k == 0 then [] else [n % 2 == 1] + ToBits(n / 2, k - 1)
  }

  function Bit(b: bool): nat { if b then 1 else 0 }

  function FromBits(bits: seq<bool>): (n: nat)
    ensures n < Pow2(|bits|)
  {
    if bits == [] then 0 else Bit(bits[0]) + 2 * FromBits(bits[1..])
  }

  lemma {:induction false} BitsOfNumber(n: nat, k: nat)
    requires n < Pow2(k)
    ensures FromBits(ToBits(n, k)) == n
  {
    if k > 0 {
      BitsOfNumber(n / 2, k - 1);
    }
  }

  /** The generator polynomial in reversed form, 0xEDB88320. */
  const POLYNOMIAL: Word32 := [
    false, false, false, false, false, true, false, false,  // 0x20
    true, true, false, false, false, false, false, true,  // 0x83
    false, false, false, true, true, true, false, true,  // 0xB8
    true, false, true, true, false, true, true, true  // 0xED
  ]

  // ---------------------------------------------------------------- words

  function Xor(a: Word32, b: Word32): (c: Word32)
    ensures forall i :: 0 <= i < 32 ==> c[i] == (a[i] != b[i])
  {
    seq(32, i requires 0 <= i < 32 => a[i] != b[i])
  }

  function Shr(c: Word32, k: nat): Word32
    requires k <= 32
  {
    c[k..] + Zeros(k)
  }

  /** A word whose low bits are given and whose other bits are zero. */
  function Pad(bits: seq<bool>): Word32
    requires |bits| <= 32
  {
    bits + Zeros(32 - |bits|)
  }

  const ONES: Word32 := [
    true, true, true, true, true, true, true, true,
    true, true, true, true, true, true, true, true,
    true, true, true, true, true, true, true, true,
    true, true, true, true, true, true, true, true
  ]

  // ---------------------------------------------------------------- the bit-serial reference

  /** One message bit enters the register at its low end. */
  function Feed(c: Word32, bit: bool): Word32 {
    if c[0] != bit then Xor(POLYNOMIAL, Shr(c, 1)) else Shr(c, 1)
  }

  function FeedAll(c: Word32, bits: seq<bool>): Word32
    decreases |bits|, c
  {
    if bits == [] then c else FeedAll(Feed(c, bits[0]), bits[1..])
  }

  function AllBits(buf: seq<Byte8>): (bits: seq<bool>)
    ensures |bits| == 8 * |buf|
  {
    if buf == [] then [] else buf[0] + AllBits(buf[1..])
  }

  /** The checksum: the register starts from the complement of `start`, and its final value is
      complemented again. */
  function Crc(start: Word32, buf: seq<Byte8>): Word32 {
    Xor(FeedAll(Xor(start, ONES), AllBits(buf)), ONES)
  }

  // ---------------------------------------------------------------- bit steps

  function BitStep(c: Word32): Word32 {
    if c[0] then Xor(POLYNOMIAL, Shr(c, 1)) else Shr(c, 1)
  }

  function BitSteps(c: Word32, n: nat): Word32
    decreases n, c
  {
    if n == 0 then c else BitSteps(BitStep(c), n - 1)
  }

  lemma XorCancels(a: Word32, b: Word32, w: Word32)
    requires Xor(a, w) == Xor(b, w) || Xor(w, a) == Xor(w, b)
    ensures a == b
  {
    forall i | 0 <= i < 32
      ensures a[i] == b[i]
    {
      assert Xor(a, w)[i] == (a[i] != w[i]) && Xor(b, w)[i] == (b[i] != w[i]);
      assert Xor(w, a)[i] == (a[i] != w[i]) && Xor(w, b)[i] == (b[i] != w[i]);
    }
  }

  lemma XorTwice(a: Word32, w: Word32)
    ensures Xor(Xor(a, w), w) == a
  {
  }

  /** A step loses nothing: the top bit of the result tells whether the polynomial was added. */
  lemma StepInjective(c: Word32, d: Word32)
    requires BitStep(c) == BitStep(d)
    ensures c == d
  {
    assert POLYNOMIAL[31];
    assert BitStep(c)[31] == c[0] && BitStep(d)[31] == d[0];
    if c[0] {
      XorCancels(Shr(c, 1), Shr(d, 1), POLYNOMIAL);
    }
    assert c[1..] == Shr(c, 1)[..31] && d[1..] == Shr(d, 1)[..31];
    assert c == [c[0]] + c[1..] && d == [d[0]] + d[1..];
  }

  lemma {:induction false} StepsInjective(c: Word32, d: Word32, n: nat)
    requires BitSteps(c, n) == BitSteps(d, n)
    ensures c == d
    decreases n
  {
    if n > 0 {
      var c', d' := BitStep(c), BitStep(d);
      StepsUnfold(c, c', n);
      StepsUnfold(d, d', n);
      StepsInjective(c', d', n - 1);
      StepInjective(c, d);
    }
  }

  lemma StepsUnfold(c: Word32, c': Word32, n: nat)
    requires n > 0 && c' == BitStep(c)
    ensures BitSteps(c, n) == BitSteps(c', n - 1)
  {
  }

  lemma StepLinear(c: Word32, d: Word32)
    ensures BitStep(Xor(c, d)) == Xor(BitStep(c), BitStep(d))
  {
    assert Shr(Xor(c, d), 1) == Xor(Shr(c, 1), Shr(d, 1));
  }

  lemma {:induction false} StepsLinear(c: Word32, d: Word32, n: nat)
    ensures BitSteps(Xor(c, d), n) == Xor(BitSteps(c, n), BitSteps(d, n))
    decreases n
  {
    if n > 0 {
      StepLinear(c, d);
      StepsLinear(BitStep(c), BitStep(d), n - 1);
    }
  }

  lemma {:induction false} ZerosShiftOut(c: Word32, k: nat)
    requires k <= 32 && forall i :: 0 <= i < k ==> !c[i]
    ensures BitSteps(c, k) == Shr(c, k)
    decreases k
  {
    if k > 0 {
      ZerosShiftOut(Shr(c, 1), k - 1);
      assert Shr(Shr(c, 1), k - 1) == Shr(c, k);
    } else {
      assert Shr(c, 0) == c;
    }
  }

  /** Adding some bits to the register and stepping is feeding the first and adding the others. */
  lemma AddThenStep(c: Word32, bits: seq<bool>)
    requires 0 < |bits| <= 32
    ensures BitStep(Xor(c, Pad(bits))) == Xor(Feed(c, bits[0]), Pad(bits[1..]))
  {
    var sum := Xor(c, Pad(bits));
    assert sum[0] == (c[0] != bits[0]);
    assert Shr(sum, 1) == Xor(Shr(c, 1), Pad(bits[1..]));
    if sum[0] {
      XorAssociates(POLYNOMIAL, Shr(c, 1), Pad(bits[1..]));
    }
  }

  lemma XorAssociates(a: Word32, b: Word32, c: Word32)
    ensures Xor(a, Xor(b, c)) == Xor(Xor(a, b), c)
  {
  }

  /** Feeding up to 32 bits is the same as adding them to the register all at once and then
      stepping as often. */
  lemma {:induction false} FeedWord(c: Word32, bits: seq<bool>)
    requires |bits| <= 32
    ensures FeedAll(c, bits) == BitSteps(Xor(c, Pad(bits)), |bits|)
    decreases |bits|
  {
    if bits == [] {
      assert Xor(c, Pad(bits)) == c;
    } else {
      AddThenStep(c, bits);
      FeedWord(Feed(c, bits[0]), bits[1..]);
    }
  }

  // ---------------------------------------------------------------- the table

  /** The index of the table entry for a register and a byte: the low byte of their sum. */
  function LowByte(c: Word32, b: Byte8): Byte8 {
    Xor(c, Pad(b))[..8]
  }

  /** The table step of RFC 1952, looking up the low byte and shifting out the rest, is the same
      as feeding the eight bits of a byte one at a time. */
  lemma TableStep(c: Word32, b: Byte8)
    ensures FeedAll(c, b) == Xor(BitSteps(Pad(LowByte(c, b)), 8), Shr(c, 8))
  {
    var x, low := Xor(c, Pad(b)), Pad(LowByte(c, b));
    var high: Word32 := Zeros(8) + c[8..];
    FeedWord(c, b);
    assert x == Xor(low, high);
    StepsLinear(low, high, 8);
    ZerosShiftOut(high, 8);
    assert Shr(high, 8) == Shr(c, 8);
  }

  function Entry(i: nat): Word32 { BitSteps(ToBits(i, 32), 8) }

  lemma {:induction false} ToBitsPadded(bits: seq<bool>, k: nat)
    requires |bits| <= k
    ensures ToBits(FromBits(bits), k) == bits + Zeros(k - |bits|)
    decreases k
  {
    if bits == [] {
      ZeroBits(k);
    } else {
      ToBitsPadded(bits[1..], k - 1);
      assert FromBits(bits) / 2 == FromBits(bits[1..]);
    }
  }

  lemma {:induction false} ZeroBits(k: nat)
    ensures ToBits(0, k) == Zeros(k)
  {
    if k > 0 {
      ZeroBits(k - 1);
    }
  }

  lemma {:induction false} StepsOfZero(n: nat)
    ensures BitSteps(Zeros(32), n) == Zeros(32)
  {
    if n > 0 {
      assert BitStep(Zeros(32)) == Zeros(32);
      StepsOfZero(n - 1);
    }
  }

  /** Only entry 0 is zero, so a non-zero last entry is a sound sign of a filled table. */
  lemma EntryNonZero(i: nat)
    requires 0 < i < 256
    ensures Entry(i) != Zeros(32)
  {
    if Entry(i) == Zeros(32) {
      StepsOfZero(8);
      StepsInjective(ToBits(i, 32), Zeros(32), 8);
      Pow2Of32();
      BitsOfNumber(i, 32);
      ZeroBits(32);
      BitsOfNumber(0, 32);
    }
  }

  ghost predicate StartsTable(entries: seq<Word32>) {
    forall i :: 0 <= i < |entries| ==> entries[i] == Entry(i)
  }

  lemma OneMoreEntry(entries: seq<Word32>, c: Word32)
    requires StartsTable(entries) && c == Entry(|entries|)
    ensures StartsTable(entries + [c])
  {
  }

  /** The table, all zero until its first use. */
  class Table {
    const entries: array<Word32>

    ghost predicate Empty()
      reads entries
    {
      entries.Length == 256 && forall i :: 0 <= i < 256 ==> entries[i] == Zeros(32)
    }

    ghost predicate Filled()
      reads entries
    {
      entries.Length == 256 && StartsTable(entries[..])
    }

    constructor ()
      ensures Empty() && fresh(entries)
    {
      entries := new Word32[256](_ => Zeros(32));
    }

    method EnsureInited()
      requires Empty() || Filled()
      modifies entries
      ensures Filled()
      ensures old(Filled()) ==> entries[..] == old(entries[..])
    {
      if entries[255] != Zeros(32) {
        return;
      }
      EntryNonZero(255);
      Fill();
    }

    method Fill()
      requires entries.Length == 256
      modifies entries
      ensures Filled()
    {
      for i := 0 to 256
        invariant StartsTable(entries[..i])
      {
        ghost var before := entries[..i];
        var c := ComputeEntry(i);
        entries[i] := c;
        OneMoreEntry(before, c);
        assert entries[..i + 1] == before + [c];
      }
      assert entries[..256] == entries[..];
    }

    method ComputeEntry(i: nat) returns (c: Word32)
      ensures c == Entry(i)
    {
      c := ToBits(i, 32);
      for j := 0 to 8
        invariant BitSteps(c, 8 - j) == Entry(i)
      {
        if c[0] {
          c := Xor(POLYNOMIAL, Shr(c, 1));
        } else {
          c := Shr(c, 1);
        }
      }
    }

    /** One turn of the loop over the buffer. */
    method LookUp(c: Word32, b: Byte8) returns (next: Word32)
      requires Filled()
      ensures next == FeedAll(c, b)
    {
      var low := LowByte(c, b);
      Pow2Of32();
      ToBitsPadded(low, 32);
      TableStep(c, b);
      next := Xor(entries[FromBits(low)], Shr(c, 8));
    }

    /** Any number of calls, in any order and with a table empty or filled, computes the
        bit-serial checksum. */
    method UpdateCrc32(start: Word32, buf: seq<Byte8>) returns (crc: Word32)
      requires Empty() || Filled()
      modifies entries
      ensures Filled()
      ensures crc == Crc(start, buf)
    {
      EnsureInited();
      var c := Xor(start, ONES);
      for i := 0 to |buf|
        invariant Filled()
        invariant FeedAll(c, AllBits(buf[i..])) == FeedAll(Xor(start, ONES), AllBits(buf))
      {
        assert buf[i..][1..] == buf[i + 1..];
        FeedConcat(c, buf[i], AllBits(buf[i + 1..]));
        c := LookUp(c, buf[i]);
      }
      crc := Xor(c, ONES);
    }
  }

  // ---------------------------------------------------------------- whole messages

  lemma {:induction false} FeedConcat(c: Word32, a: seq<bool>, b: seq<bool>)
    ensures FeedAll(c, a + b) == FeedAll(FeedAll(c, a), b)
    decreases |a|
  {
    if a == [] {
      assert a + b == b;
    } else {
      assert (a + b)[1..] == a[1..] + b;
      FeedConcat(Feed(c, a[0]), a[1..], b);
    }
  }

  lemma {:induction false} BitsConcat(a: seq<Byte8>, b: seq<Byte8>)
    ensures AllBits(a + b) == AllBits(a) + AllBits(b)
    decreases |a|
  {
    if a == [] {
      assert a + b == b;
    } else {
      assert (a + b)[1..] == a[1..] + b;
      BitsConcat(a[1..], b);
    }
  }

  /** A checksum can be continued: the result for a first part is the start value for the rest. */
  lemma Chaining(start: Word32, a: seq<Byte8>, b: seq<Byte8>)
    ensures Crc(Crc(start, a), b) == Crc(start, a + b)
  {
    XorTwice(FeedAll(Xor(start, ONES), AllBits(a)), ONES);
    BitsConcat(a, b);
    FeedConcat(Xor(start, ONES), AllBits(a), AllBits(b));
  }

  // ---------------------------------------------------------------- division of polynomials

  /** The exponents of the generator of section 8 of RFC 1952, which has degree 32. */
  const GENERATOR: set<nat> := {0, 1, 2, 4, 5, 7, 8, 10, 11, 12, 16, 22, 23, 26, 32}

  lemma Coefficients(i: nat)
    requires i < 32
    ensures POLYNOMIAL[31 - i] <==> i in {0, 1, 2, 4, 5, 7, 8, 10, 11, 12, 16, 22, 23, 26}
  {
  }

  /** One step of long division modulo 2, coefficients listed from the highest power down: where the
      dividend has its leading term the generator is taken off it. */
  function Reduced(p: seq<bool>): (q: seq<bool>)
    requires |p| > 32
    ensures |q| == |p| - 1
    ensures forall k :: 0 <= k < |q| ==> q[k] == (p[k + 1] != (p[0] && k < 32 && (31 - k) in GENERATOR))
  {
    seq(|p| - 1, k requires 0 <= k < |p| - 1 => p[k + 1] != (p[0] && k < 32 && (31 - k) in GENERATOR))
  }

  function Remainder(p: seq<bool>): Word32
    requires |p| >= 32
    decreases |p|
  {
    if |p| == 32 then p else Remainder(Reduced(p))
  }

  /** The message times x^32, with the start state added to its highest powers. */
  function Dividend(c: Word32, bits: seq<bool>): (p: seq<bool>)
    ensures |p| == |bits| + 32
    ensures forall k :: 0 <= k < |p| ==> p[k] == ((k < |bits| && bits[k]) != (k < 32 && c[k]))
  {
    seq(|bits| + 32, k requires 0 <= k < |bits| + 32 => (k < |bits| && bits[k]) != (k < 32 && c[k]))
  }

  lemma ReducedByFeed(c: Word32, bits: seq<bool>)
    requires bits != []
    ensures Reduced(Dividend(c, bits)) == Dividend(Feed(c, bits[0]), bits[1..])
  {
    var p, q := Dividend(c, bits), Dividend(Feed(c, bits[0]), bits[1..]);
    var r := Reduced(p);
    forall k | 0 <= k < |r| ensures r[k] == q[k] {
      assert p[k + 1] == ((k + 1 < |bits| && bits[k + 1]) != (k + 1 < 32 && c[k + 1]));
      if k < 32 {
        Coefficients(31 - k);
        assert Shr(c, 1)[k] == (k + 1 < 32 && c[k + 1]);
      }
    }
  }

  lemma {:induction false} FeedIsRemainder(c: Word32, bits: seq<bool>)
    ensures FeedAll(c, bits) == Remainder(Dividend(c, bits))
    decreases |bits|
  {
    if bits == [] {
      assert Dividend(c, bits) == c;
    } else {
      ReducedByFeed(c, bits);
      FeedIsRemainder(Feed(c, bits[0]), bits[1..]);
    }
  }

  /** The checksum is the complement of what division by the generator leaves of the message, shifted
      up by 32 places and with its first 32 coefficients complemented when the start value is zero. */
  lemma CrcIsRemainder(start: Word32, buf: seq<Byte8>)
    ensures
      var rest := Remainder(Dividend(Xor(start, ONES), AllBits(buf)));
      forall i :: 0 <= i < 32 ==> Crc(start, buf)[i] == !rest[i]
  {
    FeedIsRemainder(Xor(start, ONES), AllBits(buf));
    Complements(FeedAll(Xor(start, ONES), AllBits(buf)));
  }

  lemma Complements(w: Word32)
    ensures forall i :: 0 <= i < 32 ==> Xor(w, ONES)[i] == !w[i]
  {
    forall i | 0 <= i < 32 ensures ONES[i] {
    }
  }

  // ---------------------------------------------------------------- known values

  lemma Doubled(m: nat, f: nat)
    ensures (2 * m) * f == 2 * (m * f)
  {
  }

  lemma {:induction false} JoinedBits(a: seq<bool>, b: seq<bool>)
    ensures FromBits(a + b) == FromBits(a) + Pow2(|a|) * FromBits(b)
  {
    if a == [] {
      assert a + b == b;
    } else {
      assert (a + b)[1..] == a[1..] + b;
      assert FromBits(a + b) == Bit(a[0]) + 2 * FromBits(a[1..] + b);
      JoinedBits(a[1..], b);
      Doubled(Pow2(|a| - 1), FromBits(b));
    }
  }

  lemma NibbleValue(a: bool, b: bool, c: bool, d: bool)
    ensures FromBits([a, b, c, d]) == Bit(a) + 2 * Bit(b) + 4 * Bit(c) + 8 * Bit(d)
  {
    assert [a, b, c, d][1..] == [b, c, d] && [b, c, d][1..] == [c, d] && [c, d][1..] == [d];
    assert FromBits([d]) == Bit(d);
    assert FromBits([c, d]) == Bit(c) + 2 * FromBits([d]);
    assert FromBits([b, c, d]) == Bit(b) + 2 * FromBits([c, d]);
  }

  lemma ByteValue(a: bool, b: bool, c: bool, d: bool, e: bool, f: bool, g: bool, h: bool)
    ensures FromBits([a, b, c, d, e, f, g, h]) ==
      Bit(a) + 2 * Bit(b) + 4 * Bit(c) + 8 * Bit(d) + 16 * Bit(e) + 32 * Bit(f) + 64 * Bit(g) + 128 * Bit(h)
  {
    NibbleValue(a, b, c, d);
    NibbleValue(e, f, g, h);
    JoinedBits([a, b, c, d], [e, f, g, h]);
    assert [a, b, c, d] + [e, f, g, h] == [a, b, c, d, e, f, g, h];
    assert Pow2(2) == 4 && Pow2(4) == 16;
  }

  lemma WordValue(a: Byte8, b: Byte8, c: Byte8, d: Byte8)
    ensures FromBits(a + (b + (c + d))) ==
      FromBits(a) + 0x100 * FromBits(b) + 0x1_0000 * FromBits(c) + 0x100_0000 * FromBits(d)
  {
    Pow2Of32();
    JoinedBits(a, b + (c + d));
    JoinedBits(b, c + d);
    JoinedBits(c, d);
  }

  lemma ValueOfBytes(a: Byte8, b: Byte8, c: Byte8, d: Byte8)
    requires a == [false, false, false, false, false, true, false, false]
    requires b == [true, true, false, false, false, false, false, true]
    requires c == [false, false, false, true, true, true, false, true]
    requires d == [true, false, true, true, false, true, true, true]
    ensures FromBits(a + (b + (c + d))) == 0xEDB88320
  {
    WordValue(a, b, c, d);
    assert FromBits(a) == 0x20 by { ByteValue(false, false, false, false, false, true, false, false); }
    assert FromBits(b) == 0x83 by { ByteValue(true, true, false, false, false, false, false, true); }
    assert FromBits(c) == 0xB8 by { ByteValue(false, false, false, true, true, true, false, true); }
    assert FromBits(d) == 0xED by { ByteValue(true, false, true, true, false, true, true, true); }
  }

  lemma PolynomialBytes(a: Byte8, b: Byte8, c: Byte8, d: Byte8)
    requires a == [false, false, false, false, false, true, false, false]
    requires b == [true, true, false, false, false, false, false, true]
    requires c == [false, false, false, true, true, true, false, true]
    requires d == [true, false, true, true, false, true, true, true]
    ensures POLYNOMIAL == a + (b + (c + d))
  {
  }

  /** The polynomial is the number that crc32.cc gives for it. */
  lemma PolynomialNumber(w: Word32)
    ensures FromBits(w) == 0xEDB88320 <==> w == POLYNOMIAL
  {
    var a: Byte8 :| a == [false, false, false, false, false, true, false, false];
    var b: Byte8 :| b == [true, true, false, false, false, false, false, true];
    var c: Byte8 :| c == [false, false, false, true, true, true, false, true];
    var d: Byte8 :| d == [true, false, true, true, false, true, true, true];
    ValueOfBytes(a, b, c, d);
    PolynomialBytes(a, b, c, d);
    if FromBits(w) == 0xEDB88320 {
      ValueInjective(w, a + (b + (c + d)));
    }
  }

  lemma {:induction false} ValueInjective(a: seq<bool>, b: seq<bool>)
    requires |a| == |b| && FromBits(a) == FromBits(b)
    ensures a == b
  {
    if a != [] {
      ValueInjective(a[1..], b[1..]);
      assert a == [a[0]] + a[1..] && b == [b[0]] + b[1..];
    }
  }

  function Trues(n: nat): (s: seq<bool>)
    ensures |s| == n && forall i :: 0 <= i < n ==> s[i]
  {
    seq(n, _ => true)
  }

  lemma {:induction false} TruesValue(n: nat)
    ensures FromBits(Trues(n)) == Pow2(n) - 1
  {
    if n > 0 {
      assert Trues(n)[1..] == Trues(n - 1);
      TruesValue(n - 1);
    }
  }

  lemma NothingAdded(start: Word32)
    ensures Crc(start, []) == start
  {
    XorTwice(start, ONES);
  }

  /** The checksum of four bytes of ones is 0xFFFFFFFF. */
  lemma ChecksumOfOnes()
    ensures FromBits(Crc(Zeros(32), [Trues(8), Trues(8), Trues(8), Trues(8)])) == 0xFFFF_FFFF
  {
    var ones := Trues(8);
    var buf: seq<Byte8> := [ones, ones, ones, ones];
    var bits := AllBits(buf);
    assert bits == Trues(32) by {
      assert buf == [ones] + ([ones] + ([ones] + [ones]));
      BitsConcat([ones], [ones] + ([ones] + [ones]));
      BitsConcat([ones], [ones] + [ones]);
      BitsConcat([ones], [ones]);
      assert AllBits([ones]) == ones;
    }
    var c := Xor(Zeros(32), ONES);
    FeedWord(c, bits);
    assert Xor(c, Pad(bits)) == Zeros(32);
    StepsOfZero(32);
    assert Crc(Zeros(32), buf) == Trues(32);
    TruesValue(32);
    Pow2Of32();
  }

  // ---------------------------------------------------------------- error detection

  /** Two states that differ still differ after any common bits. */
  lemma {:induction false} FeedKeepsDifference(c: Word32, d: Word32, bits: seq<bool>)
    requires FeedAll(c, bits) == FeedAll(d, bits)
    ensures c == d
    decreases |bits|
  {
    if bits != [] {
      FeedKeepsDifference(Feed(c, bits[0]), Feed(d, bits[0]), bits[1..]);
      FeedOne(c, bits[0]);
      FeedOne(d, bits[0]);
      StepInjective(Xor(c, Pad([bits[0]])), Xor(d, Pad([bits[0]])));
      XorCancels(c, d, Pad([bits[0]]));
    }
  }

  lemma FeedOne(c: Word32, bit: bool)
    ensures Feed(c, bit) == BitStep(Xor(c, Pad([bit])))
  {
    AddThenStep(c, [bit]);
    assert Xor(Feed(c, bit), Pad([])) == Feed(c, bit);
  }

  /** From the same state, different bits lead to different states, up to 32 of them. */
  lemma ShortBurst(c: Word32, a: seq<bool>, b: seq<bool>)
    requires |a| == |b| <= 32 && FeedAll(c, a) == FeedAll(c, b)
    ensures a == b
  {
    FeedWord(c, a);
    FeedWord(c, b);
    StepsInjective(Xor(c, Pad(a)), Xor(c, Pad(b)), |a|);
    XorCancels(Pad(a), Pad(b), c);
    assert a == Pad(a)[..|a|] && b == Pad(b)[..|b|];
  }

  /** `a` and `b` are equal before position `from` and from position `to` on. */
  ghost predicate DifferOnlyIn<T>(a: seq<T>, b: seq<T>, from: nat, to: nat) {
    from <= to <= |a| == |b| && a[..from] == b[..from] && a[to..] == b[to..]
  }

  lemma BurstInBits(c: Word32, a: seq<bool>, b: seq<bool>, from: nat, to: nat)
    requires DifferOnlyIn(a, b, from, to) && to - from <= 32 && FeedAll(c, a) == FeedAll(c, b)
    ensures a == b
  {
    var before, after := a[..from], a[to..];
    var x, y := a[from..to], b[from..to];
    assert a == before + (x + after) && b == before + (y + after);
    var s := FeedAll(c, before);
    FeedConcat(c, before, x + after);
    FeedConcat(c, before, y + after);
    FeedConcat(s, x, after);
    FeedConcat(s, y, after);
    FeedKeepsDifference(FeedAll(s, x), FeedAll(s, y), after);
    ShortBurst(s, x, y);
  }

  lemma {:induction false} BitsInjective(a: seq<Byte8>, b: seq<Byte8>)
    requires AllBits(a) == AllBits(b)
    ensures a == b
    decreases |a|
  {
    assert 8 * |a| == 8 * |b|;
    if a != [] {
      var s, t := AllBits(a), AllBits(b);
      assert s[..8] == a[0] && t[..8] == b[0];
      assert s[8..] == AllBits(a[1..]) && t[8..] == AllBits(b[1..]);
      BitsInjective(a[1..], b[1..]);
      assert a == [a[0]] + a[1..] && b == [b[0]] + b[1..];
    }
  }

  /** Every burst of errors within 32 consecutive bits is detected, from any start value, wherever
      in the message it lies and however long the message is. */
  lemma BurstDetected(start: Word32, a: seq<Byte8>, b: seq<Byte8>, from: nat, to: nat)
    requires a != b && DifferOnlyIn(AllBits(a), AllBits(b), from, to) && to - from <= 32
    ensures Crc(start, a) != Crc(start, b)
  {
    var c := Xor(start, ONES);
    if Crc(start, a) == Crc(start, b) {
      XorCancels(FeedAll(c, AllBits(a)), FeedAll(c, AllBits(b)), ONES);
      BurstInBits(c, AllBits(a), AllBits(b), from, to);
      BitsInjective(a, b);
    }
  }

  /** In particular two buffers that differ only within four consecutive bytes have different
      checksums. */
  lemma FourByteBurst(start: Word32, a: seq<Byte8>, b: seq<Byte8>, from: nat, to: nat)
    requires a != b && DifferOnlyIn(a, b, from, to) && to - from <= 4
    ensures Crc(start, a) != Crc(start, b)
  {
    BitsSplit(a, from);
    BitsSplit(b, from);
    BitsSplit(a, to);
    BitsSplit(b, to);
    BurstDetected(start, a, b, 8 * from, 8 * to);
  }

  lemma BitsSplit(a: seq<Byte8>, k: nat)
    requires k <= |a|
    ensures AllBits(a)[..8 * k] == AllBits(a[..k]) && AllBits(a)[8 * k..] == AllBits(a[k..])
  {
    assert a == a[..k] + a[k..];
    BitsConcat(a[..k], a[k..]);
  }

  /** The error pattern of the generator itself: 33 bits, one more than `BurstDetected` allows. */
  function GeneratorPattern(): (bits: seq<bool>)
    ensures |bits| == 33
  {
    [true] + POLYNOMIAL
  }

  /** From any state, 33 bits of the generator pattern and 33 zeros lead to the same state. */
  lemma PatternLikeZeros(c: Word32)
    ensures FeedAll(c, GeneratorPattern()) == FeedAll(c, Zeros(33))
  {
    var s, t := Feed(c, false), Feed(c, true);
    assert GeneratorPattern()[1..] == POLYNOMIAL && Zeros(33)[1..] == Zeros(32);
    assert t == Xor(s, POLYNOMIAL) || s == Xor(t, POLYNOMIAL);
    SameAfter32(s, t);
  }

  function Bytes(bits: seq<bool>): (buf: seq<Byte8>)
    requires |bits| % 8 == 0
    ensures AllBits(buf) == bits
  {
    if bits == [] then [] else [bits[..8]] + Bytes(bits[8..])
  }

  lemma Spliced(before: seq<bool>, x: seq<bool>, y: seq<bool>, after: seq<bool>)
    requires |x| == |y| > 0 && x[0] != y[0]
    ensures var a, b := before + (x + after), before + (y + after);
      a != b && DifferOnlyIn(a, b, |before|, |before| + |x|)
  {
    var a, b := before + (x + after), before + (y + after);
    assert a[|before|] == x[0] && b[|before|] == y[0];
    assert a[..|before|] == before == b[..|before|];
    assert a[|before| + |x|..] == after == b[|before| + |x|..];
  }

  lemma SplicedFeed(c: Word32, before: seq<bool>, x: seq<bool>, y: seq<bool>, after: seq<bool>)
    requires FeedAll(FeedAll(c, before), x) == FeedAll(FeedAll(c, before), y)
    ensures FeedAll(c, before + (x + after)) == FeedAll(c, before + (y + after))
  {
    FeedConcat(c, before, x + after);
    FeedConcat(c, before, y + after);
    FeedConcat(FeedAll(c, before), x, after);
    FeedConcat(FeedAll(c, before), y, after);
  }

  lemma SameFeedSameCrc(start: Word32, a: seq<Byte8>, b: seq<Byte8>)
    requires FeedAll(Xor(start, ONES), AllBits(a)) == FeedAll(Xor(start, ONES), AllBits(b))
    ensures Crc(start, a) == Crc(start, b)
  {
  }

  /** 32 is the exact bound: wherever 33 bits of a message are zero, the message that has the
      generator pattern there is different and has the same checksum, from every start value. */
  lemma LongerBurstMissed(start: Word32, a: seq<Byte8>, b: seq<Byte8>, before: seq<bool>, after: seq<bool>)
    requires AllBits(a) == before + (Zeros(33) + after)
    requires AllBits(b) == before + (GeneratorPattern() + after)
    ensures a != b && DifferOnlyIn(AllBits(a), AllBits(b), |before|, |before| + 33)
    ensures Crc(start, a) == Crc(start, b)
  {
    var x, y := Zeros(33), GeneratorPattern();
    Spliced(before, x, y, after);
    PatternLikeZeros(FeedAll(Xor(start, ONES), before));
    SplicedFeed(Xor(start, ONES), before, x, y, after);
    SameFeedSameCrc(start, a, b);
  }

  /** Five bytes are enough for that, one more than `FourByteBurst` allows. */
  lemma FiveByteBurstMissed() returns (a: seq<Byte8>, b: seq<Byte8>)
    ensures |a| == |b| == 5 && a != b && forall start: Word32 :: Crc(start, a) == Crc(start, b)
  {
    a, b := Bytes([] + (Zeros(33) + Zeros(7))), Bytes([] + (GeneratorPattern() + Zeros(7)));
    LongerBurstMissed(ONES, a, b, [], Zeros(7));
    forall start: Word32 ensures Crc(start, a) == Crc(start, b) {
      LongerBurstMissed(start, a, b, [], Zeros(7));
    }
  }

  lemma SameAfter32(s: Word32, t: Word32)
    requires t == Xor(s, POLYNOMIAL) || s == Xor(t, POLYNOMIAL)
    ensures FeedAll(t, POLYNOMIAL) == FeedAll(s, Zeros(32))
  {
    FeedWord(t, POLYNOMIAL);
    FeedWord(s, Zeros(32));
    assert Pad(POLYNOMIAL) == POLYNOMIAL && Pad(Zeros(32)) == Zeros(32);
    assert Xor(t, POLYNOMIAL) == s == Xor(s, Zeros(32));
  }
}
