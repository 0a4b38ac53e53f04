/** Big- and little-endian numbers in memory, and the conversions between host and network order.

    A shift right by 8k bits is a division by 256^k, a cast to `uint8` is a remainder modulo 256,
    and the bitwise or of bytes shifted to different places is their sum. The endianness of the
    host is a parameter wherever the result depends on it.
 */
module ByteOrder {
  import opened Division

  type Byte = b: nat | b < 256

  /** 256 to the power `n`: the number of values `n` bytes can hold. */
  function Range(n: nat): (r: nat)
    ensures r > 0
  {
    if n == 0 then 1 else 256 * Range(n - 1)
  }

  // ---------------------------------------------------------------- positional notation

  /** The low `n` bytes of `v`, most significant first. */
  function BigEndian(v: nat, n: nat): (s: seq<Byte>)
    ensures |s| == n
  {
    if n == 0 then [] else BigEndian(v / 256, n - 1) + [v % 256]
  }

  /** The low `n` bytes of `v`, least significant first. */
  function LittleEndian(v: nat, n: nat): (s: seq<Byte>)
    ensures |s| == n
  {
    if n == 0 then [] else [v % 256] + LittleEndian(v / 256, n - 1)
  }

  function FromBigEndian(s: seq<Byte>): (v: nat)
    ensures v < Range(|s|)
  {
    if s == [] then 0 else FromBigEndian(s[..|s| - 1]) * 256 + s[|s| - 1]
  }

  function FromLittleEndian(s: seq<Byte>): (v: nat)
    ensures v < Range(|s|)
  {
    if s == [] then 0 else s[0] + 256 * FromLittleEndian(s[1..])
  }

  lemma LowByteFirst(v: nat, m: nat)
    requires m > 0
    ensures v % (256 * m) == (v / 256 % m) * 256 + v % 256
  {
    var q, r := v / 256, v % 256;
    var k, s := q / m, q % m;
    assert v == 256 * q + r && q == m * k + s;
    var t := s * 256 + r;
    assert v == (256 * m) * k + t by { assert 256 * (m * k) == (256 * m) * k; }
    assert t < 256 * m;
    assert v == k * (256 * m) + t;
    ModUnique(v, k, 256 * m);
  }

  /** Writing a number into `n` bytes and reading it back keeps exactly its low 8n bits, in
      either order. */
  lemma ReadBack(v: nat, n: nat)
    ensures FromBigEndian(BigEndian(v, n)) == v % Range(n)
    ensures FromLittleEndian(LittleEndian(v, n)) == v % Range(n)
  {
    ReadBackBig(v, n);
    ReadBackLittle(v, n);
  }

  lemma {:induction false} ReadBackBig(v: nat, n: nat)
    ensures FromBigEndian(BigEndian(v, n)) == v % Range(n)
  {
    if n > 0 {
      ReadBackBig(v / 256, n - 1);
      LowByteFirst(v, Range(n - 1));
      assert BigEndian(v, n)[..n - 1] == BigEndian(v / 256, n - 1);
    }
  }

  lemma {:induction false} ReadBackLittle(v: nat, n: nat)
    ensures FromLittleEndian(LittleEndian(v, n)) == v % Range(n)
  {
    if n > 0 {
      ReadBackLittle(v / 256, n - 1);
      LowByteFirst(v, Range(n - 1));
      assert LittleEndian(v, n)[1..] == LittleEndian(v / 256, n - 1);
    }
  }

  /** The number itself comes back exactly when it fits. */
  lemma ReadBackExact(v: nat, n: nat)
    ensures FromBigEndian(BigEndian(v, n)) == v <==> v < Range(n)
    ensures FromLittleEndian(LittleEndian(v, n)) == v <==> v < Range(n)
  {
    ReadBack(v, n);
    if v < Range(n) {
      ModUnique(v, 0, Range(n));
    }
  }

  /** ... and the other way round: bytes are recovered from the number they spell. */
  lemma {:induction false} WriteBackBig(s: seq<Byte>)
    ensures BigEndian(FromBigEndian(s), |s|) == s
  {
    if s != [] {
      var rest, last := s[..|s| - 1], s[|s| - 1];
      WriteBackBig(rest);
      var v := FromBigEndian(s);
      assert v / 256 == FromBigEndian(rest) && v % 256 == last;
      assert BigEndian(v, |s|) == BigEndian(v / 256, |rest|) + [last];
    }
  }

  lemma {:induction false} WriteBackLittle(s: seq<Byte>)
    ensures LittleEndian(FromLittleEndian(s), |s|) == s
  {
    if s != [] {
      var rest := s[1..];
      WriteBackLittle(rest);
      var v := FromLittleEndian(s);
      assert v / 256 == FromLittleEndian(rest) && v % 256 == s[0];
      assert LittleEndian(v, |s|) == [s[0]] + LittleEndian(v / 256, |rest|);
    }
  }

  /** Dropping the most significant bytes of a number leaves its shorter form. */
  lemma {:induction false} LowBytes(v: nat, n: nat, k: nat)
    ensures BigEndian(v, k + n)[k..] == BigEndian(v, n)
    ensures LittleEndian(v, n + k)[..n] == LittleEndian(v, n)
    decreases n
  {
    if n > 0 {
      LowBytes(v / 256, n - 1, k);
      assert BigEndian(v, k + n)[k..] == BigEndian(v / 256, k + n - 1)[k..] + [v % 256];
      assert LittleEndian(v, n + k)[..n] == [v % 256] + LittleEndian(v / 256, n - 1 + k)[..n - 1];
    }
  }

  /** A zero byte above the most significant end does not change the value. */
  lemma {:induction false} LeadingZeroBig(s: seq<Byte>)
    ensures FromBigEndian([0] + s) == FromBigEndian(s)
  {
    if s != [] {
      LeadingZeroBig(s[..|s| - 1]);
      assert ([0] + s)[..|s|] == [0] + s[..|s| - 1];
    }
  }

  lemma {:induction false} LeadingZeroLittle(s: seq<Byte>)
    ensures FromLittleEndian(s + [0]) == FromLittleEndian(s)
  {
    if s != [] {
      LeadingZeroLittle(s[1..]);
      assert (s + [0])[1..] == s[1..] + [0];
    }
  }

  // ---------------------------------------------------------------- memory access

  /** `v` shifted right by `k` bytes. */
  function Shr8(v: nat, k: nat): nat {
    if k == 0 then v else Shr8(v / 256, k - 1)
  }

  lemma {:induction false} Digits(v: nat, n: nat)
    ensures forall i :: 0 <= i < n ==> BigEndian(v, n)[i] == Shr8(v, n - 1 - i) % 256
    ensures forall i :: 0 <= i < n ==> LittleEndian(v, n)[i] == Shr8(v, i) % 256
  {
    if n > 0 {
      Digits(v / 256, n - 1);
    }
  }

  lemma {:induction false} ShiftDivides(v: nat, k: nat)
    ensures Shr8(v, k) == v / Range(k)
  {
    if k > 0 {
      var m := Range(k - 1);
      ShiftDivides(v / 256, k - 1);
      var q := v / 256 / m;
      assert m * q <= v / 256 < m * q + m;
      assert q * (256 * m) == 256 * (m * q);
      ModUnique(v, q, 256 * m);
    }
  }

  /** Which byte stands where: the one of weight 256^i is the i-th from the right in big-endian order
      and the i-th from the left in little-endian order. */
  lemma Places(v: nat, n: nat, i: nat)
    requires i < n
    ensures BigEndian(v, n)[n - 1 - i] == v / Range(i) % 256
    ensures LittleEndian(v, n)[i] == v / Range(i) % 256
  {
    Digits(v, n);
    ShiftDivides(v, i);
  }

  lemma Horner(s: seq<Byte>, k: nat)
    requires k < |s|
    ensures s[..0] == [] && s[|s|..] == [] && s[..|s|] == s && s[0..] == s
    ensures FromBigEndian(s[..k + 1]) == FromBigEndian(s[..k]) * 256 + s[k]
    ensures FromLittleEndian(s[k..]) == s[k] + 256 * FromLittleEndian(s[k + 1..])
  {
    assert s[..k + 1][..k] == s[..k] && s[k..][1..] == s[k + 1..];
  }

  method Set8(memory: array<Byte>, offset: nat, v: Byte)
    requires offset < memory.Length
    modifies memory
    ensures memory[..] == old(memory[..])[offset := v]
  {
    memory[offset] := v;
  }

  method SetBE16(memory: array<Byte>, v: nat)
    requires memory.Length >= 2
    modifies memory
    ensures memory[..] == BigEndian(v, 2) + old(memory[2..])
  {
    Digits(v, 2);
    Set8(memory, 0, Shr8(v, 1) % 256);
    Set8(memory, 1, Shr8(v, 0) % 256);
  }

  method SetBE32(memory: array<Byte>, v: nat)
    requires memory.Length >= 4
    modifies memory
    ensures memory[..] == BigEndian(v, 4) + old(memory[4..])
  {
    Digits(v, 4);
    Set8(memory, 0, Shr8(v, 3) % 256);
    Set8(memory, 1, Shr8(v, 2) % 256);
    Set8(memory, 2, Shr8(v, 1) % 256);
    Set8(memory, 3, Shr8(v, 0) % 256);
  }

  method SetBE64(memory: array<Byte>, v: nat)
    requires memory.Length >= 8
    modifies memory
    ensures memory[..] == BigEndian(v, 8) + old(memory[8..])
  {
    Digits(v, 8);
    Set8(memory, 0, Shr8(v, 7) % 256);
    Set8(memory, 1, Shr8(v, 6) % 256);
    Set8(memory, 2, Shr8(v, 5) % 256);
    Set8(memory, 3, Shr8(v, 4) % 256);
    Set8(memory, 4, Shr8(v, 3) % 256);
    Set8(memory, 5, Shr8(v, 2) % 256);
    Set8(memory, 6, Shr8(v, 1) % 256);
    Set8(memory, 7, Shr8(v, 0) % 256);
  }

  method SetLE16(memory: array<Byte>, v: nat)
    requires memory.Length >= 2
    modifies memory
    ensures memory[..] == LittleEndian(v, 2) + old(memory[2..])
  {
    Digits(v, 2);
    Set8(memory, 0, Shr8(v, 0) % 256);
    Set8(memory, 1, Shr8(v, 1) % 256);
  }

  method SetLE32(memory: array<Byte>, v: nat)
    requires memory.Length >= 4
    modifies memory
    ensures memory[..] == LittleEndian(v, 4) + old(memory[4..])
  {
    Digits(v, 4);
    Set8(memory, 0, Shr8(v, 0) % 256);
    Set8(memory, 1, Shr8(v, 1) % 256);
    Set8(memory, 2, Shr8(v, 2) % 256);
    Set8(memory, 3, Shr8(v, 3) % 256);
  }

  method SetLE64(memory: array<Byte>, v: nat)
    requires memory.Length >= 8
    modifies memory
    ensures memory[..] == LittleEndian(v, 8) + old(memory[8..])
  {
    Digits(v, 8);
    Set8(memory, 0, Shr8(v, 0) % 256);
    Set8(memory, 1, Shr8(v, 1) % 256);
    Set8(memory, 2, Shr8(v, 2) % 256);
    Set8(memory, 3, Shr8(v, 3) % 256);
    Set8(memory, 4, Shr8(v, 4) % 256);
    Set8(memory, 5, Shr8(v, 5) % 256);
    Set8(memory, 6, Shr8(v, 6) % 256);
    Set8(memory, 7, Shr8(v, 7) % 256);
  }

  lemma PairSum(s: seq<Byte>)
    requires |s| == 2
    ensures FromBigEndian(s) == s[0] as int * 0x100 + s[1] as int
    ensures FromLittleEndian(s) == s[0] as int + s[1] as int * 0x100
  {
    Horner(s, 0);
    Horner(s, 1);
  }

  lemma QuadSum(s: seq<Byte>)
    requires |s| == 4
    ensures FromBigEndian(s) == s[0] as int * 0x100_0000 + s[1] as int * 0x1_0000 + s[2] as int * 0x100 + s[3] as int
    ensures FromLittleEndian(s) == s[0] as int + s[1] as int * 0x100 + s[2] as int * 0x1_0000 + s[3] as int * 0x100_0000
  {
    Horner(s, 0);
    Horner(s, 1);
    Horner(s, 2);
    Horner(s, 3);
  }

  lemma OctetSumBig(s: seq<Byte>)
    requires |s| == 8
    ensures FromBigEndian(s) == FromBigEndian(s[..4]) * 0x1_0000_0000
      + s[4] as int * 0x100_0000 + s[5] as int * 0x1_0000 + s[6] as int * 0x100 + s[7] as int
  {
    Horner(s, 4);
    Horner(s, 5);
    Horner(s, 6);
    Horner(s, 7);
  }

  lemma OctetSumLittle(s: seq<Byte>)
    requires |s| == 8
    ensures FromLittleEndian(s) == FromLittleEndian(s[4..]) * 0x1_0000_0000
      + s[0] as int + s[1] as int * 0x100 + s[2] as int * 0x1_0000 + s[3] as int * 0x100_0000
  {
    Horner(s, 0);
    Horner(s, 1);
    Horner(s, 2);
    Horner(s, 3);
  }

  function GetBE16(memory: seq<Byte>): (v: nat)
    requires |memory| >= 2
    ensures v == FromBigEndian(memory[..2])
  {
    PairSum(memory[..2]);
    memory[0] as int * 0x100 + memory[1] as int
  }

  function GetBE32(memory: seq<Byte>): (v: nat)
    requires |memory| >= 4
    ensures v == FromBigEndian(memory[..4])
  {
    QuadSum(memory[..4]);
    memory[0] as int * 0x100_0000 + memory[1] as int * 0x1_0000 +
    memory[2] as int * 0x100 + memory[3] as int
  }

  function GetBE64(memory: seq<Byte>): (v: nat)
    requires |memory| >= 8
    ensures v == FromBigEndian(memory[..8])
  {
    OctetSumBig(memory[..8]);
    QuadSum(memory[..8][..4]);
    memory[0] as int * 0x100_0000_0000_0000 + memory[1] as int * 0x1_0000_0000_0000 +
    memory[2] as int * 0x100_0000_0000 + memory[3] as int * 0x1_0000_0000 +
    memory[4] as int * 0x100_0000 + memory[5] as int * 0x1_0000 +
    memory[6] as int * 0x100 + memory[7] as int
  }

  function GetLE16(memory: seq<Byte>): (v: nat)
    requires |memory| >= 2
    ensures v == FromLittleEndian(memory[..2])
  {
    PairSum(memory[..2]);
    memory[0] as int + memory[1] as int * 0x100
  }

  function GetLE32(memory: seq<Byte>): (v: nat)
    requires |memory| >= 4
    ensures v == FromLittleEndian(memory[..4])
  {
    QuadSum(memory[..4]);
    memory[0] as int + memory[1] as int * 0x100 +
    memory[2] as int * 0x1_0000 + memory[3] as int * 0x100_0000
  }

  function GetLE64(memory: seq<Byte>): (v: nat)
    requires |memory| >= 8
    ensures v == FromLittleEndian(memory[..8])
  {
    OctetSumLittle(memory[..8]);
    QuadSum(memory[..8][4..]);
    memory[0] as int + memory[1] as int * 0x100 +
    memory[2] as int * 0x1_0000 + memory[3] as int * 0x100_0000 +
    memory[4] as int * 0x1_0000_0000 + memory[5] as int * 0x100_0000_0000 +
    memory[6] as int * 0x1_0000_0000_0000 + memory[7] as int * 0x100_0000_0000_0000
  }

  // ---------------------------------------------------------------- host and network order

  /** The bytes of a `width`-byte integer as the host keeps it in memory. */
  function HostImage(n: nat, width: nat, bigEndianHost: bool): (image: seq<Byte>)
    ensures |image| == width
  {
    if bigEndianHost then BigEndian(n, width) else LittleEndian(n, width)
  }

  function FromHostImage(image: seq<Byte>, bigEndianHost: bool): (n: nat)
    ensures n < Range(|image|)
  {
    if bigEndianHost then FromBigEndian(image) else FromLittleEndian(image)
  }

  /** The result of storing `n` most significant byte first and reading it as a host integer. */
  function HostToNetwork(n: nat, width: nat, bigEndianHost: bool): nat {
    FromHostImage(BigEndian(n, width), bigEndianHost)
  }

  function NetworkToHost(n: nat, width: nat, bigEndianHost: bool): nat {
    FromBigEndian(HostImage(n, width, bigEndianHost))
  }

  /** Whatever the host, a converted number lies in memory most significant byte first. */
  lemma NetworkImage(n: nat, width: nat, bigEndianHost: bool)
    ensures HostImage(HostToNetwork(n, width, bigEndianHost), width, bigEndianHost) == BigEndian(n, width)
  {
    WriteBackBig(BigEndian(n, width));
    WriteBackLittle(BigEndian(n, width));
  }

  /** The two conversions are inverse to each other on numbers that fit, and do nothing on a
      big-endian host. */
  lemma HostNetworkInverse(n: nat, width: nat, bigEndianHost: bool)
    requires n < Range(width)
    ensures NetworkToHost(HostToNetwork(n, width, bigEndianHost), width, bigEndianHost) == n
    ensures HostToNetwork(NetworkToHost(n, width, bigEndianHost), width, bigEndianHost) == n
    ensures bigEndianHost ==> HostToNetwork(n, width, bigEndianHost) == n
  {
    ReadBackExact(n, width);
    NetworkImage(n, width, bigEndianHost);
    var image := HostImage(n, width, bigEndianHost);
    assert BigEndian(FromBigEndian(image), width) == image by { WriteBackBig(image); }
    assert FromHostImage(image, bigEndianHost) == n;
  }
}
