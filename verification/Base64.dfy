/** Base64 as in sections 3.5 and 4 of RFC 4648: the encoder, and a decoder whose flags choose what
    it skips, whether it wants padding and where it may stop.

    Characters and bytes are both numbers below 256. Shifts and masks by constants are written as
    divisions and remainders, and the bitwise or of disjoint bits as a sum.
 */
module Base64 {
  import opened ByteOrder
  import opened Sequences

  datatype ParseMode = ParseStrict | ParseWhite | ParseAny
  datatype PadMode = PadYes | PadAny | PadNo
  datatype TermMode = TermBuffer | TermChar | TermAny

  datatype DecodeFlags = DecodeFlags(parse: ParseMode, pad: PadMode, term: TermMode)

  const DO_STRICT: DecodeFlags := DecodeFlags(ParseStrict, PadYes, TermBuffer)
  const DO_LAX: DecodeFlags := DecodeFlags(ParseAny, PadAny, TermChar)

  // ---------------------------------------------------------------- the tables

  const PAD: Byte := 61  // '='

  /** Entries of the decode table that are not sextets. */
  const PADDING: Byte := 0xFD
  const SPACE: Byte := 0xFE
  const ILLEGAL: Byte := 0xFF

  type Sextet = x: nat | x < 64

  function Base64Table(i: Sextet): Byte {
    if i < 26 then 65 + i            // 'A' ..
    else if i < 52 then 97 + i - 26  // 'a' ..
    else if i < 62 then 48 + i - 52  // '0' ..
    else if i == 62 then 43          // '+'
    else 47                          // '/'
  }

  function DecodeTable(ch: Byte): Byte {
    if 65 <= ch <= 90 then ch - 65
    else if 97 <= ch <= 122 then ch - 97 + 26
    else if 48 <= ch <= 57 then ch - 48 + 52
    else if ch == 43 then 62
    else if ch == 47 then 63
    else if ch == PAD then PADDING
    else if 9 <= ch <= 13 || ch == 32 then SPACE
    else ILLEGAL
  }

  predicate IsBase64Char(ch: Byte) {
    65 <= ch <= 90 || 97 <= ch <= 122 || 48 <= ch <= 57 || ch == 43 || ch == 47
  }

  predicate IsSpace(ch: Byte) { DecodeTable(ch) == SPACE }

  /** The two tables are inverse to each other on the alphabet. */
  lemma TablesInverse(i: Sextet, ch: Byte)
    ensures IsBase64Char(Base64Table(i)) && DecodeTable(Base64Table(i)) == i
    ensures IsBase64Char(ch) <==> DecodeTable(ch) < 64
    ensures IsBase64Char(ch) ==> Base64Table(DecodeTable(ch)) == ch
    ensures DecodeTable(ch) < 64 || DecodeTable(ch) in {PADDING, SPACE, ILLEGAL}
    ensures DecodeTable(ch) == PADDING <==> ch == PAD
  {
  }

  lemma Letters(i: nat)
    requires i < 26
    ensures "ABCDEFGHIJKLMNOPQRSTUVWXYZ"[i] as int == 65 + i && "abcdefghijklmnopqrstuvwxyz"[i] as int == 97 + i
  {
  }

  lemma Digit(i: nat)
    requires i < 10
    ensures "0123456789"[i] as int == 48 + i
  {
  }

  /** The alphabet of table 1 of RFC 4648. */
  lemma Alphabet(i: Sextet)
    ensures
      var alphabet := "ABCDEFGHIJKLMNOPQRSTUVWXYZ" + ("abcdefghijklmnopqrstuvwxyz" + ("0123456789" + "+/"));
      |alphabet| == 64 && Base64Table(i) == alphabet[i] as int
  {
    if i < 52 {
      Letters(i % 26);
    } else if i < 62 {
      Digit(i - 52);
    }
  }

  /** Tab, line feed, vertical tab, form feed, carriage return and space. */
  const WHITE: set<Byte> := {9, 10, 11, 12, 13, 32}

  lemma SpacesExactly(ch: Byte)
    ensures IsSpace(ch) <==> ch in WHITE
  {
  }

  // ---------------------------------------------------------------- encoding

  /** The characters for up to three bytes, without padding. */
  function Sextets(d: seq<Byte>): (q: seq<Sextet>)
    requires 1 <= |d| <= 3
    ensures |q| == |d| + 1
  {
    if |d| == 1 then [d[0] / 4, d[0] % 4 * 16]
    else if |d| == 2 then [d[0] / 4, d[0] % 4 * 16 + d[1] / 16, d[1] % 16 * 4]
    else [d[0] / 4, d[0] % 4 * 16 + d[1] / 16, d[1] % 16 * 4 + d[2] / 64, d[2] % 64]
  }

  function Chars(q: seq<Sextet>): (s: seq<Byte>)
    ensures |s| == |q|
  {
    if q == [] then [] else [Base64Table(q[0])] + Chars(q[1..])
  }

  function Pads(n: nat): (s: seq<Byte>)
    ensures |s| == n
  {
    if n == 0 then [] else [PAD] + Pads(n - 1)
  }

  /** Section 4 of RFC 4648: groups of three bytes, the last one padded to four characters. */
  function Encode(d: seq<Byte>): seq<Byte> {
    if d == [] then []
    else if |d| < 3 then Chars(Sextets(d)) + Pads(3 - |d|)
    else Chars(Sextets(d[..3])) + Encode(d[3..])
  }

  /** Vectors of section 10 of RFC 4648: "f", "fo", "foo" and "foobar" give "Zg==", "Zm8=", "Zm9v"
      and "Zm9vYmFy". */
  lemma KnownEncodings()
    ensures Encode([102]) == [90, 103, 61, 61] && Encode([102, 111]) == [90, 109, 56, 61]
    ensures Encode([102, 111, 111]) == [90, 109, 57, 118]
    ensures Encode([102, 111, 111, 98, 97, 114]) == [90, 109, 57, 118, 89, 109, 70, 121]
  {
    EncodeOne(102, 90, 103);
    EncodeTwo(102, 111, 90, 109, 56);
    EncodeThree([102, 111, 111], [], [90, 109, 57, 118]);
    EncodeThree([98, 97, 114], [], [89, 109, 70, 121]);
    EncodeThree([102, 111, 111], [98, 97, 114], [90, 109, 57, 118]);
    assert [102, 111, 111] + [] == [102, 111, 111] && [98, 97, 114] + [] == [98, 97, 114];
    assert [102, 111, 111] + [98, 97, 114] == [102, 111, 111, 98, 97, 114];
  }

  lemma EncodeOne(x: Byte, a: Byte, b: Byte)
    requires a == Base64Table(x / 4) && b == Base64Table(x % 4 * 16)
    ensures Encode([x]) == [a, b, 61, 61]
  {
    CharsAt(Sextets([x]));
    PadsAt(2);
  }

  lemma EncodeTwo(x: Byte, y: Byte, a: Byte, b: Byte, c: Byte)
    requires a == Base64Table(x / 4) && b == Base64Table(x % 4 * 16 + y / 16) && c == Base64Table(y % 16 * 4)
    ensures Encode([x, y]) == [a, b, c, 61]
  {
    CharsAt(Sextets([x, y]));
    PadsAt(1);
  }

  lemma EncodeThree(d: seq<Byte>, rest: seq<Byte>, s: seq<Byte>)
    requires |d| == 3 && |s| == 4
    requires s[0] == Base64Table(d[0] / 4) && s[1] == Base64Table(d[0] % 4 * 16 + d[1] / 16)
    requires s[2] == Base64Table(d[1] % 16 * 4 + d[2] / 64) && s[3] == Base64Table(d[2] % 64)
    ensures Encode(d + rest) == s + Encode(rest)
  {
    assert (d + rest)[..3] == d && (d + rest)[3..] == rest;
    CharsAt(Sextets(d));
    assert Chars(Sextets(d)) == s;
  }

  // ---------------------------------------------------------------- decoding one quantum

  /** The sextets collected, the padding seen after them, what is left of the text, and the text
      from the first of those pads on. */
  datatype Scanned = Scanned(q: seq<Sextet>, pads: nat, rest: seq<Byte>, atPad: seq<Byte>)

  predicate Collecting(q: seq<Sextet>, pads: nat) {
    |q| + pads <= 4 && (pads > 0 ==> |q| >= 2)
  }

  /** What is done with the next character when `have` sextets and then `pads` pads were seen. */
  datatype Action = Stop | Skip | CountPad | Collect(x: Sextet)

  function Act(parse: ParseMode, illegalPads: bool, ch: Byte, have: nat, pads: nat): (act: Action)
    ensures act.CountPad? ==> 2 <= have && have + pads < 4
  {
    var x := DecodeTable(ch);
    if x == ILLEGAL || (illegalPads && x == PADDING) then if parse != ParseAny then Stop else Skip
    else if x == SPACE then if parse == ParseStrict then Stop else Skip
    else if x == PADDING then
      if have < 2 || have + pads >= 4 then if parse != ParseAny then Stop else Skip
      else CountPad
    else if pads > 0 && parse != ParseAny then Stop
    else Collect(x)
  }

  function Scan(parse: ParseMode, illegalPads: bool, text: seq<Byte>, q: seq<Sextet>, pads: nat,
        atPad: seq<Byte>): (r: Scanned)
    requires Collecting(q, pads)
    ensures Collecting(r.q, r.pads)
    ensures |q| <= |r.q| && |r.rest| + (|r.q| - |q|) <= |text|
    ensures |r.q| == 4 ==> r.pads == 0
    decreases |text|
  {
    if |q| == 4 || text == [] then Scanned(q, pads, text, atPad)
    else
      match Act(parse, illegalPads, text[0], |q|, pads)
      case Stop => Scanned(q, pads, text, atPad)
      case Skip => Scan(parse, illegalPads, text[1..], q, pads, atPad)
      case CountPad => Scan(parse, illegalPads, text[1..], q, pads + 1, if pads == 0 then text else atPad)
      case Collect(x) => Scan(parse, illegalPads, text[1..], q + [x], 0, atPad)
  }

  datatype Quantum = Quantum(q: seq<Sextet>, padded: bool, rest: seq<Byte>)

  /** Padding that does not complete a quantum is given back. */
  function NextQuantum(parse: ParseMode, illegalPads: bool, text: seq<Byte>): (r: Quantum)
    ensures |r.q| <= 4 && (|r.q| == 4 ==> r.padded && |r.rest| + 4 <= |text|)
    ensures r.padded ==> |r.q| >= 2
  {
    var s := Scan(parse, illegalPads, text, [], 0, text);
    if |s.q| + s.pads == 4 then Quantum(s.q, true, s.rest)
    else Quantum(s.q, false, if s.pads > 0 then s.atPad else s.rest)
  }

  // ---------------------------------------------------------------- decoding a text

  /** The complete bytes in up to four sextets. */
  function Bytes(q: seq<Sextet>): (d: seq<Byte>)
    requires |q| <= 4
    ensures |d| == if |q| < 2 then 0 else |q| - 1
  {
    if |q| < 2 then []
    else if |q| == 2 then [q[0] as int * 4 + q[1] / 16]
    else if |q| == 3 then [q[0] as int * 4 + q[1] / 16, q[1] as int % 16 * 16 + q[2] / 4]
    else [q[0] as int * 4 + q[1] / 16, q[1] as int % 16 * 16 + q[2] / 4, q[2] as int % 4 * 64 + q[3]]
  }

  /** The bits after the last complete byte, at the top of a byte. */
  function Unused(q: seq<Sextet>): Byte
    requires |q| <= 4
  {
    if |q| == 0 || |q| == 4 then 0
    else if |q| == 1 then q[0] as int * 4
    else if |q| == 2 then q[1] as int % 16 * 16
    else q[2] as int % 4 * 64
  }

  datatype Decoded = Decoded(bytes: seq<Byte>, success: bool, rest: seq<Byte>)

  predicate GoodEnd(flags: DecodeFlags, r: Quantum)
    requires |r.q| <= 4
  {
    && (flags.term == TermAny || Unused(r.q) == 0)
    && (flags.pad == PadYes ==> r.padded)
  }

  function DecodeQuanta(flags: DecodeFlags, text: seq<Byte>): (d: Decoded)
    decreases |text|
  {
    if text == [] then Decoded([], true, [])
    else
      var r := NextQuantum(flags.parse, flags.pad == PadNo, text);
      if |r.q| < 4 then Decoded(Bytes(r.q), GoodEnd(flags, r), r.rest)
      else
        var more := DecodeQuanta(flags, r.rest);
        more.(bytes := Bytes(r.q) + more.bytes)
  }

  function Decode(flags: DecodeFlags, text: seq<Byte>): Decoded {
    var d := DecodeQuanta(flags, text);
    d.(success := d.success && (flags.term == TermBuffer ==> d.rest == []))
  }

  // ---------------------------------------------------------------- strict decoding is a bijection

  lemma SextetsOfBytes(d: seq<Byte>)
    requires 1 <= |d| <= 3
    ensures Bytes(Sextets(d)) == d && (|d| < 3 ==> Unused(Sextets(d)) == 0)
  {
  }

  lemma SplitByte(a: Sextet, b: Sextet)
    ensures (a as int * 4 + b / 16) / 4 == a
    ensures (a as int * 4 + b / 16) % 4 * 16 + b % 16 == b
  {
  }

  lemma SplitByte2(b: Sextet, c: Sextet)
    ensures (b as int % 16 * 16 + c / 4) / 16 == b % 16
    ensures (b as int % 16 * 16 + c / 4) % 16 * 4 + c % 4 == c
  {
  }

  lemma SplitByte3(c: Sextet, d: Sextet)
    ensures (c as int % 4 * 64 + d) / 64 == c % 4
    ensures (c as int % 4 * 64 + d) % 64 == d
  {
  }

  lemma BytesOfSextets(q: seq<Sextet>)
    requires 2 <= |q| <= 4 && Unused(q) == 0
    ensures Sextets(Bytes(q)) == q
  {
    SplitByte(q[0], q[1]);
    if |q| > 2 {
      SplitByte2(q[1], q[2]);
    }
    if |q| > 3 {
      SplitByte3(q[2], q[3]);
    }
  }

  /** Characters of the alphabet are collected one by one in every mode. */
  lemma {:induction false} ScanChars(parse: ParseMode, illegalPads: bool, chars: seq<Sextet>, rest: seq<Byte>,
        q: seq<Sextet>, atPad: seq<Byte>)
    requires |q| + |chars| <= 4
    ensures Scan(parse, illegalPads, Chars(chars) + rest, q, 0, atPad)
         == Scan(parse, illegalPads, rest, q + chars, 0, atPad)
    decreases |chars|
  {
    if chars == [] {
      assert Chars(chars) + rest == rest && q + chars == q;
    } else {
      var text := Chars(chars) + rest;
      assert text[0] == Base64Table(chars[0]) && text[1..] == Chars(chars[1..]) + rest;
      ScanChar(parse, illegalPads, text, chars[0], q, atPad);
      ScanChars(parse, illegalPads, chars[1..], rest, q + [chars[0]], atPad);
      assert q + [chars[0]] + chars[1..] == q + chars;
    }
  }

  lemma ScanChar(parse: ParseMode, illegalPads: bool, text: seq<Byte>, x: Sextet, q: seq<Sextet>, atPad: seq<Byte>)
    requires |q| < 4 && text != [] && text[0] == Base64Table(x)
    ensures Scan(parse, illegalPads, text, q, 0, atPad) == Scan(parse, illegalPads, text[1..], q + [x], 0, atPad)
  {
    TablesInverse(x, 0);
  }

  lemma {:induction false} ScanPads(parse: ParseMode, n: nat, q: seq<Sextet>, pads: nat, atPad: seq<Byte>)
    requires 2 <= |q| < 4 && |q| + pads + n == 4
    ensures var r := Scan(parse, false, Pads(n), q, pads, atPad);
      r.q == q && r.pads == pads + n && r.rest == []
    decreases n
  {
    if n > 0 {
      assert Pads(n)[1..] == Pads(n - 1);
      ScanPads(parse, n - 1, q, pads + 1, if pads == 0 then Pads(n) else atPad);
    }
  }

  lemma ScanLast(parse: ParseMode, d: seq<Byte>, text: seq<Byte>)
    requires 1 <= |d| < 3 && text == Encode(d)
    ensures NextQuantum(parse, false, text) == Quantum(Sextets(d), true, [])
  {
    var q := Sextets(d);
    ScanChars(parse, false, q, Pads(3 - |d|), [], text);
    assert [] + q == q;
    ScanPads(parse, 3 - |d|, q, 0, text);
  }

  lemma ScanGroup(parse: ParseMode, illegalPads: bool, d: seq<Byte>, text: seq<Byte>)
    requires |d| >= 3 && text == Encode(d)
    ensures NextQuantum(parse, illegalPads, text) == Quantum(Sextets(d[..3]), true, Encode(d[3..]))
  {
    var q := Sextets(d[..3]);
    ScanChars(parse, illegalPads, q, Encode(d[3..]), [], text);
    assert [] + q == q;
  }

  lemma DecodeGroup(flags: DecodeFlags, d: seq<Byte>, text: seq<Byte>)
    requires |d| >= 3 && text == Encode(d)
    ensures var more := DecodeQuanta(flags, Encode(d[3..]));
      DecodeQuanta(flags, text) == Decoded(d[..3] + more.bytes, more.success, more.rest)
  {
    ScanGroup(flags.parse, flags.pad == PadNo, d, text);
    SextetsOfBytes(d[..3]);
    var r := NextQuantum(flags.parse, flags.pad == PadNo, text);
    FullQuantum(flags, text, r);
  }

  lemma {:induction false} DecodePadded(flags: DecodeFlags, d: seq<Byte>)
    requires flags.pad != PadNo || |d| % 3 == 0
    ensures Decode(flags, Encode(d)) == Decoded(d, true, [])
    decreases |d|
  {
    if d != [] {
      var text := Encode(d);
      if |d| < 3 {
        ScanLast(flags.parse, d, text);
        SextetsOfBytes(d);
        OneQuantum(flags, text, Quantum(Sextets(d), true, []));
      } else {
        DecodePadded(flags, d[3..]);
        DecodeGroup(flags, d, text);
      }
    }
  }

  /** Pads that are illegal end a scan, unless everything illegal is skipped. */
  function PadsLeft(parse: ParseMode, n: nat): seq<Byte> { if parse == ParseAny then [] else Pads(n) }

  lemma {:induction false} ScanIllegalPads(parse: ParseMode, n: nat, q: seq<Sextet>, atPad: seq<Byte>)
    requires 2 <= |q| < 4
    ensures Scan(parse, true, Pads(n), q, 0, atPad) == Scanned(q, 0, PadsLeft(parse, n), atPad)
    decreases n
  {
    if n > 0 {
      assert Pads(n)[1..] == Pads(n - 1);
      if parse == ParseAny {
        ScanIllegalPads(parse, n - 1, q, atPad);
      }
    }
  }

  lemma ScanLastUnpadded(parse: ParseMode, d: seq<Byte>, text: seq<Byte>)
    requires 1 <= |d| < 3 && text == Encode(d)
    ensures NextQuantum(parse, true, text) == Quantum(Sextets(d), false, PadsLeft(parse, 3 - |d|))
  {
    var q := Sextets(d);
    ScanChars(parse, true, q, Pads(3 - |d|), [], text);
    assert [] + q == q;
    ScanIllegalPads(parse, 3 - |d|, q, text);
  }

  lemma DecodeUnpaddedLast(flags: DecodeFlags, d: seq<Byte>)
    requires flags.pad == PadNo && 1 <= |d| < 3
    ensures DecodeQuanta(flags, Encode(d)) == Decoded(d, true, PadsLeft(flags.parse, 3 - |d|))
  {
    var text, r := Encode(d), Quantum(Sextets(d), false, PadsLeft(flags.parse, 3 - |d|));
    ScanLastUnpadded(flags.parse, d, text);
    SextetsOfBytes(d);
    OneQuantum(flags, text, r);
    assert GoodEnd(flags, r);
  }

  lemma JoinGroup(d: seq<Byte>, first: seq<Byte>, rest: seq<Byte>)
    requires |d| >= 3 && first == d[..3] && rest == d[3..]
    ensures first + rest == d && |rest| % 3 == |d| % 3
  {
  }

  lemma {:induction false} DecodeUnpadded(flags: DecodeFlags, d: seq<Byte>, text: seq<Byte>, left: nat)
    requires flags.pad == PadNo && |d| % 3 != 0 && text == Encode(d) && left == 3 - |d| % 3
    ensures DecodeQuanta(flags, text) == Decoded(d, true, PadsLeft(flags.parse, left))
    decreases |d|
  {
    if |d| < 3 {
      DecodeUnpaddedLast(flags, d);
    } else {
      var rest := d[3..];
      JoinGroup(d, d[..3], rest);
      DecodeUnpadded(flags, rest, Encode(rest), left);
      DecodeGroup(flags, d, text);
    }
  }

  /** Whatever is skipped and wherever decoding may stop, an encoded text decodes to the bytes it
      came from, and none of it is left, exactly when its padding is allowed, not there or skipped as
      illegal. */
  lemma DecodeEncode(flags: DecodeFlags, d: seq<Byte>)
    ensures Decode(flags, Encode(d)) == Decoded(d, true, [])
      <==> flags.pad != PadNo || |d| % 3 == 0 || flags.parse == ParseAny
  {
    if flags.pad != PadNo || |d| % 3 == 0 {
      DecodePadded(flags, d);
    } else {
      DecodeUnpadded(flags, d, Encode(d), 3 - |d| % 3);
    }
  }

  lemma {:induction false} StrictScanGrows(illegalPads: bool, text: seq<Byte>, q: seq<Sextet>, pads: nat,
        atPad: seq<Byte>)
    requires Collecting(q, pads)
    ensures var r := Scan(ParseStrict, illegalPads, text, q, pads, atPad);
      q <= r.q && pads <= r.pads && (pads > 0 ==> r.q == q)
    decreases |text|
  {
    if |q| < 4 && text != [] {
      StrictAct(illegalPads, text[0], |q|, pads);
      match Act(ParseStrict, illegalPads, text[0], |q|, pads)
      case CountPad => StrictScanGrows(illegalPads, text[1..], q, pads + 1, if pads == 0 then text else atPad);
      case Collect(x) => StrictScanGrows(illegalPads, text[1..], q + [x], 0, atPad);
      case _ =>
    }
  }

  /** The text between the start of a scan at `q` and `pads` and its end at `r`. */
  ghost predicate Spans(text: seq<Byte>, q: seq<Sextet>, pads: nat, r: Scanned) {
    q <= r.q && pads <= r.pads && text == Chars(r.q[|q|..]) + Pads(r.pads - pads) + r.rest
  }

  /** A strict scan consumes exactly the characters of the sextets it collects and the pads it
      counts. */
  lemma {:induction false} StrictScanShape(illegalPads: bool, text: seq<Byte>, q: seq<Sextet>, pads: nat,
        atPad: seq<Byte>)
    requires Collecting(q, pads)
    ensures Spans(text, q, pads, Scan(ParseStrict, illegalPads, text, q, pads, atPad))
    decreases |text|
  {
    var r := Scan(ParseStrict, illegalPads, text, q, pads, atPad);
    StrictScanGrows(illegalPads, text, q, pads, atPad);
    if |q| < 4 && text != [] {
      StrictAct(illegalPads, text[0], |q|, pads);
      match Act(ParseStrict, illegalPads, text[0], |q|, pads)
      case CountPad =>
        var atPad' := if pads == 0 then text else atPad;
        StrictScanGrows(illegalPads, text[1..], q, pads + 1, atPad');
        StrictScanShape(illegalPads, text[1..], q, pads + 1, atPad');
        PrependPad(text, q, r, pads);
        return;
      case Collect(x) =>
        StrictScanShape(illegalPads, text[1..], q + [x], 0, atPad);
        PrependChar(text, q, x, r);
        return;
      case _ =>
    }
    assert r.q[|q|..] == [];
  }

  lemma PrependPad(text: seq<Byte>, q: seq<Sextet>, r: Scanned, pads: nat)
    requires text != [] && text[0] == PAD && r.q == q && Spans(text[1..], q, pads + 1, r)
    ensures Spans(text, q, pads, r)
  {
    assert r.q[|q|..] == [];
    assert text == [PAD] + text[1..];
  }

  lemma PrependChar(text: seq<Byte>, q: seq<Sextet>, x: Sextet, r: Scanned)
    requires text != [] && text[0] == Base64Table(x) && Spans(text[1..], q + [x], 0, r)
    ensures Spans(text, q, 0, r)
  {
    var more := r.q[|q|..];
    assert more[0] == x && more[1..] == r.q[|q| + 1..];
    assert text == [text[0]] + text[1..];
  }

  lemma StrictAct(illegalPads: bool, ch: Byte, have: nat, pads: nat)
    ensures match Act(ParseStrict, illegalPads, ch, have, pads)
      case Collect(x) => ch == Base64Table(x) && pads == 0
      case CountPad => ch == PAD
      case act => act == Stop
  {
    TablesInverse(0, ch);
  }

  lemma EncodeDecodeLast(text: seq<Byte>, r: Quantum)
    requires text != [] && Decode(DO_STRICT, text).success
    requires r == NextQuantum(ParseStrict, false, text) && |r.q| < 4
    ensures text == Encode(Decode(DO_STRICT, text).bytes)
  {
    OneQuantum(DO_STRICT, text, r);
    StrictQuantum(text);
    BytesOfSextets(r.q);
    assert text == Chars(r.q) + Pads(4 - |r.q|);
  }

  lemma EncodeDecodeFirst(text: seq<Byte>, r: Quantum)
    requires text != [] && Decode(DO_STRICT, text).success
    requires r == NextQuantum(ParseStrict, false, text) && |r.q| == 4
    ensures Decode(DO_STRICT, r.rest).success
    ensures r.rest == Encode(Decode(DO_STRICT, r.rest).bytes) ==> text == Encode(Decode(DO_STRICT, text).bytes)
  {
    FullQuantum(DO_STRICT, text, r);
    StrictQuantum(text);
    BytesOfSextets(r.q);
    var bytes := Decode(DO_STRICT, text).bytes;
    assert bytes[..3] == Bytes(r.q) && bytes[3..] == Decode(DO_STRICT, r.rest).bytes;
  }

  /** The converse: whatever decodes strictly is the encoding of what it decodes to, so no two
      texts decode to the same bytes. */
  lemma {:induction false} EncodeDecode(text: seq<Byte>)
    requires Decode(DO_STRICT, text).success
    ensures text == Encode(Decode(DO_STRICT, text).bytes)
    decreases |text|
  {
    if text != [] {
      var r := NextQuantum(ParseStrict, false, text);
      if |r.q| < 4 {
        EncodeDecodeLast(text, r);
      } else {
        EncodeDecodeFirst(text, r);
        EncodeDecode(r.rest);
      }
    }
  }

  lemma StrictQuantum(text: seq<Byte>)
    ensures var r := NextQuantum(ParseStrict, false, text);
      r.padded ==> |r.q| >= 2 && text == Chars(r.q) + Pads(4 - |r.q|) + r.rest
  {
    var s := Scan(ParseStrict, false, text, [], 0, text);
    StrictScanShape(false, text, [], 0, text);
    assert s.q[0..] == s.q;
  }

  /** Strict decoding succeeds exactly on the encodings. */
  lemma StrictIsCanonical(text: seq<Byte>, d: seq<Byte>)
    ensures Decode(DO_STRICT, text).success && Decode(DO_STRICT, text).bytes == d <==> text == Encode(d)
  {
    if Decode(DO_STRICT, text).success {
      EncodeDecode(text);
    }
    DecodeEncode(DO_STRICT, d);
  }

  // ---------------------------------------------------------------- parsing anything

  /** The characters of the alphabet in a text. */
  function Alphabetic(text: seq<Byte>): seq<Byte> {
    if text == [] then []
    else (if IsBase64Char(text[0]) then [text[0]] else []) + Alphabetic(text[1..])
  }

  lemma AlphabeticUnfold(text: seq<Byte>)
    requires text != []
    ensures IsBase64Char(text[0]) ==>
      Alphabetic(text) != [] && Alphabetic(text)[0] == text[0] && Alphabetic(text)[1..] == Alphabetic(text[1..])
    ensures !IsBase64Char(text[0]) ==> Alphabetic(text) == Alphabetic(text[1..])
  {
  }

  /** A scan that skips everything collects the same sextets from the alphabetic characters alone,
      and stops at corresponding places. */
  lemma {:induction false} ScanAlphabetic(illegalPads: bool, text: seq<Byte>, q: seq<Sextet>, pads: nat,
        atPad: seq<Byte>, atPad': seq<Byte>)
    requires Collecting(q, pads)
    ensures var r, r' := Scan(ParseAny, illegalPads, text, q, pads, atPad),
                         Scan(ParseAny, illegalPads, Alphabetic(text), q, 0, atPad');
      r'.q == r.q && r'.pads == 0 && r'.rest == Alphabetic(r.rest)
    decreases |text|
  {
    if |q| < 4 && text != [] {
      ActOnAny(illegalPads, text[0], |q|, pads);
      AlphabeticUnfold(text);
      match Act(ParseAny, illegalPads, text[0], |q|, pads)
      case Collect(x) => ScanAlphabetic(illegalPads, text[1..], q + [x], 0, atPad, atPad');
      case CountPad =>
        ScanAlphabetic(illegalPads, text[1..], q, pads + 1, if pads == 0 then text else atPad, atPad');
      case Skip => ScanAlphabetic(illegalPads, text[1..], q, pads, atPad, atPad');
    }
  }

  lemma {:induction false} ScanToEnd(illegalPads: bool, text: seq<Byte>, q: seq<Sextet>, pads: nat, atPad: seq<Byte>)
    requires Collecting(q, pads)
    ensures var r := Scan(ParseAny, illegalPads, text, q, pads, atPad);
      (|r.q| < 4 ==> r.rest == []) && (illegalPads && pads == 0 ==> r.pads == 0)
    decreases |text|
  {
    if |q| < 4 && text != [] {
      ActOnAny(illegalPads, text[0], |q|, pads);
      match Act(ParseAny, illegalPads, text[0], |q|, pads)
      case Collect(x) => ScanToEnd(illegalPads, text[1..], q + [x], 0, atPad);
      case CountPad => ScanToEnd(illegalPads, text[1..], q, pads + 1, if pads == 0 then text else atPad);
      case Skip => ScanToEnd(illegalPads, text[1..], q, pads, atPad);
    }
  }

  lemma ActOnAny(illegalPads: bool, ch: Byte, have: nat, pads: nat)
    ensures var act := Act(ParseAny, illegalPads, ch, have, pads);
      && (IsBase64Char(ch) <==> act.Collect?) && act != Stop
      && (act.Collect? ==> act == Act(ParseAny, illegalPads, ch, have, 0))
      && (illegalPads ==> act != CountPad)
  {
    TablesInverse(0, ch);
  }

  /** The modes whose outcome junk, whitespace and pads cannot change. */
  predicate IgnoresJunk(flags: DecodeFlags) {
    flags.parse == ParseAny && (flags.pad == PadNo || (flags.pad == PadAny && flags.term != TermBuffer))
  }

  predicate SameOutcome(flags: DecodeFlags, s: seq<Byte>, t: seq<Byte>) {
    Decode(flags, s).bytes == Decode(flags, t).bytes && Decode(flags, s).success == Decode(flags, t).success
  }

  lemma {:induction false} DecodeAlphabetic(flags: DecodeFlags, text: seq<Byte>)
    requires IgnoresJunk(flags)
    ensures SameOutcome(flags, text, Alphabetic(text))
    ensures flags.pad == PadNo ==> DecodeQuanta(flags, text).rest == []
    ensures flags.pad == PadNo ==> DecodeQuanta(flags, Alphabetic(text)).rest == []
    decreases |text|
  {
    if text != [] {
      var illegalPads, chars := flags.pad == PadNo, Alphabetic(text);
      ScanAlphabetic(illegalPads, text, [], 0, text, chars);
      ScanToEnd(illegalPads, text, [], 0, text);
      ScanToEnd(illegalPads, chars, [], 0, chars);
      var r, r' := NextQuantum(ParseAny, illegalPads, text), NextQuantum(ParseAny, illegalPads, chars);
      if |r.q| == 4 {
        DecodeAlphabetic(flags, r.rest);
        FullQuantum(flags, text, r);
        FullQuantum(flags, chars, r');
      } else {
        OneQuantum(flags, text, r);
        if chars != [] {
          OneQuantum(flags, chars, r');
        }
      }
    }
  }

  /** Under `DO_LAX` the decoded bytes and the success flag depend only on the alphabetic
      characters: junk, whitespace and pads inserted anywhere change nothing. */
  lemma LaxIgnoresJunk(text: seq<Byte>, text': seq<Byte>)
    requires Alphabetic(text) == Alphabetic(text')
    ensures SameOutcome(DO_LAX, text, text')
  {
    DecodeAlphabetic(DO_LAX, text);
    DecodeAlphabetic(DO_LAX, text');
  }

  lemma OneQuantum(flags: DecodeFlags, text: seq<Byte>, r: Quantum)
    requires text != [] && r == NextQuantum(flags.parse, flags.pad == PadNo, text) && |r.q| < 4
    ensures DecodeQuanta(flags, text) == Decoded(Bytes(r.q), GoodEnd(flags, r), r.rest)
  {
  }

  /** `IgnoresJunk` is exact among all the modes: one that does not parse anything stops at an
      illegal character, one that wants padding rejects a space after a full quantum, and one that
      must reach the end of the buffer rejects a single pad where two are due. */
  lemma IgnoresJunkExactly(flags: DecodeFlags)
    ensures (forall text :: SameOutcome(flags, text, Alphabetic(text))) <==> IgnoresJunk(flags)
  {
    if IgnoresJunk(flags) {
      forall text
        ensures SameOutcome(flags, text, Alphabetic(text))
      {
        DecodeAlphabetic(flags, text);
      }
    } else if flags.parse != ParseAny {
      IllegalFirst(flags);
    } else if flags.pad == PadYes {
      var junk: seq<Byte> := [32];
      assert Scan(ParseAny, false, [], [], 0, junk) == Scanned([], 0, [], junk);
      assert NextQuantum(ParseAny, false, junk) == Quantum([], false, []);
      OneQuantum(flags, junk, Quantum([], false, []));
      assert Alphabetic(junk) == [];
      assert !SameOutcome(flags, junk, Alphabetic(junk));
    } else {
      SinglePad(flags);
    }
  }

  /** A character no decoder skips, in front of a full group. */
  lemma IllegalFirst(flags: DecodeFlags)
    requires flags.parse != ParseAny
    ensures exists text :: !SameOutcome(flags, text, Alphabetic(text))
  {
    var zeros: seq<Byte> := [0, 0, 0];
    var group := Encode(zeros);
    var text: seq<Byte> := [33] + group;
    var illegalPads := flags.pad == PadNo;
    assert Act(flags.parse, illegalPads, text[0], 0, 0) == Stop;
    assert Scan(flags.parse, illegalPads, text, [], 0, text) == Scanned([], 0, text, text);
    OneQuantum(flags, text, Quantum([], false, text));
    GroupAlphabetic(zeros);
    assert text[1..] == group;
    assert Alphabetic(text) == group;
    DecodePadded(flags, zeros);
    assert !SameOutcome(flags, text, Alphabetic(text));
  }

  lemma GroupAlphabetic(d: seq<Byte>)
    requires |d| == 3
    ensures Alphabetic(Encode(d)) == Encode(d)
  {
    var q := Sextets(d);
    assert d[..3] == d;
    assert Encode(d) == Chars(q) + [];
    AlphabeticChars(q, []);
  }

  lemma ScanTwo(q: seq<Sextet>, rest: seq<Byte>)
    requires |q| == 2 && (rest == [] || rest == [PAD])
    ensures NextQuantum(ParseAny, false, Chars(q) + rest) == Quantum(q, false, rest)
  {
    var text := Chars(q) + rest;
    ScanChars(ParseAny, false, q, rest, [], text);
    assert [] + q == q;
    if rest == [PAD] {
      OnePad(q, rest);
    }
  }

  lemma OnePad(q: seq<Sextet>, rest: seq<Byte>)
    requires |q| == 2 && rest == [PAD]
    ensures forall atPad :: Scan(ParseAny, false, rest, q, 0, atPad) == Scanned(q, 1, [], rest)
  {
    assert DecodeTable(PAD) == PADDING;
    assert rest[1..] == [];
  }

  lemma SinglePad(flags: DecodeFlags)
    requires flags == DecodeFlags(ParseAny, PadAny, TermBuffer)
    ensures exists text :: !SameOutcome(flags, text, Alphabetic(text))
  {
    var q: seq<Sextet> := [16, 16];
    var text, chars := Chars(q) + [PAD], Chars(q) + [];
    ScanTwo(q, [PAD]);
    ScanTwo(q, []);
    OneQuantum(flags, text, Quantum(q, false, [PAD]));
    OneQuantum(flags, chars, Quantum(q, false, []));
    AlphabeticChars(q, [PAD]);
    assert Alphabetic([PAD]) == [];
    assert !SameOutcome(flags, text, Alphabetic(text));
  }

  lemma AlphabeticChar(ch: Byte, text: seq<Byte>)
    requires IsBase64Char(ch)
    ensures Alphabetic([ch] + text) == [ch] + Alphabetic(text)
  {
    assert ([ch] + text)[1..] == text;
  }

  lemma {:induction false} AlphabeticChars(q: seq<Sextet>, rest: seq<Byte>)
    ensures Alphabetic(Chars(q) + rest) == Chars(q) + Alphabetic(rest)
    decreases |q|
  {
    if q == [] {
      assert Chars(q) + rest == rest;
    } else {
      var ch := Base64Table(q[0]);
      TablesInverse(q[0], ch);
      AlphabeticChars(q[1..], rest);
      AlphabeticChar(ch, Chars(q[1..]) + rest);
      Associate([ch], Chars(q[1..]), rest);
      Associate([ch], Chars(q[1..]), Alphabetic(rest));
    }
  }

  // ---------------------------------------------------------------- skipping whitespace

  /** A text without its whitespace. */
  function Stripped(text: seq<Byte>): seq<Byte> {
    if text == [] then []
    else (if IsSpace(text[0]) then [] else [text[0]]) + Stripped(text[1..])
  }

  predicate StartsOnPad(atPad: seq<Byte>, atPad': seq<Byte>) {
    atPad' == Stripped(atPad) && atPad != [] && !IsSpace(atPad[0])
  }

  lemma StrippedUnfold(text: seq<Byte>)
    requires text != []
    ensures IsSpace(text[0]) ==> Stripped(text) == Stripped(text[1..])
    ensures !IsSpace(text[0]) ==>
      Stripped(text) != [] && Stripped(text)[0] == text[0] && Stripped(text)[1..] == Stripped(text[1..])
  {
  }

  /** A scan that skips whitespace does what a strict one does on the stripped text. */
  ghost predicate SameButWhite(r: Scanned, r': Scanned) {
    && r'.q == r.q && r'.pads == r.pads && r'.rest == Stripped(r.rest)
    && (r.pads > 0 ==> StartsOnPad(r.atPad, r'.atPad))
  }

  lemma {:induction false} ScanStripped(illegalPads: bool, text: seq<Byte>, q: seq<Sextet>, pads: nat,
        atPad: seq<Byte>, atPad': seq<Byte>)
    requires Collecting(q, pads) && (pads > 0 ==> StartsOnPad(atPad, atPad'))
    ensures SameButWhite(Scan(ParseWhite, illegalPads, text, q, pads, atPad),
                         Scan(ParseStrict, illegalPads, Stripped(text), q, pads, atPad'))
    decreases |text|
  {
    if |q| < 4 && text != [] {
      StrippedUnfold(text);
      if IsSpace(text[0]) {
        ScanStripped(illegalPads, text[1..], q, pads, atPad, atPad');
      } else {
        ActOnWhite(illegalPads, text[0], |q|, pads);
        match Act(ParseWhite, illegalPads, text[0], |q|, pads)
        case CountPad =>
          ScanStripped(illegalPads, text[1..], q, pads + 1, if pads == 0 then text else atPad,
                       if pads == 0 then Stripped(text) else atPad');
        case Collect(x) =>
          ScanStripped(illegalPads, text[1..], q + [x], 0, atPad, atPad');
        case _ =>
      }
    }
  }

  lemma ActOnWhite(illegalPads: bool, ch: Byte, have: nat, pads: nat)
    ensures IsSpace(ch) <==> Act(ParseWhite, illegalPads, ch, have, pads) == Skip
    ensures !IsSpace(ch) ==>
      Act(ParseWhite, illegalPads, ch, have, pads) == Act(ParseStrict, illegalPads, ch, have, pads)
  {
  }

  /** An unfinished scan stops on a character that is not whitespace. */
  lemma {:induction false} ScanStopsOnInk(illegalPads: bool, text: seq<Byte>, q: seq<Sextet>, pads: nat,
        atPad: seq<Byte>)
    requires Collecting(q, pads)
    ensures var r := Scan(ParseWhite, illegalPads, text, q, pads, atPad);
      |r.q| < 4 && r.rest != [] ==> !IsSpace(r.rest[0])
    decreases |text|
  {
    if |q| < 4 && text != [] {
      ActOnWhite(illegalPads, text[0], |q|, pads);
      match Act(ParseWhite, illegalPads, text[0], |q|, pads)
      case Skip => ScanStopsOnInk(illegalPads, text[1..], q, pads, atPad);
      case CountPad => ScanStopsOnInk(illegalPads, text[1..], q, pads + 1, if pads == 0 then text else atPad);
      case Collect(x) => ScanStopsOnInk(illegalPads, text[1..], q + [x], 0, atPad);
      case Stop =>
    }
  }

  /** What is left ends as the text does; when a full quantum leaves nothing, the text does not end
      in whitespace. */
  predicate EndsAlike(text: seq<Byte>, rest: seq<Byte>) {
    text != [] && if rest == [] then !IsSpace(text[|text| - 1]) else rest[|rest| - 1] == text[|text| - 1]
  }

  lemma {:induction false} FullScanEnd(illegalPads: bool, text: seq<Byte>, q: seq<Sextet>, pads: nat, atPad: seq<Byte>)
    requires Collecting(q, pads) && |q| < 4
    ensures var r := Scan(ParseWhite, illegalPads, text, q, pads, atPad);
      |r.q| == 4 ==> EndsAlike(text, r.rest)
    decreases |text|
  {
    if text != [] {
      ActOnWhite(illegalPads, text[0], |q|, pads);
      match Act(ParseWhite, illegalPads, text[0], |q|, pads)
      case Skip => FullScanEnd(illegalPads, text[1..], q, pads, atPad);
      case CountPad => FullScanEnd(illegalPads, text[1..], q, pads + 1, if pads == 0 then text else atPad);
      case Collect(x) => if |q| < 3 { FullScanEnd(illegalPads, text[1..], q + [x], 0, atPad); }
      case Stop =>
    }
  }

  lemma QuantumStripped(illegalPads: bool, text: seq<Byte>)
    requires Stripped(text) != []
    ensures var r, r' := NextQuantum(ParseWhite, illegalPads, text),
                         NextQuantum(ParseStrict, illegalPads, Stripped(text));
      r' == Quantum(r.q, r.padded, Stripped(r.rest)) && (|r.q| < 4 ==> (r'.rest == [] <==> r.rest == []))
  {
    var s := Scan(ParseWhite, illegalPads, text, [], 0, text);
    var s' := Scan(ParseStrict, illegalPads, Stripped(text), [], 0, Stripped(text));
    ScanStripped(illegalPads, text, [], 0, text, Stripped(text));
    ScanStopsOnInk(illegalPads, text, [], 0, text);
    if s.rest != [] { StrippedUnfold(s.rest); }
    if s.pads > 0 { StrippedUnfold(s.atPad); }
  }

  lemma {:induction false} BlankQuantum(illegalPads: bool, text: seq<Byte>, q: seq<Sextet>, atPad: seq<Byte>)
    requires |q| < 4 && Stripped(text) == []
    ensures Scan(ParseWhite, illegalPads, text, q, 0, atPad) == Scanned(q, 0, [], atPad)
    ensures text != [] ==> IsSpace(text[|text| - 1])
    decreases |text|
  {
    if text != [] {
      StrippedUnfold(text);
      BlankQuantum(illegalPads, text[1..], q, atPad);
    }
  }

  /** Whitespace after the last full quantum, which a decoder that wants padding takes for an
      unpadded quantum. `d` is what the stripped text decodes to. */
  predicate SpaceAfterFull(text: seq<Byte>, d: Decoded) {
    text != [] && IsSpace(text[|text| - 1]) && d.rest == [] && |d.bytes| % 3 == 0
  }

  /** How a whitespace-skipping decode of `text` compares with a strict one of the stripped text. */
  predicate Agree(pad: PadMode, text: seq<Byte>, d: Decoded, d': Decoded) {
    && d.bytes == d'.bytes && (d.rest == [] <==> d'.rest == [])
    && (d.success <==> d'.success && !(pad == PadYes && SpaceAfterFull(text, d')))
  }

  lemma FullQuantum(flags: DecodeFlags, text: seq<Byte>, r: Quantum)
    requires text != [] && r == NextQuantum(flags.parse, flags.pad == PadNo, text) && |r.q| == 4
    ensures var more := DecodeQuanta(flags, r.rest);
      DecodeQuanta(flags, text) == Decoded(Bytes(r.q) + more.bytes, more.success, more.rest)
  {
  }

  lemma AgreeFurther(pad: PadMode, text: seq<Byte>, rest: seq<Byte>, first: seq<Byte>, d: Decoded, d': Decoded)
    requires |first| == 3 && Agree(pad, rest, d, d') && EndsAlike(text, rest)
    ensures Agree(pad, text, d.(bytes := first + d.bytes), d'.(bytes := first + d'.bytes))
  {
  }

  lemma {:induction false} QuantaStripped(pad: PadMode, term: TermMode, text: seq<Byte>)
    ensures Agree(pad, text, DecodeQuanta(DecodeFlags(ParseWhite, pad, term), text),
                  DecodeQuanta(DecodeFlags(ParseStrict, pad, term), Stripped(text)))
    decreases |text|
  {
    var white, strict := DecodeFlags(ParseWhite, pad, term), DecodeFlags(ParseStrict, pad, term);
    if text == [] {
    } else if Stripped(text) == [] {
      BlankQuantum(pad == PadNo, text, [], text);
      OneQuantum(white, text, Quantum([], false, []));
    } else {
      var r := NextQuantum(ParseWhite, pad == PadNo, text);
      var r' := NextQuantum(ParseStrict, pad == PadNo, Stripped(text));
      QuantumStripped(pad == PadNo, text);
      if |r.q| == 4 {
        QuantaStripped(pad, term, r.rest);
        FullScanEnd(pad == PadNo, text, [], 0, text);
        FullQuantum(white, text, r);
        FullQuantum(strict, Stripped(text), r');
        AgreeFurther(pad, text, r.rest, Bytes(r.q), DecodeQuanta(white, r.rest), DecodeQuanta(strict, r'.rest));
      } else {
        OneQuantum(white, text, r);
        OneQuantum(strict, Stripped(text), r');
        LastAgrees(pad, term, text, r, r');
      }
    }
  }

  lemma LastAgrees(pad: PadMode, term: TermMode, text: seq<Byte>, r: Quantum, r': Quantum)
    requires |r.q| < 4 && r'.q == r.q && r'.padded == r.padded && (r'.rest == [] <==> r.rest == [])
    requires r.padded ==> |r.q| >= 2
    ensures Agree(pad, text, Decoded(Bytes(r.q), GoodEnd(DecodeFlags(ParseWhite, pad, term), r), r.rest),
                  Decoded(Bytes(r'.q), GoodEnd(DecodeFlags(ParseStrict, pad, term), r'), r'.rest))
  {
  }

  /** Nothing but full groups of the alphabet. */
  predicate FullGroups(text: seq<Byte>) {
    |text| % 4 == 0 && forall i :: 0 <= i < |text| ==> IsBase64Char(text[i])
  }

  lemma GroupScanned(text: seq<Byte>)
    requires |text| >= 4 && forall i :: 0 <= i < 4 ==> IsBase64Char(text[i])
    ensures |NextQuantum(ParseStrict, false, text).q| == 4
  {
    forall i | 0 <= i < 4 ensures DecodeTable(text[i]) < 64 && Base64Table(DecodeTable(text[i])) == text[i] {
      TablesInverse(0, text[i]);
    }
    var q: seq<Sextet> := [DecodeTable(text[0]), DecodeTable(text[1]), DecodeTable(text[2]), DecodeTable(text[3])];
    CharsAt(q);
    assert text == Chars(q) + text[4..];
    ScanChars(ParseStrict, false, q, text[4..], [], text);
    assert [] + q == q;
  }

  lemma GroupsBehind(q: seq<Sextet>, text: seq<Byte>, rest: seq<Byte>)
    requires |q| == 4 && text == Chars(q) + rest
    ensures FullGroups(text) <==> FullGroups(rest)
  {
    CharsAt(q);
    forall i | 0 <= i < 4 ensures IsBase64Char(text[i]) {
      TablesInverse(q[i], 0);
    }
    assert forall i :: 0 <= i < |rest| ==> rest[i] == text[i + 4];
  }

  /** Whether a text decodes to whole groups of bytes where padding is required. */
  predicate WholeGroups(d: Decoded) { d.success && |d.bytes| % 3 == 0 }

  lemma GroupsDecodeFirst(flags: DecodeFlags, text: seq<Byte>, r: Quantum)
    requires flags.parse == ParseStrict && flags.pad == PadYes && text != []
    requires r == NextQuantum(ParseStrict, false, text) && |r.q| == 4
    ensures var d, more := DecodeQuanta(flags, text), DecodeQuanta(flags, r.rest);
      && (WholeGroups(d) <==> WholeGroups(more)) && d.rest == more.rest
      && (FullGroups(text) <==> FullGroups(r.rest))
  {
    StrictQuantum(text);
    assert Chars(r.q) + Pads(0) + r.rest == Chars(r.q) + r.rest;
    GroupsBehind(r.q, text, r.rest);
    FullQuantum(flags, text, r);
  }

  lemma GroupsDecodeLast(flags: DecodeFlags, text: seq<Byte>, r: Quantum)
    requires flags.parse == ParseStrict && flags.pad == PadYes && text != []
    requires r == NextQuantum(ParseStrict, false, text) && |r.q| < 4
    ensures !WholeGroups(DecodeQuanta(flags, text)) && !FullGroups(text)
  {
    OneQuantum(flags, text, r);
    assert r.padded ==> |Bytes(r.q)| % 3 != 0;
    if |text| >= 4 && forall i :: 0 <= i < 4 ==> IsBase64Char(text[i]) {
      GroupScanned(text);
    }
  }

  /** Where padding is required, a text decodes to whole groups of bytes exactly if it has nothing but
      full groups of characters. */
  lemma {:induction false} GroupsDecode(flags: DecodeFlags, text: seq<Byte>)
    requires flags.parse == ParseStrict && flags.pad == PadYes
    ensures var d := DecodeQuanta(flags, text);
      (WholeGroups(d) <==> FullGroups(text)) && (FullGroups(text) ==> d.rest == [])
    decreases |text|
  {
    if text != [] {
      var r := NextQuantum(ParseStrict, false, text);
      if |r.q| == 4 {
        GroupsDecode(flags, r.rest);
        GroupsDecodeFirst(flags, text, r);
      } else {
        GroupsDecodeLast(flags, text, r);
      }
    }
  }

  /** Full groups of the alphabet, with whitespace anywhere and at the end. */
  predicate TrailingSpace(text: seq<Byte>) {
    text != [] && IsSpace(text[|text| - 1]) && FullGroups(Stripped(text))
  }

  /** Skipping whitespace decodes to the same bytes as strict parsing of the stripped text. It
      succeeds on the same texts too, except that a decoder that wants padding rejects whitespace
      after the last full quantum. */
  lemma WhiteIsStrictOnStripped(pad: PadMode, term: TermMode, text: seq<Byte>)
    ensures var d, d' := Decode(DecodeFlags(ParseWhite, pad, term), text),
                         Decode(DecodeFlags(ParseStrict, pad, term), Stripped(text));
      && d.bytes == d'.bytes
      && (d.success <==> d'.success && !(pad == PadYes && TrailingSpace(text)))
  {
    QuantaStripped(pad, term, text);
    GroupsDecode(DecodeFlags(ParseStrict, PadYes, term), Stripped(text));
  }

  lemma {:induction false} StrippedTail(text: seq<Byte>, tail: seq<Byte>)
    requires forall i :: 0 <= i < |text| ==> !IsSpace(text[i])
    ensures Stripped(text + tail) == text + Stripped(tail)
    decreases |text|
  {
    if text == [] {
      assert text + tail == tail;
    } else {
      assert (text + tail)[1..] == text[1..] + tail;
      StrippedTail(text[1..], tail);
    }
  }

  lemma {:induction false} EncodingHasNoSpace(d: seq<Byte>)
    ensures forall i :: 0 <= i < |Encode(d)| ==> !IsSpace(Encode(d)[i])
    decreases |d|
  {
    if d != [] {
      var q := Sextets(if |d| < 3 then d else d[..3]);
      CharsAt(q);
      forall k | 0 <= k < |q| ensures !IsSpace(Chars(q)[k]) {
        TablesInverse(q[k], 0);
      }
      if |d| >= 3 {
        EncodingHasNoSpace(d[3..]);
      } else {
        PadsAt(3 - |d|);
      }
    }
  }

  lemma {:induction false} PadsAt(n: nat)
    ensures forall k :: 0 <= k < n ==> Pads(n)[k] == PAD
  {
    if n > 0 {
      PadsAt(n - 1);
    }
  }

  lemma StrippedEncoding(d: seq<Byte>, text: seq<Byte>)
    requires text == Encode(d) + [32]
    ensures Stripped(text) == Encode(d)
  {
    EncodingHasNoSpace(d);
    StrippedTail(Encode(d), [32]);
    assert Stripped([32]) == [];
    assert Encode(d) + [] == Encode(d);
  }

  /** The exception of `WhiteIsStrictOnStripped` happens: full groups followed by a space. */
  lemma TrailingSpaceRejected(term: TermMode, d: seq<Byte>, text: seq<Byte>)
    requires |d| % 3 == 0 && text == Encode(d) + [32]
    ensures Decode(DecodeFlags(ParseStrict, PadYes, term), Stripped(text)) == Decoded(d, true, [])
    ensures !Decode(DecodeFlags(ParseWhite, PadYes, term), text).success
  {
    StrippedEncoding(d, text);
    DecodePadded(DecodeFlags(ParseStrict, PadYes, term), d);
    GroupsDecode(DecodeFlags(ParseStrict, PadYes, term), Stripped(text));
    WhiteIsStrictOnStripped(PadYes, term, text);
    assert text[|text| - 1] == 32;
  }

  /** `text` is `plain` with whitespace put in anywhere, line breaks say. */
  predicate BrokenUp(text: seq<Byte>, plain: seq<Byte>) {
    if text == [] then plain == []
    else
      || (text[0] in WHITE && BrokenUp(text[1..], plain))
      || (plain != [] && text[0] == plain[0] && BrokenUp(text[1..], plain[1..]))
  }

  lemma {:induction false} BrokenUpStripped(text: seq<Byte>, plain: seq<Byte>)
    requires BrokenUp(text, plain) && forall i :: 0 <= i < |plain| ==> !IsSpace(plain[i])
    ensures Stripped(text) == plain
    decreases |text|
  {
    if text != [] {
      SpacesExactly(text[0]);
      if text[0] in WHITE {
        BrokenUpStripped(text[1..], plain);
      } else {
        BrokenUpStripped(text[1..], plain[1..]);
      }
    }
  }

  /** An encoding broken into lines anywhere decodes to the bytes it came from where whitespace is
      skipped. It is rejected in two cases only: its pads are illegal and the end of the buffer must be
      reached, or padding is required, there is none, and there is whitespace at the end. */
  lemma LinesDecode(pad: PadMode, term: TermMode, d: seq<Byte>, text: seq<Byte>)
    requires BrokenUp(text, Encode(d))
    ensures var r := Decode(DecodeFlags(ParseWhite, pad, term), text);
      && r.bytes == d
      && (r.success <==>
            && (pad == PadNo && term == TermBuffer ==> |d| % 3 == 0)
            && (pad == PadYes && |d| % 3 == 0 ==> text == [] || text[|text| - 1] !in WHITE))
  {
    EncodingHasNoSpace(d);
    BrokenUpStripped(text, Encode(d));
    WhiteIsStrictOnStripped(pad, term, text);
    StrictOnEncoding(pad, term, d);
    DecodePadded(DecodeFlags(ParseStrict, PadYes, term), d);
    GroupsDecode(DecodeFlags(ParseStrict, PadYes, term), Encode(d));
    if text != [] {
      SpacesExactly(text[|text| - 1]);
    }
  }

  lemma StrictOnEncoding(pad: PadMode, term: TermMode, d: seq<Byte>)
    ensures var r := Decode(DecodeFlags(ParseStrict, pad, term), Encode(d));
      r.bytes == d && (r.success <==> (pad == PadNo && term == TermBuffer ==> |d| % 3 == 0))
  {
    var flags := DecodeFlags(ParseStrict, pad, term);
    if pad != PadNo || |d| % 3 == 0 {
      DecodePadded(flags, d);
    } else {
      DecodeUnpadded(flags, d, Encode(d), 3 - |d| % 3);
    }
  }

  // ---------------------------------------------------------------- the last quantum

  /** A character that ends a quantum of `have` sextets and `pads` pads, unless anything is parsed. */
  predicate Ends(ch: Byte, have: nat, pads: nat) {
    if IsBase64Char(ch) then pads > 0
    else ch !in WHITE && (ch == 61 ==> have + pads == 4)
  }

  lemma EndsStop(parse: ParseMode, ch: Byte, have: nat, pads: nat)
    requires parse != ParseAny && 2 <= have <= have + pads <= 4 && Ends(ch, have, pads)
    ensures Act(parse, false, ch, have, pads) == Stop
  {
    TablesInverse(0, ch);
    SpacesExactly(ch);
  }

  lemma {:induction false} ScanPadsThen(parse: ParseMode, n: nat, tail: seq<Byte>, text: seq<Byte>, q: seq<Sextet>,
        pads: nat, atPad: seq<Byte>)
    requires 2 <= |q| < 4 && |q| + pads + n <= 4 && text == Pads(n) + tail
    requires tail == [] || (parse != ParseAny && Ends(tail[0], |q|, pads + n))
    ensures Scan(parse, false, text, q, pads, atPad)
         == Scanned(q, pads + n, tail, if pads == 0 && n > 0 then text else atPad)
    decreases n
  {
    if n > 0 {
      assert text[0] == PAD && text[1..] == Pads(n - 1) + tail;
      ScanPadsThen(parse, n - 1, tail, text[1..], q, pads + 1, if pads == 0 then text else atPad);
    } else {
      assert text == tail;
      if tail != [] {
        EndsStop(parse, tail[0], |q|, pads);
      }
    }
  }

  /** The bits of the last sextet that belong to no byte are zero. */
  predicate NothingUnused(q: seq<Sextet>)
    requires 2 <= |q| < 4
  {
    if |q| == 2 then q[1] % 16 == 0 else q[2] % 4 == 0
  }

  lemma OneGroupThen(flags: DecodeFlags, group: seq<Byte>, next: seq<Byte>, text: seq<Byte>)
    requires |group| == 3 && text == Chars(Sextets(group)) + next
    ensures var more := DecodeQuanta(flags, next);
      DecodeQuanta(flags, text) == Decoded(group + more.bytes, more.success, more.rest)
  {
    var q := Sextets(group);
    ScanChars(flags.parse, flags.pad == PadNo, q, next, [], text);
    assert [] + q == q;
    FullQuantum(flags, text, Quantum(q, true, next));
    SextetsOfBytes(group);
  }

  /** Full groups are decoded one by one, whatever follows them. */
  lemma {:induction false} GroupsThen(flags: DecodeFlags, groups: seq<Byte>, rest: seq<Byte>)
    requires |groups| % 3 == 0
    ensures var more := DecodeQuanta(flags, rest);
      DecodeQuanta(flags, Encode(groups) + rest) == Decoded(groups + more.bytes, more.success, more.rest)
    decreases |groups|
  {
    var more := DecodeQuanta(flags, rest);
    if groups == [] {
      assert Encode(groups) + rest == rest && groups + more.bytes == more.bytes;
    } else {
      var first, others := groups[..3], groups[3..];
      JoinGroup(groups, first, others);
      Associate(Chars(Sextets(first)), Encode(others), rest);
      OneGroupThen(flags, first, Encode(others) + rest, Encode(groups) + rest);
      GroupsThen(flags, others, rest);
      Associate(first, others, more.bytes);
    }
  }

  lemma OneQuantumLeft(flags: DecodeFlags, q: seq<Sextet>, n: nat, tail: seq<Byte>, text: seq<Byte>)
    requires flags.pad != PadNo && 2 <= |q| < 4 && |q| + n <= 4 && text == Chars(q) + (Pads(n) + tail)
    requires tail == [] || (flags.parse != ParseAny && Ends(tail[0], |q|, n))
    ensures var r := Quantum(q, |q| + n == 4, if |q| + n == 4 then tail else Pads(n) + tail);
      DecodeQuanta(flags, text) == Decoded(Bytes(q), GoodEnd(flags, r), r.rest)
  {
    var rest := Pads(n) + tail;
    ScanChars(flags.parse, false, q, rest, [], text);
    assert [] + q == q;
    ScanPadsThen(flags.parse, n, tail, rest, q, 0, text);
    assert n == 0 ==> rest == tail;
    OneQuantum(flags, text, Quantum(q, |q| + n == 4, if |q| + n == 4 then tail else rest));
  }

  /** What becomes of the last quantum of a text where pads are legal, after any full groups. Its bytes
      are decoded in any case. Pads that do not complete it are given back, and so is what follows. The
      text is rejected exactly for unused bits that are not zero unless any end will do, for missing
      pads where they are required, and for anything left where the end of the buffer must be reached. */
  lemma LastQuantumExactly(flags: DecodeFlags, groups: seq<Byte>, q: seq<Sextet>, n: nat, tail: seq<Byte>)
    requires |groups| % 3 == 0 && flags.pad != PadNo && 2 <= |q| < 4 && |q| + n <= 4
    requires tail == [] || (flags.parse != ParseAny && Ends(tail[0], |q|, n))
    ensures
      var d := Decode(flags, Encode(groups) + (Chars(q) + (Pads(n) + tail)));
      && d.bytes == groups + Bytes(q)
      && d.rest == (if |q| + n == 4 then tail else Pads(n) + tail)
      && (d.success <==>
            && (flags.term == TermAny || NothingUnused(q))
            && (flags.pad == PadYes ==> |q| + n == 4)
            && (flags.term == TermBuffer ==> d.rest == []))
  {
    var text := Chars(q) + (Pads(n) + tail);
    GroupsThen(flags, groups, text);
    OneQuantumLeft(flags, q, n, tail, text);
  }

  /** Full groups followed by something that is no sextet and not skipped, a pad say: all of that is left,
      which is an error where pads are required or the end of the buffer must be reached. */
  lemma JunkAfterGroups(flags: DecodeFlags, groups: seq<Byte>, tail: seq<Byte>)
    requires |groups| % 3 == 0 && flags.parse != ParseAny
    requires tail != [] && !IsBase64Char(tail[0]) && tail[0] !in WHITE
    ensures Decode(flags, Encode(groups) + tail)
         == Decoded(groups, flags.pad != PadYes && flags.term != TermBuffer, tail)
  {
    var illegalPads := flags.pad == PadNo;
    TablesInverse(0, tail[0]);
    SpacesExactly(tail[0]);
    assert Act(flags.parse, illegalPads, tail[0], 0, 0) == Stop;
    assert Scan(flags.parse, illegalPads, tail, [], 0, tail) == Scanned([], 0, tail, tail);
    OneQuantum(flags, tail, Quantum([], false, tail));
    GroupsThen(flags, groups, tail);
    assert groups + [] == groups;
  }

  // ---------------------------------------------------------------- the loops

  /** The four characters for the first bytes of `d`. */
  function Group(d: seq<Byte>): (g: seq<Byte>)
    requires d != []
    ensures |g| == 4
  {
    if |d| < 3 then Chars(Sextets(d)) + Pads(3 - |d|) else Chars(Sextets(d[..3]))
  }

  lemma GroupEncodes(d: seq<Byte>)
    requires d != []
    ensures Encode(d) == Group(d) + Encode(d[if |d| < 3 then |d| else 3..])
  {
  }

  lemma GroupDone(before: seq<Byte>, d: seq<Byte>, rest: seq<Byte>, all: seq<Byte>)
    requires d != [] && before + Encode(d) == all && rest == d[if |d| < 3 then |d| else 3..]
    ensures (before + Group(d)) + Encode(rest) == all
  {
    GroupEncodes(d);
  }

  lemma GroupChars(d: seq<Byte>)
    requires d != []
    ensures Group(d)[0] == Base64Table(d[0] / 4)
    ensures Group(d)[1] == Base64Table(d[0] % 4 * 16 + if |d| > 1 then d[1] / 16 else 0)
    ensures Group(d)[2] == if |d| > 1 then Base64Table(d[1] % 16 * 4 + if |d| > 2 then d[2] / 64 else 0) else PAD
    ensures Group(d)[3] == if |d| > 2 then Base64Table(d[2] % 64) else PAD
  {
    var q := Sextets(if |d| < 3 then d else d[..3]);
    CharsAt(q);
    if |d| == 1 {
      assert Pads(2)[1] == PAD;
    }
  }

  lemma {:induction false} CharsAt(q: seq<Sextet>)
    ensures forall k :: 0 <= k < |q| ==> Chars(q)[k] == Base64Table(q[k])
  {
    if q != [] {
      CharsAt(q[1..]);
    }
  }

  /** One turn of the encoding loop: reads up to three bytes from `start` and writes four
      characters. */
  method EncodeGroup(data: seq<Byte>, start: nat, out: array<Byte>, dest: nat) returns (i: nat)
    requires start < |data| && dest + 4 <= out.Length
    modifies out
    ensures i == if start + 3 <= |data| then start + 3 else |data|
    ensures out[dest..dest + 4] == Group(data[start..])
    ensures out[..dest] == old(out[..dest])
  {
    ghost var d := data[start..];
    GroupChars(d);
    i := start;
    var c: Byte := data[i] / 4;
    out[dest] := Base64Table(c);
    c := data[i] % 4 * 16;
    i := i + 1;
    if i < |data| {
      c := c + data[i] / 16;
    }
    out[dest + 1] := Base64Table(c);
    if i < |data| {
      c := data[i] % 16 * 4;
      i := i + 1;
      if i < |data| {
        c := c + data[i] / 64;
      }
      out[dest + 2] := Base64Table(c);
    } else {
      out[dest + 2] := PAD;
    }
    if i < |data| {
      c := data[i] % 64;
      out[dest + 3] := Base64Table(c);
      i := i + 1;
    } else {
      out[dest + 3] := PAD;
    }
  }

  /** After `groups` turns of the loop, `out` holds the encoding of what was read, up to `dest`. */
  ghost predicate EncodedSoFar(data: seq<Byte>, i: nat, out: seq<Byte>, dest: nat, groups: nat, all: nat) {
    && i <= |data| && 3 * all - 3 < |data| <= 3 * all && dest == 4 * groups <= |out| == 4 * all
    && (if i < |data| then i == 3 * groups else dest == |out|)
    && out[..dest] + Encode(data[i..]) == Encode(data)
  }

  lemma EncodedFurther(data: seq<Byte>, i: nat, out: seq<Byte>, out': seq<Byte>, dest: nat, groups: nat, all: nat)
    requires EncodedSoFar(data, i, out, dest, groups, all) && i < |data|
    requires |out'| == |out| && dest + 4 <= |out|
    requires out'[..dest] == out[..dest] && out'[dest..dest + 4] == Group(data[i..])
    ensures EncodedSoFar(data, if i + 3 <= |data| then i + 3 else |data|, out', dest + 4, groups + 1, all)
  {
    var next := if i + 3 <= |data| then i + 3 else |data|;
    var d := data[i..];
    assert data[next..] == d[if |d| < 3 then |d| else 3..];
    GroupDone(out[..dest], d, data[next..], Encode(data));
    assert out'[..dest + 4] == out[..dest] + Group(d);
  }

  /** One turn of the loop, with what it does to the whole. */
  method EncodeNext(data: seq<Byte>, i: nat, out: array<Byte>, dest: nat, ghost groups: nat, ghost all: nat)
    returns (next: nat)
    requires EncodedSoFar(data, i, out[..], dest, groups, all) && i < |data|
    modifies out
    ensures i < next <= |data| && EncodedSoFar(data, next, out[..], dest + 4, groups + 1, all)
  {
    ghost var before := out[..];
    assert dest + 4 <= out.Length;
    next := EncodeGroup(data, i, out, dest);
    ghost var after := out[..];
    assert after[..dest] == before[..dest] && after[dest..dest + 4] == Group(data[i..]);
    EncodedFurther(data, i, before, after, dest, groups, all);
  }

  method EncodeFromArray(data: seq<Byte>) returns (result: seq<Byte>)
    ensures result == Encode(data)
  {
    var all := (|data| + 2) / 3;
    var out := new Byte[4 * all](_ => 0);
    var i, dest := 0, 0;
    ghost var groups := 0;
    EncodeStarts(data, out[..], all);
    while i < |data|
      invariant EncodedSoFar(data, i, out[..], dest, groups, all)
      decreases |data| - i
    {
      i := EncodeNext(data, i, out, dest, groups, all);
      dest, groups := dest + 4, groups + 1;
    }
    result := out[..];
    EncodeEnds(data, i, result, dest, groups, all);
  }

  lemma EncodeStarts(data: seq<Byte>, out: seq<Byte>, all: nat)
    requires |out| == 4 * all && all == (|data| + 2) / 3
    ensures EncodedSoFar(data, 0, out, 0, 0, all)
  {
    assert data[0..] == data;
  }

  lemma EncodeEnds(data: seq<Byte>, i: nat, out: seq<Byte>, dest: nat, groups: nat, all: nat)
    requires EncodedSoFar(data, i, out, dest, groups, all) && i == |data|
    ensures out == Encode(data)
  {
    assert data[i..] == [] && out[..dest] == out && out + [] == out;
  }

  method ClearFrom(qbuf: array<Byte>, byteLen: nat)
    requires byteLen <= qbuf.Length == 4
    modifies qbuf
    ensures forall i :: 0 <= i < 4 ==> qbuf[i] == if i < byteLen then old(qbuf[i]) else 0
  {
    for i := byteLen to 4
      invariant forall k :: 0 <= k < 4 ==> qbuf[k] == if byteLen <= k < i then 0 else old(qbuf[k])
    {
      qbuf[i] := 0;
    }
  }

  /** What was collected so far, with the text from the first pad on and where that starts. */
  datatype Collected = Collected(q: seq<Sextet>, padLen: nat, padStart: nat, atPad: seq<Byte>)

  function AfterAction(c: Collected, act: Action, data: seq<Byte>, dpos: nat): Collected
    requires dpos <= |data|
  {
    match act
    case Stop => c
    case Skip => c
    case CountPad => if c.padLen == 0 then Collected(c.q, 1, dpos, data[dpos..]) else c.(padLen := c.padLen + 1)
    case Collect(x) => c.(q := c.q + [x], padLen := 0)
  }

  /** The scan goes on from `dpos` to the result `all`. */
  ghost predicate CollectedSoFar(parse: ParseMode, illegalPads: bool, data: seq<Byte>, dpos: nat, c: Collected,
        all: Scanned) {
    && dpos <= |data| && Collecting(c.q, c.padLen)
    && (c.padLen > 0 ==> c.padStart <= |data| && c.atPad == data[c.padStart..])
    && Scan(parse, illegalPads, data[dpos..], c.q, c.padLen, c.atPad) == all
  }

  ghost predicate CollectedAll(data: seq<Byte>, dpos: nat, c: Collected, all: Scanned) {
    && dpos <= |data| && all == Scanned(c.q, c.padLen, data[dpos..], c.atPad)
    && (c.padLen > 0 ==> c.padStart <= |data| && c.atPad == data[c.padStart..])
  }

  lemma CollectedFurther(parse: ParseMode, illegalPads: bool, data: seq<Byte>, dpos: nat, c: Collected, all: Scanned,
        act: Action, next: Collected)
    requires CollectedSoFar(parse, illegalPads, data, dpos, c, all) && |c.q| < 4 && dpos < |data|
    requires act == Act(parse, illegalPads, data[dpos], |c.q|, c.padLen) && next == AfterAction(c, act, data, dpos)
    ensures act == Stop ==> CollectedAll(data, dpos, c, all)
    ensures act != Stop ==> CollectedSoFar(parse, illegalPads, data, dpos + 1, next, all)
  {
    assert data[dpos..][1..] == data[dpos + 1..];
  }

  lemma CollectEnds(parse: ParseMode, illegalPads: bool, data: seq<Byte>, dpos: nat, c: Collected, all: Scanned)
    requires CollectedSoFar(parse, illegalPads, data, dpos, c, all) && (|c.q| == 4 || dpos == |data|)
    ensures CollectedAll(data, dpos, c, all)
  {
  }

  /** One turn of the collecting loop; `stop` where it is left. */
  method CollectOne(parse: ParseMode, illegalPads: bool, ch: Byte, dpos: nat, qbuf: array<Byte>, byteLen: nat,
        padLen: nat, padStart: nat)
    returns (stop: bool, newLen: nat, newPads: nat, newStart: nat)
    requires byteLen < 4 == qbuf.Length
    modifies qbuf
    ensures forall i :: 0 <= i < byteLen ==> qbuf[i] == old(qbuf[i])
    ensures match Act(parse, illegalPads, ch, byteLen, padLen)
      case Stop => stop && newLen == byteLen && newPads == padLen && newStart == padStart
      case Skip => !stop && newLen == byteLen && newPads == padLen && newStart == padStart
      case CountPad =>
        !stop && newLen == byteLen && newPads == padLen + 1 && newStart == if padLen == 0 then dpos else padStart
      case Collect(x) => !stop && newLen == byteLen + 1 && newPads == 0 && newStart == padStart && qbuf[byteLen] == x
  {
    stop, newLen, newPads, newStart := false, byteLen, padLen, padStart;
    qbuf[byteLen] := DecodeTable(ch);
    if qbuf[byteLen] == ILLEGAL || (illegalPads && qbuf[byteLen] == PADDING) {
      if parse != ParseAny {
        stop := true;
      }
    } else if qbuf[byteLen] == SPACE {
      if parse == ParseStrict {
        stop := true;
      }
    } else if qbuf[byteLen] == PADDING {
      if byteLen < 2 {
        if parse != ParseAny {
          stop := true;
        }
      } else if byteLen + padLen >= 4 {
        if parse != ParseAny {
          stop := true;
        }
      } else {
        newPads := padLen + 1;
        if newPads == 1 {
          newStart := dpos;
        }
      }
    } else {
      if padLen > 0 {
        if parse != ParseAny {
          stop := true;
          return;
        }
        newPads := 0;
      }
      newLen := byteLen + 1;
    }
  }

  /** The same, with what it does to the whole. */
  method CollectNext(parse: ParseMode, illegalPads: bool, data: seq<Byte>, dpos: nat, qbuf: array<Byte>, byteLen: nat,
        padLen: nat, padStart: nat, ghost c: Collected, ghost all: Scanned)
    returns (stop: bool, newLen: nat, newPads: nat, newStart: nat, ghost next: Collected)
    requires byteLen < 4 == qbuf.Length && dpos < |data|
    requires Holds(qbuf[..], byteLen, padLen, padStart, c)
    requires CollectedSoFar(parse, illegalPads, data, dpos, c, all)
    modifies qbuf
    ensures Holds(qbuf[..], newLen, newPads, newStart, next)
    ensures stop ==> CollectedAll(data, dpos, next, all)
    ensures !stop ==> CollectedSoFar(parse, illegalPads, data, dpos + 1, next, all)
  {
    ghost var act := Act(parse, illegalPads, data[dpos], byteLen, padLen);
    next := AfterAction(c, act, data, dpos);
    CollectedFurther(parse, illegalPads, data, dpos, c, all, act, next);
    stop, newLen, newPads, newStart :=
      CollectOne(parse, illegalPads, data[dpos], dpos, qbuf, byteLen, padLen, padStart);
  }

  /** The variables of the loop say what was collected. */
  ghost predicate Holds(qbuf: seq<Byte>, byteLen: nat, padLen: nat, padStart: nat, c: Collected) {
    && |c.q| == byteLen <= 4 == |qbuf| && c.padLen == padLen && c.padStart == padStart
    && forall i :: 0 <= i < byteLen ==> qbuf[i] == c.q[i]
  }

  lemma CollectStarts(parse: ParseMode, illegalPads: bool, data: seq<Byte>, start: nat, qbuf: seq<Byte>, all: Scanned)
    requires start <= |data| && |qbuf| == 4
    requires all == Scan(parse, illegalPads, data[start..], [], 0, data[start..])
    ensures var c := Collected([], 0, 0, data[start..]);
      Holds(qbuf, 0, 0, 0, c) && CollectedSoFar(parse, illegalPads, data, start, c, all)
  {
  }

  lemma CollectedResult(data: seq<Byte>, dpos: nat, qbuf: seq<Byte>, byteLen: nat, padLen: nat, padStart: nat,
        c: Collected, all: Scanned)
    requires Holds(qbuf, byteLen, padLen, padStart, c) && CollectedAll(data, dpos, c, all)
    ensures byteLen == |all.q| && padLen == all.pads && dpos <= |data| && data[dpos..] == all.rest
    ensures padLen > 0 ==> padStart <= |data| && data[padStart..] == all.atPad
    ensures |qbuf| == 4 >= byteLen && forall i :: 0 <= i < byteLen ==> qbuf[i] == all.q[i]
  {
  }

  /** The collecting loop of `GetNextQuantum`; `all` is what the scan finds. */
  method CollectQuantum(parse: ParseMode, illegalPads: bool, data: seq<Byte>, start: nat, qbuf: array<Byte>,
        ghost all: Scanned)
    returns (byteLen: nat, dpos: nat, padLen: nat, padStart: nat)
    requires start <= |data| && qbuf.Length == 4
    requires all == Scan(parse, illegalPads, data[start..], [], 0, data[start..])
    modifies qbuf
    ensures byteLen == |all.q| && padLen == all.pads
    ensures dpos <= |data| && data[dpos..] == all.rest
    ensures padLen > 0 ==> padStart <= |data| && data[padStart..] == all.atPad
    ensures forall i :: 0 <= i < byteLen ==> qbuf[i] == all.q[i]
  {
    padLen, padStart := 0, 0;
    byteLen, dpos := 0, start;
    ghost var c := Collected([], 0, 0, data[start..]);
    CollectStarts(parse, illegalPads, data, start, qbuf[..], all);
    while byteLen < 4 && dpos < |data|
      invariant dpos <= |data| && byteLen <= 4
      invariant Holds(qbuf[..], byteLen, padLen, padStart, c)
      invariant CollectedSoFar(parse, illegalPads, data, dpos, c, all)
      decreases |data| - dpos
    {
      var stop;
      stop, byteLen, padLen, padStart, c :=
        CollectNext(parse, illegalPads, data, dpos, qbuf, byteLen, padLen, padStart, c, all);
      if stop {
        CollectedResult(data, dpos, qbuf[..], byteLen, padLen, padStart, c, all);
        return;
      }
      dpos := dpos + 1;
    }
    CollectEnds(parse, illegalPads, data, dpos, c, all);
    CollectedResult(data, dpos, qbuf[..], byteLen, padLen, padStart, c, all);
  }

  method GetNextQuantum(parse: ParseMode, illegalPads: bool, data: seq<Byte>, start: nat, qbuf: array<Byte>)
    returns (byteLen: nat, dpos: nat, padded: bool)
    requires start <= |data| && qbuf.Length == 4
    modifies qbuf
    ensures var r := NextQuantum(parse, illegalPads, data[start..]);
      && byteLen == |r.q| && padded == r.padded
      && dpos <= |data| && data[dpos..] == r.rest
      && (forall i :: 0 <= i < 4 ==> qbuf[i] == if i < byteLen then r.q[i] else 0)
  {
    var padLen, padStart;
    ghost var all := Scan(parse, illegalPads, data[start..], [], 0, data[start..]);
    byteLen, dpos, padLen, padStart := CollectQuantum(parse, illegalPads, data, start, qbuf, all);
    ClearFrom(qbuf, byteLen);
    if byteLen + padLen == 4 {
      padded := true;
    } else {
      padded := false;
      if padLen > 0 {
        dpos := padStart;
      }
    }
  }

  /** The complete bytes of a quantum, and what is left in the last partial byte. */
  method SplitQuantum(qbuf: array<Byte>, qlen: nat, ghost q: seq<Sextet>) returns (bytes: seq<Byte>, c: Byte)
    requires qbuf.Length == 4 && qlen == |q| <= 4
    requires forall i :: 0 <= i < 4 ==> qbuf[i] == if i < qlen then q[i] else 0
    ensures bytes == Bytes(q) && c == Unused(q)
  {
    bytes := [];
    c := qbuf[0] as int * 4 + qbuf[1] / 16;
    if qlen >= 2 {
      bytes := bytes + [c];
      c := qbuf[1] as int % 16 * 16 + qbuf[2] / 4;
      if qlen >= 3 {
        bytes := bytes + [c];
        c := qbuf[2] as int % 4 * 64 + qbuf[3];
        if qlen >= 4 {
          bytes := bytes + [c];
          c := 0;
        }
      }
    }
  }

  /** The bytes decoded so far, with those still to come, are those of the whole. */
  ghost predicate DecodedSoFar(flags: DecodeFlags, result: seq<Byte>, text: seq<Byte>, all: Decoded) {
    var d := DecodeQuanta(flags, text);
    all == Decoded(result + d.bytes, d.success, d.rest)
  }

  lemma DecodedFurther(flags: DecodeFlags, result: seq<Byte>, text: seq<Byte>, all: Decoded, r: Quantum)
    requires DecodedSoFar(flags, result, text, all)
    requires text != [] && r == NextQuantum(flags.parse, flags.pad == PadNo, text)
    ensures |r.q| == 4 ==> DecodedSoFar(flags, result + Bytes(r.q), r.rest, all)
    ensures |r.q| < 4 ==> all == Decoded(result + Bytes(r.q), GoodEnd(flags, r), r.rest)
  {
    if |r.q| == 4 {
      FullQuantum(flags, text, r);
    } else {
      OneQuantum(flags, text, r);
    }
  }

  lemma DecodeEnds(flags: DecodeFlags, result: seq<Byte>, text: seq<Byte>, all: Decoded)
    ensures text == [] && DecodedSoFar(flags, result, text, all) ==> all == Decoded(result, true, [])
  {
  }

  method DecodeFromArray(data: seq<Byte>, flags: DecodeFlags) returns (result: seq<Byte>, success: bool, dataUsed: nat)
    ensures var d := Decode(flags, data);
      result == d.bytes && success == d.success && dataUsed <= |data| && data[dataUsed..] == d.rest
  {
    ghost var all := DecodeQuanta(flags, data);
    var qbuf := new Byte[4](_ => 0);
    var dpos := 0;
    result, success := [], true;
    assert data[0..] == data;
    while dpos < |data|
      invariant dpos <= |data| && success && DecodedSoFar(flags, result, data[dpos..], all)
      decreases |data| - dpos
    {
      ghost var text := data[dpos..];
      ghost var r := NextQuantum(flags.parse, flags.pad == PadNo, text);
      DecodedFurther(flags, result, text, all, r);
      var qlen, padded;
      qlen, dpos, padded := GetNextQuantum(flags.parse, flags.pad == PadNo, data, dpos, qbuf);
      var bytes, c := SplitQuantum(qbuf, qlen, r.q);
      result := result + bytes;
      if qlen < 4 {
        if flags.term != TermAny && c != 0 {
          success := false;
        }
        if flags.pad == PadYes && !padded {
          success := false;
        }
        assert all == Decoded(result, success, data[dpos..]);
        break;
      }
    }
    DecodeEnds(flags, result, data[dpos..], all);
    assert all == Decoded(result, success, data[dpos..]);
    if flags.term == TermBuffer && dpos != |data| {
      success := false;
    }
    dataUsed := dpos;
  }
}
