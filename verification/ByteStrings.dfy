/** Go strings and byte slices as byte sequences: their order, hexadecimal text and big-endian words. */
module ByteStrings {
  import opened Options
  import Sorting

  newtype byte = x: int | 0 <= x < 256
  type ByteString = seq<byte>

  function Ascii(s: string): (r: ByteString)
    ensures |r| == |s|
  {
    seq(|s|, i requires 0 <= i < |s| => (s[i] as int % 256) as byte)
  }

  /** ASCII text as its codes. */
  lemma AsciiIs(s: string)
    ensures |Ascii(s)| == |s| && forall i | 0 <= i < |s| && s[i] as int < 128 :: Ascii(s)[i] as int == s[i] as int
  {}

  /** The order of Go strings. */
  predicate AtMost(a: ByteString, b: ByteString) {
    |a| == 0 || (|b| != 0 && (a[0] < b[0] || (a[0] == b[0] && AtMost(a[1..], b[1..]))))
  }

  lemma {:induction false} AtMostTransitive(a: ByteString, b: ByteString, c: ByteString)
    requires AtMost(a, b) && AtMost(b, c)
    ensures AtMost(a, c)
  {
    if |a| != 0 && a[0] == b[0] == c[0] { AtMostTransitive(a[1..], b[1..], c[1..]); }
  }

  lemma {:induction false} AtMostTotal(a: ByteString, b: ByteString)
    ensures AtMost(a, b) || AtMost(b, a)
    ensures AtMost(a, b) && AtMost(b, a) ==> a == b
  {
    if |a| != 0 && |b| != 0 && a[0] == b[0] {
      AtMostTotal(a[1..], b[1..]);
      assert a == [a[0]] + a[1..] && b == [b[0]] + b[1..];
    }
  }

  lemma ByteOrder()
    ensures Sorting.TotalOrder(AtMost)
    ensures forall a, b | AtMost(a, b) && AtMost(b, a) :: a == b
  {
    forall a, b
      ensures AtMost(a, b) || AtMost(b, a)
      ensures AtMost(a, b) && AtMost(b, a) ==> a == b
    {
      AtMostTotal(a, b);
    }
    forall a, b, c | AtMost(a, b) && AtMost(b, c) ensures AtMost(a, c) { AtMostTransitive(a, b, c); }
  }

  /** The order is that of Go strings: a prefix comes first, otherwise the first differing byte decides. */
  lemma {:induction false} AtMostExactly(a: ByteString, b: ByteString)
    ensures AtMost(a, b) <==> a <= b || exists i :: 0 <= i < |a| && i < |b| && a[..i] == b[..i] && a[i] < b[i]
  {
    if |a| > 0 && |b| > 0 {
      if a[0] == b[0] {
        AtMostExactly(a[1..], b[1..]);
        RestDiffers(a, b);
      } else if b[0] < a[0] {
        assert forall i | 0 < i <= |a| && i <= |b| :: a[..i][0] != b[..i][0];
      } else {
        assert a[..0] == b[..0];
      }
    }
  }

  /** Equal first bytes move the first difference along by one. */
  lemma RestDiffers(a: ByteString, b: ByteString)
    requires |a| > 0 && |b| > 0 && a[0] == b[0]
    ensures a <= b <==> a[1..] <= b[1..]
    ensures (exists i :: 0 <= i < |a| && i < |b| && a[..i] == b[..i] && a[i] < b[i])
       <==> (exists i :: 0 <= i < |a[1..]| && i < |b[1..]| && a[1..][..i] == b[1..][..i] && a[1..][i] < b[1..][i])
  {
    var c, d := a[1..], b[1..];
    assert a == [a[0]] + c && b == [b[0]] + d;
    if i :| 0 <= i < |a| && i < |b| && a[..i] == b[..i] && a[i] < b[i] {
      assert c[..i - 1] == a[..i][1..] && d[..i - 1] == b[..i][1..];
      assert c[i - 1] < d[i - 1];
    }
    if i :| 0 <= i < |c| && i < |d| && c[..i] == d[..i] && c[i] < d[i] {
      assert a[..i + 1] == [a[0]] + c[..i] && b[..i + 1] == [b[0]] + d[..i];
      assert a[i + 1] < b[i + 1];
    }
    if a <= b { assert c == a[1..] && b[1..|a|] == c; }
  }

  // ----- hexadecimal text -----

  function HexDigit(n: byte): byte
    requires n < 16
  { if n < 10 then 48 + n else 87 + n }

  function HexValue(c: byte): Option<byte> {
    if 48 <= c <= 57 then Some(c - 48)
    else if 97 <= c <= 102 then Some(c - 87)
    else if 65 <= c <= 70 then Some(c - 55)
    else None
  }

  function HexEncode(b: ByteString): ByteString {
    if |b| == 0 then [] else [HexDigit(b[0] / 16), HexDigit(b[0] % 16)] + HexEncode(b[1..])
  }

  function HexDecode(s: ByteString): Option<ByteString> {
    if |s| == 0 then Some([])
    else if |s| == 1 then None
    else
      match (HexValue(s[0]), HexValue(s[1]), HexDecode(s[2..]))
      case (Some(hi), Some(lo), Some(rest)) => Some([16 * hi + lo] + rest)
      case _ => None
  }

  lemma {:induction false} HexRoundTrip(b: ByteString)
    ensures HexDecode(HexEncode(b)) == Some(b)
  {
    if |b| != 0 {
      HexRoundTrip(b[1..]);
      var t := HexEncode(b);
      assert t[2..] == HexEncode(b[1..]);
      assert b == [b[0]] + b[1..];
    }
  }

  lemma HexInjective(a: ByteString, b: ByteString)
    requires HexEncode(a) == HexEncode(b)
    ensures a == b
  {
    HexRoundTrip(a);
    HexRoundTrip(b);
  }

  /** Each byte becomes two lower-case hexadecimal digits, the high one first. */
  lemma {:induction false} HexDigitsAre(b: ByteString)
    ensures |HexEncode(b)| == 2 * |b|
    ensures forall i | 0 <= i < |b| ::
              && HexEncode(b)[2 * i] as int == "0123456789abcdef"[b[i] as int / 16] as int
              && HexEncode(b)[2 * i + 1] as int == "0123456789abcdef"[b[i] as int % 16] as int
  {
    if |b| != 0 {
      var rest := HexEncode(b[1..]);
      HexDigitsAre(b[1..]);
      DigitIs(b[0] / 16);
      DigitIs(b[0] % 16);
      assert HexEncode(b)[2..] == rest;
      forall i | 0 < i < |b|
        ensures HexEncode(b)[2 * i] as int == "0123456789abcdef"[b[i] as int / 16] as int
        ensures HexEncode(b)[2 * i + 1] as int == "0123456789abcdef"[b[i] as int % 16] as int
      {
        assert b[i] == b[1..][i - 1];
        assert HexEncode(b)[2 * i] == rest[2 * (i - 1)] && HexEncode(b)[2 * i + 1] == rest[2 * (i - 1) + 1];
      }
    }
  }

  lemma DigitIs(n: byte)
    requires n < 16
    ensures HexDigit(n) as int == "0123456789abcdef"[n as int] as int
  {}

  /** c is the digit d, or the upper-case form of it. */
  predicate SameDigit(c: byte, d: byte) { c == d || (65 <= c <= 70 && c + 32 == d) }

  /** What decodes to some bytes is their hexadecimal text, in either case of letters. */
  lemma {:induction false} HexDecodesExactly(s: ByteString, b: ByteString)
    ensures HexDecode(s) == Some(b) <==>
            |s| == |HexEncode(b)| &&
            forall i | 0 <= i < |s| ::
              s[i] == HexEncode(b)[i] || (65 <= s[i] <= 70 && s[i] + 32 == HexEncode(b)[i])
  {
    if |s| < 2 || |b| == 0 {
      HexDigitsAre(b);
    } else {
      var t, hi, lo := HexEncode(b), b[0] / 16, b[0] % 16;
      HexDecodesExactly(s[2..], b[1..]);
      DigitDecodes(s[0], hi);
      DigitDecodes(s[1], lo);
      assert b == [16 * hi + lo] + b[1..];
      assert t[2..] == HexEncode(b[1..]);
      assert forall i | 2 <= i < |s| :: s[i] == s[2..][i - 2];
      assert forall i | 2 <= i < |t| :: t[i] == t[2..][i - 2];
      FirstDigits(s, b, t);
    }
  }

  lemma DigitDecodes(c: byte, n: byte)
    requires n < 16
    ensures HexValue(c) == Some(n) <==> SameDigit(c, HexDigit(n))
    ensures HexValue(c).Some? ==> HexValue(c).value < 16
  {}

  lemma FirstDigits(s: ByteString, b: ByteString, t: ByteString)
    requires |s| >= 2 && |b| > 0 && t == HexEncode(b)
    requires HexDecode(s[2..]) == Some(b[1..]) <==>
             |s[2..]| == |t[2..]| && forall i | 0 <= i < |s[2..]| :: SameDigit(s[2..][i], t[2..][i])
    ensures HexDecode(s) == Some(b) <==> |s| == |t| && forall i | 0 <= i < |s| :: SameDigit(s[i], t[i])
  {
    hide HexValue, HexDigit, SameDigit, HexDecode;
    var hi, lo := b[0] / 16, b[0] % 16;
    DecodeStep(s, b);
    DigitDecodes(s[0], hi);
    DigitDecodes(s[1], lo);
    assert t[0] == HexDigit(hi) && t[1] == HexDigit(lo);
    if |s| == |t| && SameDigit(s[0], t[0]) && SameDigit(s[1], t[1]) {
      SplitAgreement(s, t);
    }
    assert |s| == |t| <==> |s[2..]| == |t[2..]|;
  }

  lemma SplitAgreement(s: ByteString, t: ByteString)
    requires |s| == |t| >= 2 && SameDigit(s[0], t[0]) && SameDigit(s[1], t[1])
    ensures (forall i | 0 <= i < |s| :: SameDigit(s[i], t[i]))
       <==> forall i | 0 <= i < |s[2..]| :: SameDigit(s[2..][i], t[2..][i])
  {
    hide SameDigit;
    if forall i | 0 <= i < |s[2..]| :: SameDigit(s[2..][i], t[2..][i]) {
      forall i | 0 <= i < |s| ensures SameDigit(s[i], t[i]) {
        if i >= 2 { assert SameDigit(s[2..][i - 2], t[2..][i - 2]); }
      }
    }
    if forall i | 0 <= i < |s| :: SameDigit(s[i], t[i]) {
      forall i | 0 <= i < |s[2..]| ensures SameDigit(s[2..][i], t[2..][i]) { assert SameDigit(s[i + 2], t[i + 2]); }
    }
  }

  lemma DecodeStep(s: ByteString, b: ByteString)
    requires |s| >= 2 && |b| > 0
    ensures HexDecode(s) == Some(b) <==>
            HexValue(s[0]) == Some(b[0] / 16) && HexValue(s[1]) == Some(b[0] % 16) && HexDecode(s[2..]) == Some(b[1..])
  {
    DigitDecodes(s[0], 0);
    DigitDecodes(s[1], 0);
    hide HexValue;
    if HexValue(s[0]).Some? && HexValue(s[1]).Some? && HexDecode(s[2..]).Some? {
      var h, l, rest := HexValue(s[0]).value, HexValue(s[1]).value, HexDecode(s[2..]).value;
      assert HexDecode(s) == Some([16 * h + l] + rest);
      assert ([16 * h + l] + rest)[1..] == rest;
      assert b == [b[0]] + b[1..];
      assert (16 * h + l) / 16 == h && (16 * h + l) % 16 == l;
    }
  }

  // ----- big-endian 32-bit words -----

  const TWO_TO_THE_32 := 0x1_0000_0000

  /** PutUint32(uint32(n)): the conversion drops the high bits. */
  function BigEndian(n: nat): (r: ByteString)
    ensures |r| == 4
  {
    [(n / 0x100_0000 % 256) as byte, (n / 0x1_0000 % 256) as byte, (n / 0x100 % 256) as byte, (n % 256) as byte]
  }

  function Word(b: ByteString): (r: nat)
    requires |b| == 4
  {
    b[0] as int * 0x100_0000 + b[1] as int * 0x1_0000 + b[2] as int * 0x100 + b[3] as int
  }

  lemma WordRoundTrip(n: nat)
    ensures Word(BigEndian(n)) == n % TWO_TO_THE_32
  {
    var q0 := n / 0x100;
    var q1 := q0 / 0x100;
    var q2 := q1 / 0x100;
    assert n / 0x1_0000 == q1 && n / 0x100_0000 == q2;
    var q3 := q2 / 0x100;
    var w := q2 % 0x100 * 0x100_0000 + q1 % 0x100 * 0x1_0000 + q0 % 0x100 * 0x100 + n % 0x100;
    assert n == q3 * TWO_TO_THE_32 + w;
    LowWord(n, q3, w);
  }

  lemma LowWord(n: nat, q: nat, w: nat)
    requires n == q * TWO_TO_THE_32 + w && w < TWO_TO_THE_32
    ensures n % TWO_TO_THE_32 == w
  {}

  /** Every four bytes are one word. */
  lemma WordsAreFourBytes(b: ByteString)
    requires |b| == 4
    ensures Word(b) < TWO_TO_THE_32 && BigEndian(Word(b)) == b
  {
    var q2, q1, q0 := b[0] as int, b[0] as int * 0x100 + b[1] as int,
      (b[0] as int * 0x100 + b[1] as int) * 0x100 + b[2] as int;
    var n := Word(b);
    assert n == q0 * 0x100 + b[3] as int;
    assert n / 0x100 == q0 && q0 / 0x100 == q1 && q1 / 0x100 == q2;
    assert n / 0x1_0000 == q1 && n / 0x100_0000 == q2;
  }

  /** The high byte comes first: words are ordered as their bytes are. */
  lemma WordsKeepOrder(n: nat, m: nat)
    requires n <= m < TWO_TO_THE_32
    ensures AtMost(BigEndian(n), BigEndian(m))
  {
    hide Word, BigEndian, AtMost;
    var a, b := BigEndian(n), BigEndian(m);
    WordRoundTrip(n);
    WordRoundTrip(m);
    AtMostTotal(a, b);
    if AtMost(b, a) { WordIsMonotone(b, a); }
  }

  lemma WordIsMonotone(a: ByteString, b: ByteString)
    requires |a| == |b| == 4 && AtMost(a, b)
    ensures Word(a) <= Word(b)
  {
    AtMostExactly(a, b);
    if !(a <= b) {
      var i :| 0 <= i < 4 && a[..i] == b[..i] && a[i] < b[i];
      assert forall j | 0 <= j < i :: a[j] == a[..i][j] == b[j];
    } else {
      assert a == b;
    }
  }
}
