/** The base64 encoder used for HTTP basic authentication.

    Shifts and masks are written as division and remainder.  The decoder is the
    one section 4 of RFC 4648 describes, taking only the canonical encodings:
    unused bits must be zero.
 */
module Base64 {
  import opened Prelude

  newtype Byte = x: int | 0 <= x < 256

  const UPPER: string := "ABCDEFGHIJKLMNOPQRSTUVWXYZ"
  const LOWER: string := "abcdefghijklmnopqrstuvwxyz"
  const NUMERALS: string := "0123456789"
  const ALPHABET: string := UPPER + LOWER + NUMERALS + "+/"

  function Digit(n: int): char {
    ALPHABET[n % 64]
  }

  function Word(a: Byte, b: Byte, c: Byte): int {
    a as int * 65536 + b as int * 256 + c as int
  }

  // The encoding by groups of three bytes.
  function Encode(bs: seq<Byte>): string {
    if |bs| == 0 then ""
    else if |bs| == 1 then
      var n := Word(bs[0], 0, 0);
      [Digit(n / 262144), Digit(n / 4096), '=', '=']
    else if |bs| == 2 then
      var n := Word(bs[0], bs[1], 0);
      [Digit(n / 262144), Digit(n / 4096), Digit(n / 64), '=']
    else
      var n := Word(bs[0], bs[1], bs[2]);
      [Digit(n / 262144), Digit(n / 4096), Digit(n / 64), Digit(n)] + Encode(bs[3..])
  }

  method Base64Encode(bytes: seq<Byte>) returns (out: string)
    ensures out == Encode(bytes)
  {
    out := "";
    var i := 0;
    while i + 3 <= |bytes|
      invariant 0 <= i <= |bytes|
      invariant Encode(bytes) == out + Encode(bytes[i..])
    {
      assert bytes[i..][0] == bytes[i] && bytes[i..][1] == bytes[i + 1] && bytes[i..][2] == bytes[i + 2];
      assert bytes[i..][3..] == bytes[i + 3..];
      var n := Word(bytes[i], bytes[i + 1], bytes[i + 2]);
      out := out + [Digit(n / 262144), Digit(n / 4096), Digit(n / 64), Digit(n)];
      i := i + 3;
    }
    var rem := |bytes| - i;
    if rem == 1 {
      var n := Word(bytes[i], 0, 0);
      out := out + [Digit(n / 262144), Digit(n / 4096), '=', '='];
    } else if rem == 2 {
      var n := Word(bytes[i], bytes[i + 1], 0);
      out := out + [Digit(n / 262144), Digit(n / 4096), Digit(n / 64), '='];
    }
  }

  // ---------- Decoding ----------

  // The position of c in the alphabet.
  function Sextet(c: char): Option<nat> {
    if 'A' <= c <= 'Z' then Some(c as int - 'A' as int)
    else if 'a' <= c <= 'z' then Some(c as int - 'a' as int + 26)
    else if '0' <= c <= '9' then Some(c as int - '0' as int + 52)
    else if c == '+' then Some(62)
    else if c == '/' then Some(63)
    else None
  }

  function DecodeTwo(w: nat, x: nat): Option<seq<Byte>>
    requires w < 64 && x < 64
  {
    if x % 16 != 0 then None else Some([(w * 4 + x / 16) as Byte])
  }

  function DecodeThree(w: nat, x: nat, y: nat): Option<seq<Byte>>
    requires w < 64 && x < 64 && y < 64
  {
    if y % 4 != 0 then None else Some([(w * 4 + x / 16) as Byte, (x % 16 * 16 + y / 4) as Byte])
  }

  function DecodeFour(w: nat, x: nat, y: nat, z: nat): seq<Byte>
    requires w < 64 && x < 64 && y < 64 && z < 64
  {
    [(w * 4 + x / 16) as Byte, (x % 16 * 16 + y / 4) as Byte, (y % 4 * 64 + z) as Byte]
  }

  // Groups of four characters; padding only at the very end.
  function Decode(s: string): Option<seq<Byte>> {
    if s == "" then Some([])
    else if |s| < 4 then None
    else
      match (Sextet(s[0]), Sextet(s[1]), Sextet(s[2]), Sextet(s[3]))
      case (Some(w), Some(x), Some(y), Some(z)) =>
        var rest :- Decode(s[4..]);
        Some(DecodeFour(w, x, y, z) + rest)
      case (Some(w), Some(x), Some(y), None) => if s[3] == '=' && |s| == 4 then DecodeThree(w, x, y) else None
      case (Some(w), Some(x), None, None) => if s[2] == '=' && s[3] == '=' && |s| == 4 then DecodeTwo(w, x) else None
      case _ => None
  }

  // ---------- Round trips ----------

  lemma UpperAt(d: nat)
    requires d < 26
    ensures UPPER[d] == 'A' + d as char
  {
  }

  lemma LowerAt(d: nat)
    requires d < 26
    ensures LOWER[d] == 'a' + d as char
  {
  }

  lemma NumeralsAt(d: nat)
    requires d < 10
    ensures NUMERALS[d] == '0' + d as char
  {
  }

  lemma Lengths()
    ensures |UPPER| == 26 && |LOWER| == 26 && |NUMERALS| == 10
  {
  }

  lemma AlphabetAt(d: nat)
    requires d < 64
    ensures |ALPHABET| == 64
    ensures ALPHABET[d] == if d < 26 then 'A' + d as char
                           else if d < 52 then 'a' + (d - 26) as char
                           else if d < 62 then '0' + (d - 52) as char
                           else if d == 62 then '+' else '/'
  {
    Lengths();
    if d < 26 {
      UpperAt(d);
    } else if d < 52 {
      LowerAt(d - 26);
    } else if d < 62 {
      NumeralsAt(d - 52);
    }
    AllAt(UPPER, LOWER, NUMERALS, "+/", d);
  }

  lemma AllAt(a: string, b: string, c: string, e: string, d: nat)
    requires |a| == 26 && |b| == 26 && |c| == 10 && |e| == 2 && d < 64
    ensures |a + b + c + e| == 64
    ensures (a + b + c + e)[d] == if d < 26 then a[d] else if d < 52 then b[d - 26] else if d < 62 then c[d - 52] else e[d - 62]
  {
  }

  lemma SextetOfDigit(n: int)
    ensures Sextet(Digit(n)) == Some(n % 64)
  {
    AlphabetAt(n % 64);
  }

  lemma SextetInjective(c: char, d: char)
    requires Sextet(c).Some? && Sextet(c) == Sextet(d)
    ensures c == d
  {
  }

  lemma DigitOfSextet(c: char)
    requires Sextet(c).Some?
    ensures Digit(Sextet(c).value) == c
  {
    hide Digit, Sextet;
    var d := Sextet(c).value;
    SextetBound(c);
    SextetOfDigit(d);
    SextetInjective(Digit(d), c);
  }

  lemma SextetBound(c: char)
    requires Sextet(c).Some?
    ensures Sextet(c).value < 64
  {
  }

  lemma By4(q: int, r: int)
    requires 0 <= r < 4
    ensures (4 * q + r) / 4 == q && (4 * q + r) % 4 == r
  {
  }

  lemma By16(q: int, r: int)
    requires 0 <= r < 16
    ensures (16 * q + r) / 16 == q && (16 * q + r) % 16 == r
  {
  }

  lemma By4096(q: int, r: int)
    requires 0 <= r < 4096
    ensures (4096 * q + r) / 4096 == q
  {
  }

  lemma By262144(q: int, r: int)
    requires 0 <= r < 262144
    ensures (262144 * q + r) / 262144 == q
  {
  }

  lemma By64(q: int, r: int)
    requires 0 <= r < 64
    ensures (64 * q + r) / 64 == q && (64 * q + r) % 64 == r
  {
  }

  // The three bytes and the four sextets of a group are the same 24 bits.
  lemma FirstSextets(a: int, b: int, c: int)
    requires 0 <= a < 256 && 0 <= b < 256 && 0 <= c < 256
    ensures var n := a * 65536 + b * 256 + c; n / 262144 % 64 == a / 4 && n / 4096 % 64 == a % 4 * 16 + b / 16
  {
    var a1, a0, b1, b0 := a / 4, a % 4, b / 16, b % 16;
    assert a == 4 * a1 + a0 && b == 16 * b1 + b0;
    var n := a * 65536 + b * 256 + c;
    assert n == 262144 * a1 + (a0 * 65536 + b * 256 + c);
    By262144(a1, a0 * 65536 + b * 256 + c);
    assert n == 4096 * (64 * a1 + (a0 * 16 + b1)) + (b0 * 256 + c);
    By4096(64 * a1 + (a0 * 16 + b1), b0 * 256 + c);
    By64(a1, a0 * 16 + b1);
    By64(0, a1);
  }

  lemma ThirdSextet(a: int, b: int, c: int)
    requires 0 <= a < 256 && 0 <= b < 256 && 0 <= c < 256
    ensures (a * 65536 + b * 256 + c) / 64 % 64 == b % 16 * 4 + c / 64
  {
    var b1, b0, c1, c0 := b / 16, b % 16, c / 64, c % 64;
    assert b == 16 * b1 + b0 && c == 64 * c1 + c0;
    var low := b0 * 4 + c1;
    var q := 64 * (a * 16 + b1) + low;
    assert a * 65536 + b * 256 + c == 64 * q + c0;
    By64(q, c0);
    By64(a * 16 + b1, low);
  }

  lemma LastSextets(a: int, b: int, c: int)
    requires 0 <= a < 256 && 0 <= b < 256 && 0 <= c < 256
    ensures var n := a * 65536 + b * 256 + c; n / 64 % 64 == b % 16 * 4 + c / 64 && n % 64 == c % 64
  {
    ThirdSextet(a, b, c);
    FourthSextet(a * 1024 + b * 4, c);
    assert a * 65536 + b * 256 + c == 64 * (a * 1024 + b * 4) + c;
  }

  lemma FourthSextet(q: int, c: int)
    requires 0 <= c < 256
    ensures (64 * q + c) % 64 == c % 64
  {
    assert 64 * q + c == 64 * (q + c / 64) + c % 64;
    By64(q + c / 64, c % 64);
  }

  predicate HasSextets(n: int, w: nat, x: nat, y: nat, z: nat) {
    n / 262144 % 64 == w && n / 4096 % 64 == x && n / 64 % 64 == y && n % 64 == z
  }

  lemma GroupBits(a: Byte, b: Byte, c: Byte)
    ensures var n := Word(a, b, c);
            && DecodeFour(n / 262144 % 64, n / 4096 % 64, n / 64 % 64, n % 64) == [a, b, c]
            && (c == 0 ==> DecodeThree(n / 262144 % 64, n / 4096 % 64, n / 64 % 64) == Some([a, b]))
            && (b == 0 ==> DecodeTwo(n / 262144 % 64, n / 4096 % 64) == Some([a]))
  {
    hide DecodeTwo, DecodeThree, DecodeFour;
    WordBits(a, b, c);
    BytesBack(a, b, c);
  }

  lemma WordBits(a: Byte, b: Byte, c: Byte)
    ensures HasSextets(Word(a, b, c), a as int / 4, a as int % 4 * 16 + b as int / 16, b as int % 16 * 4 + c as int / 64, c as int % 64)
  {
    FirstSextets(a as int, b as int, c as int);
    LastSextets(a as int, b as int, c as int);
  }

  lemma BytesBack(a: Byte, b: Byte, c: Byte)
    ensures var w, x, y, z := a as int / 4, a as int % 4 * 16 + b as int / 16, b as int % 16 * 4 + c as int / 64, c as int % 64;
            && w < 64 && x < 64 && y < 64
            && DecodeFour(w, x, y, z) == [a, b, c]
            && (c == 0 ==> DecodeThree(w, x, y) == Some([a, b]))
            && (b == 0 ==> DecodeTwo(w, x) == Some([a]))
  {
    GroupBack(a as int, b as int, c as int);
  }

  lemma GroupBack(a: int, b: int, c: int)
    requires 0 <= a < 256 && 0 <= b < 256 && 0 <= c < 256
    ensures a / 4 * 4 + (a % 4 * 16 + b / 16) / 16 == a
    ensures (a % 4 * 16 + b / 16) % 16 * 16 + (b % 16 * 4 + c / 64) / 4 == b
    ensures (b % 16 * 4 + c / 64) % 4 * 64 + c % 64 == c
    ensures b == 0 ==> (a % 4 * 16 + b / 16) % 16 == 0
    ensures c == 0 ==> (b % 16 * 4 + c / 64) % 4 == 0
  {
  }

  // Decoding the encoding of any bytes gives the bytes back.
  lemma {:induction false} DecodeEncode(bs: seq<Byte>)
    ensures Decode(Encode(bs)) == Some(bs)
  {
    hide Digit, Sextet, Word, DecodeTwo, DecodeThree, DecodeFour;
    if |bs| > 0 {
      var a, b, c := bs[0], if |bs| > 1 then bs[1] else 0, if |bs| > 2 then bs[2] else 0;
      var n := Word(a, b, c);
      GroupBits(a, b, c);
      SextetOfDigit(n / 262144);
      SextetOfDigit(n / 4096);
      SextetOfDigit(n / 64);
      SextetOfDigit(n);
      if |bs| > 2 {
        DecodeEncode(bs[3..]);
        var own := [Digit(n / 262144), Digit(n / 4096), Digit(n / 64), Digit(n)];
        assert (own + Encode(bs[3..]))[4..] == Encode(bs[3..]);
        assert bs == [a, b, c] + bs[3..];
      } else {
        PadIsNoDigit();
        assert bs == if |bs| == 1 then [a] else [a, b];
      }
    }
  }

  lemma PadIsNoDigit()
    ensures Sextet('=') == None
  {
  }

  // Four sextets make three bytes, and the bytes give the sextets back.
  lemma BytesOfSextets(w: nat, x: nat, y: nat, z: nat)
    requires w < 64 && x < 64 && y < 64 && z < 64
    ensures var a, b, c := w * 4 + x / 16, x % 16 * 16 + y / 4, y % 4 * 64 + z;
            && a < 256 && b < 256 && c < 256
            && a / 4 == w && a % 4 * 16 + b / 16 == x && b % 16 * 4 + c / 64 == y && c % 64 == z
  {
    var x1, x0, y1, y0 := x / 16, x % 16, y / 4, y % 4;
    assert x == 16 * x1 + x0 && y == 4 * y1 + y0;
    By4(w, x1);
    By16(x0, y1);
    By64(y0, z);
  }

  lemma WordSextets(w: nat, x: nat, y: nat, z: nat)
    requires w < 64 && x < 64 && y < 64 && z < 64
    ensures HasSextets((w * 4 + x / 16) * 65536 + (x % 16 * 16 + y / 4) * 256 + (y % 4 * 64 + z), w, x, y, z)
  {
    var a, b, c := w * 4 + x / 16, x % 16 * 16 + y / 4, y % 4 * 64 + z;
    BytesOfSextets(w, x, y, z);
    FirstSextets(a, b, c);
    LastSextets(a, b, c);
  }

  // The bits of a group decode and encode to the same sextets.
  lemma FourSextets(w: nat, x: nat, y: nat, z: nat)
    requires w < 64 && x < 64 && y < 64 && z < 64
    ensures var bs := DecodeFour(w, x, y, z); HasSextets(Word(bs[0], bs[1], bs[2]), w, x, y, z)
  {
    hide HasSextets, Word;
    var a, b, c := w * 4 + x / 16, x % 16 * 16 + y / 4, y % 4 * 64 + z;
    BytesOfSextets(w, x, y, z);
    WordOfBytes(a, b, c);
    WordSextets(w, x, y, z);
    assert DecodeFour(w, x, y, z) == [a as Byte, b as Byte, c as Byte];
  }

  lemma WordOfBytes(a: nat, b: nat, c: nat)
    requires a < 256 && b < 256 && c < 256
    ensures Word(a as Byte, b as Byte, c as Byte) == a * 65536 + b * 256 + c
  {
  }

  // A short group is a full one with zeros.
  lemma ShortGroups(w: nat, x: nat, y: nat)
    requires w < 64 && x < 64 && y < 64
    ensures y % 4 == 0 ==> DecodeThree(w, x, y).Some? && |DecodeThree(w, x, y).value| == 2 && DecodeFour(w, x, y, 0) == DecodeThree(w, x, y).value + [0]
    ensures y == 0 && x % 16 == 0 ==> DecodeTwo(w, x).Some? && |DecodeTwo(w, x).value| == 1 && DecodeFour(w, x, y, 0) == DecodeTwo(w, x).value + [0, 0]
  {
  }

  lemma ThreeSextets(w: nat, x: nat, y: nat)
    requires w < 64 && x < 64 && y < 64 && y % 4 == 0
    ensures var bs := DecodeThree(w, x, y).value; HasSextets(Word(bs[0], bs[1], 0), w, x, y, 0)
  {
    hide HasSextets, Word, DecodeThree, DecodeFour;
    FourSextets(w, x, y, 0);
    ShortGroups(w, x, y);
    var bs, all := DecodeThree(w, x, y).value, DecodeFour(w, x, y, 0);
    assert all[0] == bs[0] && all[1] == bs[1] && all[2] == 0;
  }

  lemma TwoSextets(w: nat, x: nat)
    requires w < 64 && x < 64 && x % 16 == 0
    ensures var bs := DecodeTwo(w, x).value; HasSextets(Word(bs[0], 0, 0), w, x, 0, 0)
  {
    hide HasSextets, Word, DecodeTwo, DecodeFour;
    FourSextets(w, x, 0, 0);
    ShortGroups(w, x, 0);
    var bs, all := DecodeTwo(w, x).value, DecodeFour(w, x, 0, 0);
    assert all[0] == bs[0] && all[1] == 0 && all[2] == 0;
  }

  // The encoding is the only text that decodes to the bytes.
  lemma {:induction false} EncodeDecode(s: string)
    requires Decode(s).Some?
    ensures Encode(Decode(s).value) == s
  {
    hide Digit, Sextet, Word;
    if s != "" {
      var w, x := Sextet(s[0]).value, Sextet(s[1]).value;
      DigitIs(s[0], w);
      DigitIs(s[1], x);
      if Sextet(s[2]).Some? {
        var y := Sextet(s[2]).value;
        DigitIs(s[2], y);
        if Sextet(s[3]).Some? {
          var z := Sextet(s[3]).value;
          DigitIs(s[3], z);
          FourSextets(w, x, y, z);
          EncodeDecode(s[4..]);
          GroupEncodes(w, x, y, z, Decode(s[4..]).value);
          assert s == [s[0], s[1], s[2], s[3]] + s[4..];
        } else {
          ThreeSextets(w, x, y);
          var bs := DecodeThree(w, x, y).value;
          SameDigits(Word(bs[0], bs[1], 0), w, x, y, 0);
        }
      } else {
        TwoSextets(w, x);
        var bs := DecodeTwo(w, x).value;
        SameDigits(Word(bs[0], 0, 0), w, x, 0, 0);
      }
    }
  }

  lemma DigitIs(c: char, d: nat)
    requires Sextet(c) == Some(d)
    ensures Digit(d) == c && d < 64
  {
    DigitOfSextet(c);
    SextetBound(c);
  }

  lemma DigitOfRemainder(n: int, d: nat)
    requires n % 64 == d
    ensures Digit(n) == Digit(d)
  {
    assert d % 64 == d;
  }

  lemma SameDigits(n: int, w: nat, x: nat, y: nat, z: nat)
    ensures n / 262144 % 64 == w ==> Digit(n / 262144) == Digit(w)
    ensures n / 4096 % 64 == x ==> Digit(n / 4096) == Digit(x)
    ensures n / 64 % 64 == y ==> Digit(n / 64) == Digit(y)
    ensures n % 64 == z ==> Digit(n) == Digit(z)
  {
    hide Digit;
    DigitOfRemainder(n / 262144, n / 262144 % 64);
    DigitOfRemainder(n / 4096, n / 4096 % 64);
    DigitOfRemainder(n / 64, n / 64 % 64);
    DigitOfRemainder(n, n % 64);
  }

  lemma GroupEncodes(w: nat, x: nat, y: nat, z: nat, rest: seq<Byte>)
    requires w < 64 && x < 64 && y < 64 && z < 64
    ensures Encode(DecodeFour(w, x, y, z) + rest) == [Digit(w), Digit(x), Digit(y), Digit(z)] + Encode(rest)
  {
    hide Digit, Word;
    var own := DecodeFour(w, x, y, z);
    var n := Word(own[0], own[1], own[2]);
    FourSextets(w, x, y, z);
    SameDigits(n, w, x, y, z);
    assert (own + rest)[3..] == rest;
  }

  // The length is 4 * ceil(n / 3); the characters are those of the alphabet, and the
  // padding, as long as the last group is short, stands at the end.
  predicate HasShape(s: string, n: nat) {
    var pad := (3 - n % 3) % 3;
    && |s| == 4 * ((n + 2) / 3)
    && pad <= |s|
    && (forall i :: 0 <= i < |s| - pad ==> Sextet(s[i]).Some?)
    && (forall i :: |s| - pad <= i < |s| ==> s[i] == '=')
  }

  lemma OneGroupMore(own: string, s: string, n: nat)
    requires HasShape(s, n) && |own| == 4 && forall i :: 0 <= i < 4 ==> Sextet(own[i]).Some?
    ensures HasShape(own + s, n + 3)
  {
    hide Sextet;
    assert (n + 3) % 3 == n % 3 && (n + 5) / 3 == (n + 2) / 3 + 1;
  }

  lemma {:induction false} EncodeShape(bs: seq<Byte>)
    ensures HasShape(Encode(bs), |bs|)
  {
    hide Digit, Sextet, Word;
    if |bs| > 0 {
      var n := Word(bs[0], if |bs| > 1 then bs[1] else 0, if |bs| > 2 then bs[2] else 0);
      SextetOfDigit(n / 262144);
      SextetOfDigit(n / 4096);
      SextetOfDigit(n / 64);
      SextetOfDigit(n);
      if |bs| > 2 {
        EncodeShape(bs[3..]);
        OneGroupMore([Digit(n / 262144), Digit(n / 4096), Digit(n / 64), Digit(n)], Encode(bs[3..]), |bs| - 3);
      }
    }
  }
}
