/** Hexadecimal text as both receive paths handle it: the digit alphabet,
    `Integer.parseInt(s, 16)` on digit strings, the narrowing cast `(byte) v`,
    `bytesToHex` (two lower-case digits per byte) and `String.toUpperCase()`.
    `EncodeHex` and `HexToBytes` are the inverses the decoders are proved against. */
module HexText {

  /** A Java `byte`: a signed 8-bit value. */
  newtype JByte = x: int | -128 <= x < 128

  /** `0xFF & b`: the unsigned value of a byte. */
  function Unsigned(b: JByte): (u: nat)
    ensures u < 256 && (u - b as int) % 256 == 0
  {
    if b < 0 then b as int + 256 else b as int
  }

  /** The narrowing cast `(byte) v`: the one byte congruent to v modulo 256. */
  function SignedByte(v: int): (b: JByte)
    ensures (v - b as int) % 256 == 0
  {
    var m := v % 256;
    if m >= 128 then (m - 256) as JByte else m as JByte
  }

  /** The cast and `0xFF &` undo each other. */
  lemma ByteCastsInverse(b: JByte, u: nat)
    requires u < 256
    ensures SignedByte(Unsigned(b)) == b
    ensures Unsigned(SignedByte(u)) == u
  {
    var r := SignedByte(Unsigned(b));
    assert (b as int - r as int) % 256 == 0;
    var q := Unsigned(SignedByte(u));
    assert (u - q) % 256 == 0;
  }

  predicate IsHexDigit(c: char) {
    '0' <= c <= '9' || 'A' <= c <= 'F' || 'a' <= c <= 'f'
  }

  predicate IsUpperHexDigit(c: char) {
    '0' <= c <= '9' || 'A' <= c <= 'F'
  }

  predicate AllHex(s: string) {
    forall i :: 0 <= i < |s| ==> IsHexDigit(s[i])
  }

  predicate AllUpperHex(s: string)
    ensures AllUpperHex(s) ==> AllHex(s)
  {
    forall i :: 0 <= i < |s| ==> IsUpperHexDigit(s[i])
  }

  /** The characters of the class `[0-9A-Fa-f]`. */
  const HexClass: string := "0123456789ABCDEFabcdef"

  /** `s.matches("[0-9A-Fa-f]+")`: a non-empty run of hex digits and nothing else. */
  predicate MatchesHex(s: string) {
    |s| > 0 && AllHex(s)
  }

  /** MatchesHex accepts exactly the non-empty texts drawn from the class `[0-9A-Fa-f]`. */
  lemma MatchesHexClass(s: string)
    ensures MatchesHex(s) <==> |s| > 0 && forall i :: 0 <= i < |s| ==> s[i] in HexClass
  {
    HexClassDigits();
  }

  /** The class `[0-9A-Fa-f]` holds exactly the hex digits. */
  lemma HexClassDigits()
    ensures forall c: char :: IsHexDigit(c) <==> c in HexClass
  {
    forall c: char ensures IsHexDigit(c) <==> c in HexClass {
      if '0' <= c <= '9' {
        assert HexClass[c as int - '0' as int] == c;
      } else if 'A' <= c <= 'F' {
        assert HexClass[c as int - 'A' as int + 10] == c;
      } else if 'a' <= c <= 'f' {
        assert HexClass[c as int - 'a' as int + 16] == c;
      }
    }
  }

  /** `Character.digit(c, 16)` on a hex digit. */
  function DigitValue(c: char): (d: nat)
    requires IsHexDigit(c)
    ensures d < 16
  {
    if '0' <= c <= '9' then c as int - '0' as int
    else if 'A' <= c <= 'F' then c as int - 'A' as int + 10
    else c as int - 'a' as int + 10
  }

  /** `Character.forDigit(d, 16)`: the lower-case digit that `Integer.toHexString` writes. */
  function LowerDigit(d: nat): (c: char)
    requires d < 16
    ensures IsHexDigit(c) && !('A' <= c <= 'F') && DigitValue(c) == d
  {
    if d < 10 then ('0' as int + d) as char else ('a' as int + d - 10) as char
  }

  /** The upper-case digit for d. */
  function UpperDigit(d: nat): (c: char)
    requires d < 16
    ensures IsUpperHexDigit(c) && DigitValue(c) == d
  {
    if d < 10 then ('0' as int + d) as char else ('A' as int + d - 10) as char
  }

  /** `Character.toUpperCase` on ASCII: a..z become A..Z, everything else is kept. */
  function UpperChar(c: char): (u: char)
    ensures 'a' <= c <= 'z' ==> 'A' <= u <= 'Z' && u as int - 'A' as int == c as int - 'a' as int
    ensures !('a' <= c <= 'z') ==> u == c
    ensures !('a' <= u <= 'z')
  {
    if 'a' <= c <= 'z' then (c as int - 32) as char else c
  }

  /** Upper-casing a hex digit keeps its value and yields the canonical upper-case digit. */
  lemma UpperDigitOfValue(c: char)
    requires IsHexDigit(c)
    ensures IsUpperHexDigit(UpperChar(c)) && DigitValue(UpperChar(c)) == DigitValue(c)
    ensures UpperDigit(DigitValue(c)) == UpperChar(c)
  {
  }

  /** `String.toUpperCase()` on ASCII text. */
  function ToUpper(s: string): (u: string)
    ensures |u| == |s|
  {
    seq(|s|, i requires 0 <= i < |s| => UpperChar(s[i]))
  }

  function Pow16(n: nat): (p: nat)
    ensures p >= 1
  {
    if n == 0 then 1 else 16 * Pow16(n - 1)
  }

  /** `Integer.parseInt(s, 16)` on a string of hex digits, most significant digit first. */
  function HexValue(s: string): (v: nat)
    requires AllHex(s)
    ensures v < Pow16(|s|)
    decreases |s|
  {
    if s == [] then 0 else HexValue(s[..|s| - 1]) * 16 + DigitValue(s[|s| - 1])
  }

  /** A run of hex digits parses as 0 exactly when every digit is '0'. */
  lemma {:induction false} HexValueZero(s: string)
    requires AllHex(s)
    ensures HexValue(s) == 0 <==> forall i :: 0 <= i < |s| ==> s[i] == '0'
    decreases |s|
  {
    if s != [] {
      var init := s[..|s| - 1];
      HexValueZero(init);
      assert forall i :: 0 <= i < |init| ==> init[i] == s[i];
    }
  }

  /** The n upper-case hex digits of v, most significant first (v is taken modulo 16^n):
      the text a device writes into a field n digits wide. */
  function EncodeHex(v: nat, n: nat): (s: string)
    ensures |s| == n && AllUpperHex(s)
  {
    if n == 0 then [] else EncodeHex(v / 16, n - 1) + [UpperDigit(v % 16)]
  }

  /** Parsing a field written by EncodeHex gives back the value written. */
  lemma {:induction false} DecodeEncodeHex(v: nat, n: nat)
    requires v < Pow16(n)
    ensures HexValue(EncodeHex(v, n)) == v
  {
    if n > 0 {
      var s := EncodeHex(v, n);
      assert s[..n - 1] == EncodeHex(v / 16, n - 1);
      DecodeEncodeHex(v / 16, n - 1);
    }
  }

  /** Splitting a parsed value into its last digit and the rest. */
  lemma DivMod16(x: nat, d: nat)
    requires d < 16
    ensures (x * 16 + d) / 16 == x && (x * 16 + d) % 16 == d
  {
  }

  /** Writing back a parsed field gives the field itself, up to letter case. */
  lemma {:induction false} EncodeHexValue(s: string)
    requires AllHex(s)
    ensures EncodeHex(HexValue(s), |s|) == ToUpper(s)
  {
    if s != [] {
      var n := |s|;
      var p := s[..n - 1];
      var d := DigitValue(s[n - 1]);
      EncodeHexValue(p);
      DivMod16(HexValue(p), d);
      assert HexValue(s) == HexValue(p) * 16 + d;
      assert EncodeHex(HexValue(s), n) == EncodeHex(HexValue(p), n - 1) + [UpperDigit(d)];
      UpperDigitOfValue(s[n - 1]);
      assert ToUpper(s) == ToUpper(p) + [UpperChar(s[n - 1])];
    }
  }

  /** Upper-casing does not change the parsed value. */
  lemma {:induction false} HexValueToUpper(s: string)
    requires AllHex(s)
    ensures AllHex(ToUpper(s)) && HexValue(ToUpper(s)) == HexValue(s)
  {
    if s != [] {
      var n := |s|;
      HexValueToUpper(s[..n - 1]);
      assert ToUpper(s)[..n - 1] == ToUpper(s[..n - 1]);
    }
  }

  lemma ShiftByDigit(h: nat, p: nat, r: nat)
    ensures (h * p + r) * 16 == h * (p * 16) + r * 16
  {
  }

  /** Parsing a concatenation: the digits of a are shifted left by |b| places. */
  lemma {:induction false} HexValueConcat(a: string, b: string)
    requires AllHex(a) && AllHex(b)
    ensures AllHex(a + b) && HexValue(a + b) == HexValue(a) * Pow16(|b|) + HexValue(b)
  {
    if b == [] {
      assert a + b == a;
    } else {
      var n := |b|;
      var b' := b[..n - 1];
      assert (a + b)[..|a + b| - 1] == a + b';
      HexValueConcat(a, b');
      var h, p := HexValue(a), Pow16(n - 1);
      assert HexValue(a + b) == HexValue(a + b') * 16 + DigitValue(b[n - 1]);
      assert HexValue(b) == HexValue(b') * 16 + DigitValue(b[n - 1]);
      assert Pow16(n) == p * 16;
      ShiftByDigit(h, p, HexValue(b'));
    }
  }

  /** `Integer.toHexString(v)` for 0 <= v < 256: lower-case digits, no leading zeros. */
  function ToHexString(v: nat): (s: string)
    requires v < 256
    ensures 1 <= |s| <= 2 && AllHex(s) && HexValue(s) == v
    ensures |s| == 1 <==> v < 16
  {
    if v < 16 then [LowerDigit(v)] else [LowerDigit(v / 16), LowerDigit(v % 16)]
  }

  /** One step of bytesToHex: `Integer.toHexString(0xFF & b)`, with a '0' in front when it
      has a single digit. The result is two lower-case digits, high nibble first. */
  function ByteToHex(b: JByte): (s: string)
    ensures |s| == 2 && AllHex(s) && HexValue(s) == Unsigned(b)
    ensures s[0] == LowerDigit(Unsigned(b) / 16) && s[1] == LowerDigit(Unsigned(b) % 16)
  {
    var hex := ToHexString(Unsigned(b));
    if |hex| == 1 then ['0'] + hex else hex
  }

  /** bytesToHex: each byte in turn, as ByteToHex writes it. */
  function BytesToHex(bytes: seq<JByte>): (h: string)
    ensures |h| == 2 * |bytes|
  {
    if bytes == [] then [] else BytesToHex(bytes[..|bytes| - 1]) + ByteToHex(bytes[|bytes| - 1])
  }

  lemma BytesToHexSnoc(bytes: seq<JByte>, b: JByte)
    ensures BytesToHex(bytes + [b]) == BytesToHex(bytes) + ByteToHex(b)
  {
    assert (bytes + [b])[..|bytes|] == bytes;
  }

  /** Byte i of the input is written at characters 2i and 2i+1 of the output. */
  lemma BytesToHexAt(bytes: seq<JByte>, i: nat)
    requires i < |bytes|
    ensures BytesToHex(bytes)[2 * i..2 * i + 2] == ByteToHex(bytes[i])
  {
    TakeSnoc(bytes, i);
    TakeDrop(bytes, i + 1);
    BytesToHexAppend(bytes[..i + 1], bytes[i + 1..]);
    BytesToHexSnoc(bytes[..i], bytes[i]);
    var hf, hm, hb := BytesToHex(bytes[..i]), ByteToHex(bytes[i]), BytesToHex(bytes[i + 1..]);
    SliceOfFront(hf + hm, hb, 2 * i, 2 * i + 2);
    SliceOfBack(hf, hm);
  }

  lemma TakeSnoc(s: seq<JByte>, i: nat)
    requires i < |s|
    ensures s[..i] + [s[i]] == s[..i + 1]
  {
  }

  lemma TakeDrop(s: seq<JByte>, i: nat)
    requires i <= |s|
    ensures s[..i] + s[i..] == s
  {
  }

  lemma SliceOfFront(a: string, b: string, lo: nat, hi: nat)
    requires lo <= hi <= |a|
    ensures (a + b)[lo..hi] == a[lo..hi]
  {
  }

  lemma SliceOfBack(a: string, b: string)
    ensures (a + b)[|a|..|a| + |b|] == b
  {
  }

  /** bytesToHex of two byte runs back to back is the two texts back to back. */
  lemma {:induction false} BytesToHexAppend(a: seq<JByte>, b: seq<JByte>)
    ensures BytesToHex(a + b) == BytesToHex(a) + BytesToHex(b)
  {
    if b != [] {
      var n := |b|;
      assert (a + b)[..|a + b| - 1] == a + b[..n - 1];
      BytesToHexAppend(a, b[..n - 1]);
    } else {
      assert a + b == a;
    }
  }

  /** toUpperCase works character by character, so it commutes with slicing. */
  lemma ToUpperSlice(s: string, i: nat, j: nat)
    requires i <= j <= |s|
    ensures ToUpper(s)[i..j] == ToUpper(s[i..j])
  {
  }

  /** toUpperCase commutes with cutting a text in two. */
  lemma ToUpperSplit(s: string, i: nat)
    requires i <= |s|
    ensures ToUpper(s)[..i] == ToUpper(s[..i]) && ToUpper(s)[i..] == ToUpper(s[i..])
  {
  }

  /** toUpperCase leaves upper-case hex text as it is. */
  lemma ToUpperOfUpper(s: string)
    requires AllUpperHex(s)
    ensures ToUpper(s) == s
  {
    assert forall i :: 0 <= i < |s| ==> ToUpper(s)[i] == s[i];
  }

  lemma ToUpperAppend(a: string, b: string)
    ensures ToUpper(a + b) == ToUpper(a) + ToUpper(b)
  {
  }

  /** bytesToHex writes only lower-case hex digits (no A..F). */
  lemma {:induction false} BytesToHexAlphabet(bytes: seq<JByte>)
    ensures AllHex(BytesToHex(bytes))
    ensures forall i :: 0 <= i < |BytesToHex(bytes)| ==> !('A' <= BytesToHex(bytes)[i] <= 'F')
  {
    if bytes != [] {
      BytesToHexAlphabet(bytes[..|bytes| - 1]);
    }
  }

  /** After toUpperCase, the text of any chunk consists of upper-case hex digits only. */
  lemma UpperHexChunk(bytes: seq<JByte>)
    ensures AllUpperHex(ToUpper(BytesToHex(bytes)))
  {
    BytesToHexAlphabet(bytes);
  }

  /** Reads hex text back as bytes, two digits per byte. */
  function HexToBytes(h: string): (bytes: seq<JByte>)
    requires |h| % 2 == 0 && AllHex(h)
    ensures |bytes| == |h| / 2
  {
    if h == [] then [] else HexToBytes(h[..|h| - 2]) + [SignedByte(HexValue(h[|h| - 2..]))]
  }

  lemma EvenLength(n: nat)
    requires n > 0
    ensures (2 * n) % 2 == 0 && (2 * n - 2) % 2 == 0 && (2 * n - 2) / 2 == n - 1
  {
  }

  /** Reading back the text bytesToHex wrote recovers the bytes. */
  lemma {:induction false} HexToBytesRoundTrip(bytes: seq<JByte>)
    ensures AllHex(BytesToHex(bytes)) && HexToBytes(BytesToHex(bytes)) == bytes
  {
    assert AllHex(BytesToHex(bytes)) by { BytesToHexAlphabet(bytes); }
    if bytes != [] {
      var n := |bytes|;
      var init, b := bytes[..n - 1], bytes[n - 1];
      assert bytes == init + [b];
      var h := BytesToHex(bytes);
      var last := ByteToHex(b);
      HexToBytesRoundTrip(init);
      assert h == BytesToHex(bytes[..n - 1]) + last;
      assert h[..|h| - 2] == BytesToHex(bytes[..n - 1]);
      assert h[|h| - 2..] == last;
      EvenLength(n);
      ByteCastsInverse(bytes[n - 1], 0);
      assert SignedByte(HexValue(last)) == bytes[n - 1];
      assert HexToBytes(h) == HexToBytes(h[..|h| - 2]) + [SignedByte(HexValue(h[|h| - 2..]))];
    }
  }

  /** Reading hex text back as bytes ignores letter case. */
  lemma {:induction false} HexToBytesToUpper(h: string)
    requires |h| % 2 == 0 && AllHex(h)
    ensures AllHex(ToUpper(h)) && HexToBytes(ToUpper(h)) == HexToBytes(h)
  {
    if h == [] {
      assert ToUpper(h) == [];
    } else {
      HexToBytesToUpper(h[..|h| - 2]);
      HexToBytesToUpperStep(h);
    }
  }

  /** The induction step of HexToBytesToUpper: one more pair at the end. */
  lemma HexToBytesToUpperStep(h: string)
    requires |h| % 2 == 0 && AllHex(h) && h != []
    requires |h| >= 2 && AllHex(ToUpper(h[..|h| - 2]))
    requires HexToBytes(ToUpper(h[..|h| - 2])) == HexToBytes(h[..|h| - 2])
    ensures AllHex(ToUpper(h)) && HexToBytes(ToUpper(h)) == HexToBytes(h)
  {
    var n, u := |h|, ToUpper(h);
    HexValueToUpper(h);
    HexToBytesUnfold(h);
    HexToBytesUnfold(u);
    ToUpperSplit(h, n - 2);
    assert HexValue(u[n - 2..]) == HexValue(h[n - 2..]) by {
      HexValueToUpper(h[n - 2..]);
    }
  }

  /** The last pair of a non-empty even-length hex text is its last byte. */
  lemma HexToBytesUnfold(h: string)
    requires |h| % 2 == 0 && AllHex(h) && h != []
    ensures |h| >= 2 && (|h| - 2) % 2 == 0 && AllHex(h[..|h| - 2]) && AllHex(h[|h| - 2..])
    ensures HexToBytes(h) == HexToBytes(h[..|h| - 2]) + [SignedByte(HexValue(h[|h| - 2..]))]
  {
  }

  /** The text the hex receive path buffers for a chunk (bytesToHex, then toUpperCase)
      decodes back to the chunk. */
  lemma ChunkTextRoundTrip(bytes: seq<JByte>)
    ensures AllHex(ToUpper(BytesToHex(bytes))) && HexToBytes(ToUpper(BytesToHex(bytes))) == bytes
  {
    HexToBytesRoundTrip(bytes);
    HexToBytesToUpper(BytesToHex(bytes));
  }
}
