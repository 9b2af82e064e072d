/** The name order of the directory walk: comparing UTF-8 encodings byte by byte. */
module Utf8Order {

  /** The UTF-8 form of one code point (section 3 of RFC 3629). */
  function EncodeCodePoint(n: nat): (bytes: seq<int>)
    requires n < 0x110000
    ensures |bytes| == Width(n)
  {
    var (a, b, c) := (n / 0x40, n / 0x40 / 0x40, n / 0x40 / 0x40 / 0x40);
    if n < 0x80 then [n]
    else if n < 0x800 then [0xC0 + a, 0x80 + n % 0x40]
    else if n < 0x10000 then [0xE0 + b, 0x80 + a % 0x40, 0x80 + n % 0x40]
    else [0xF0 + c, 0x80 + b % 0x40, 0x80 + a % 0x40, 0x80 + n % 0x40]
  }

  function Width(n: nat): nat {
    if n < 0x80 then 1 else if n < 0x800 then 2 else if n < 0x10000 then 3 else 4
  }

  function EncodeChar(c: char): seq<int> {
    EncodeCodePoint(c as int)
  }

  function Encode(s: string): seq<int> {
    if s == "" then [] else EncodeChar(s[0]) + Encode(s[1..])
  }

  /** `Buffer.compare`: the first differing byte decides, then the length. */
  function CompareBytes(a: seq<int>, b: seq<int>): int {
    if a == [] && b == [] then 0
    else if a == [] then -1
    else if b == [] then 1
    else if a[0] != b[0] then (if a[0] < b[0] then -1 else 1)
    else CompareBytes(a[1..], b[1..])
  }

  function CompareUtf8(left: string, right: string): int {
    CompareBytes(Encode(left), Encode(right))
  }

  /** Lexicographic order of code points. */
  function CompareCodePoints(a: string, b: string): int {
    if a == "" && b == "" then 0
    else if a == "" then -1
    else if b == "" then 1
    else if a[0] != b[0] then (if a[0] < b[0] then -1 else 1)
    else CompareCodePoints(a[1..], b[1..])
  }

  predicate Leq(a: string, b: string) {
    CompareUtf8(a, b) <= 0
  }

  lemma {:induction false} CompareCommonHead(h: seq<int>, a: seq<int>, b: seq<int>)
    ensures CompareBytes(h + a, h + b) == CompareBytes(a, b)
  {
    if h == [] {
      assert h + a == a && h + b == b;
    } else {
      assert (h + a)[1..] == h[1..] + a && (h + b)[1..] == h[1..] + b;
      CompareCommonHead(h[1..], a, b);
    }
  }

  /** Order of two numbers, read off their last base-64 digit and the rest. */
  lemma Digits(m: nat, n: nat)
    requires m <= n
    ensures m / 0x40 <= n / 0x40
    ensures m / 0x40 == n / 0x40 ==> m % 0x40 <= n % 0x40 && (m < n ==> m % 0x40 < n % 0x40)
  {
  }

  ghost predicate DifferAt(x: seq<int>, y: seq<int>, k: nat) {
    k < |x| && k < |y| && x[..k] == y[..k] && x[k] < y[k]
  }

  lemma {:induction false} OtherWidthDiffers(m: nat, n: nat)
    requires m < n < 0x110000 && Width(m) != Width(n)
    ensures DifferAt(EncodeCodePoint(m), EncodeCodePoint(n), 0)
  {
  }

  lemma SameWidthDiffers(m: nat, n: nat) returns (k: nat)
    requires m < n < 0x110000 && Width(m) == Width(n)
    ensures DifferAt(EncodeCodePoint(m), EncodeCodePoint(n), k)
  {
    if m < 0x800 {
      k := ShortDiffers(m, n);
    } else if m < 0x10000 {
      k := ThreeBytesDiffer(m, n);
    } else {
      k := FourBytesDiffer(m, n);
    }
  }

  lemma ShortDiffers(m: nat, n: nat) returns (k: nat)
    requires m < n < 0x800 && Width(m) == Width(n)
    ensures DifferAt(EncodeCodePoint(m), EncodeCodePoint(n), k)
  {
    Digits(m, n);
    k := if m < 0x80 || m / 0x40 != n / 0x40 then 0 else 1;
  }

  lemma ThreeBytesDiffer(m: nat, n: nat) returns (k: nat)
    requires 0x800 <= m < n < 0x10000
    ensures DifferAt(EncodeCodePoint(m), EncodeCodePoint(n), k)
  {
    var (a, a') := (m / 0x40, n / 0x40);
    Digits(m, n);
    Digits(a, a');
    k := if a / 0x40 != a' / 0x40 then 0 else if a != a' then 1 else 2;
  }

  lemma FourBytesDiffer(m: nat, n: nat) returns (k: nat)
    requires 0x10000 <= m < n < 0x110000
    ensures DifferAt(EncodeCodePoint(m), EncodeCodePoint(n), k)
  {
    var (a, b) := (m / 0x40, m / 0x40 / 0x40);
    var (a', b') := (n / 0x40, n / 0x40 / 0x40);
    Digits(m, n);
    Digits(a, a');
    Digits(b, b');
    k := if b / 0x40 != b' / 0x40 then 0 else if b != b' then 1 else if a != a' then 2 else 3;
  }

  /** The byte position at which two different characters differ; the smaller character has the smaller byte. */
  lemma EncodingsDiffer(c: char, d: char) returns (k: nat)
    requires c < d
    ensures DifferAt(EncodeChar(c), EncodeChar(d), k)
  {
    if Width(c as int) != Width(d as int) {
      k := 0;
      OtherWidthDiffers(c as int, d as int);
    } else {
      k := SameWidthDiffers(c as int, d as int);
    }
  }

  lemma FirstDifferenceDecides(x: seq<int>, y: seq<int>, k: nat, a: seq<int>, b: seq<int>)
    requires DifferAt(x, y, k)
    ensures CompareBytes(x + a, y + b) == -1
    ensures CompareBytes(y + b, x + a) == 1
  {
    assert x + a == x[..k] + (x[k..] + a);
    assert y + b == x[..k] + (y[k..] + b);
    CompareCommonHead(x[..k], x[k..] + a, y[k..] + b);
    CompareCommonHead(x[..k], y[k..] + b, x[k..] + a);
  }

  /** Comparing encodings is comparing code points. */
  lemma {:induction false} Utf8OrderIsCodePointOrder(a: string, b: string)
    ensures CompareUtf8(a, b) == CompareCodePoints(a, b)
  {
    if a != "" && b != "" {
      if a[0] == b[0] {
        CompareCommonHead(EncodeChar(a[0]), Encode(a[1..]), Encode(b[1..]));
        Utf8OrderIsCodePointOrder(a[1..], b[1..]);
      } else if a[0] < b[0] {
        var k := EncodingsDiffer(a[0], b[0]);
        FirstDifferenceDecides(EncodeChar(a[0]), EncodeChar(b[0]), k, Encode(a[1..]), Encode(b[1..]));
      } else {
        var k := EncodingsDiffer(b[0], a[0]);
        FirstDifferenceDecides(EncodeChar(b[0]), EncodeChar(a[0]), k, Encode(b[1..]), Encode(a[1..]));
      }
    }
  }

  lemma {:induction false} CodePointsAntisymmetric(a: string, b: string)
    ensures CompareCodePoints(a, b) == -CompareCodePoints(b, a)
    ensures CompareCodePoints(a, b) == 0 <==> a == b
  {
    if a != "" && b != "" && a[0] == b[0] {
      CodePointsAntisymmetric(a[1..], b[1..]);
      assert a == [a[0]] + a[1..] && b == [b[0]] + b[1..];
    }
  }

  lemma {:induction false} CodePointsTransitive(a: string, b: string, c: string)
    requires CompareCodePoints(a, b) <= 0 && CompareCodePoints(b, c) <= 0
    ensures CompareCodePoints(a, c) <= 0
  {
    if a != "" && b != "" && c != "" && a[0] == b[0] == c[0] {
      CodePointsTransitive(a[1..], b[1..], c[1..]);
    }
  }

  /** `compareUtf8` is a total order: total and antisymmetric on any two names, transitive on any three. */
  lemma LeqIsTotalOrder(a: string, b: string, c: string)
    ensures Leq(a, b) || Leq(b, a)
    ensures Leq(a, b) && Leq(b, a) ==> a == b
    ensures Leq(a, b) && Leq(b, c) ==> Leq(a, c)
    ensures CompareUtf8(a, b) == 0 <==> a == b
  {
    Utf8OrderIsCodePointOrder(a, b);
    Utf8OrderIsCodePointOrder(b, a);
    Utf8OrderIsCodePointOrder(b, c);
    Utf8OrderIsCodePointOrder(a, c);
    CodePointsAntisymmetric(a, b);
    if Leq(a, b) && Leq(b, c) {
      CodePointsTransitive(a, b, c);
    }
  }

  lemma LeqReflexive(a: string)
    ensures Leq(a, a)
  {
    LeqIsTotalOrder(a, a, a);
  }

  /** The text is the beginning of the other, or has the smaller code point where they first differ. */
  ghost predicate Precedes(a: string, b: string) {
    a <= b || exists k :: 0 <= k < |a| && k < |b| && a[..k] == b[..k] && a[k] < b[k]
  }

  lemma {:induction false} LeqIsPrecedes(a: string, b: string)
    ensures Leq(a, b) <==> Precedes(a, b)
  {
    Utf8OrderIsCodePointOrder(a, b);
    CodePointsPrecede(a, b);
  }

  lemma {:induction false} CodePointsPrecede(a: string, b: string)
    ensures CompareCodePoints(a, b) <= 0 <==> Precedes(a, b)
  {
    if a != "" && b != "" {
      if a[0] == b[0] {
        CodePointsPrecede(a[1..], b[1..]);
        SameHeadPrecedes(a, b);
      } else {
        assert a[..0] == b[..0];
      }
    }
  }

  lemma SameHeadPrecedes(a: string, b: string)
    requires a != "" && b != "" && a[0] == b[0]
    ensures Precedes(a, b) <==> Precedes(a[1..], b[1..])
  {
    var (x, y) := (a[1..], b[1..]);
    assert a == [a[0]] + x && b == [b[0]] + y;
    if k :| 0 <= k < |a| && k < |b| && a[..k] == b[..k] && a[k] < b[k] {
      assert x[..k - 1] == a[..k][1..] && y[..k - 1] == b[..k][1..];
      assert x[k - 1] == a[k] && y[k - 1] == b[k];
    }
    if k :| 0 <= k < |x| && k < |y| && x[..k] == y[..k] && x[k] < y[k] {
      assert a[..k + 1] == [a[0]] + x[..k] && b[..k + 1] == [b[0]] + y[..k];
      assert a[k + 1] == x[k] && b[k + 1] == y[k];
    }
  }

  /** The bytes of a code point, read back by the table of section 3 of RFC 3629. */
  lemma EncodingReadsBack(n: nat)
    requires n < 0x110000
    ensures var b := EncodeCodePoint(n);
            && (forall i :: 1 <= i < |b| ==> 128 <= b[i] < 192)
            && match |b|
               case 1 => n == b[0] < 128
               case 2 => 194 <= b[0] < 224 && n == (b[0] - 192) * 64 + (b[1] - 128)
               case 3 => 224 <= b[0] < 240 && n == (b[0] - 224) * 4096 + (b[1] - 128) * 64 + (b[2] - 128) >= 2048
               case _ =>
                 && |b| == 4 && 240 <= b[0] < 245 && n >= 65536
                 && n == (b[0] - 240) * 262144 + (b[1] - 128) * 4096 + (b[2] - 128) * 64 + (b[3] - 128)
  {
    var (a, b) := (n / 0x40, n / 0x40 / 0x40);
    assert n == 64 * a + n % 0x40 && a == 64 * b + a % 0x40 && b == 64 * (b / 0x40) + b % 0x40;
  }
}
