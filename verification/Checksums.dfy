/** The file checksum: 64-bit FNV-1a, printed as sixteen hexadecimal digits. */
module Checksums {
  import opened Bytes

  const WORD: int := 0x1_0000_0000_0000_0000
  const OFFSET_BASIS: int := 14695981039346656037
  const PRIME: int := 1099511628211

  // ---- one step

  function Pow2(k: nat): int {
    if k == 0 then 1 else 2 * Pow2(k - 1)
  }

  /** Exclusive or of the lowest k bits. */
  function Xor(a: int, b: int, k: nat): int
    decreases k
  {
    if k == 0 then 0 else 2 * Xor(a / 2, b / 2, k - 1) + (a % 2 + b % 2) % 2
  }

  lemma {:induction false} XorRange(a: int, b: int, k: nat)
    ensures 0 <= Xor(a, b, k) < Pow2(k)
    decreases k
  {
    if k == 0 {
    } else {
      XorRange(a / 2, b / 2, k - 1);
    }
  }

  lemma Halves(h: int, d: int)
    requires 0 <= d < 2
    ensures (2 * h + d) / 2 == h && (2 * h + d) % 2 == d
  {
  }

  lemma BitTwice(a: int, b: int)
    ensures ((a % 2 + b % 2) % 2 + b % 2) % 2 == a % 2
  {
  }

  lemma XorUnfold(a: int, b: int, k: nat)
    requires k > 0
    ensures Xor(a, b, k) == 2 * Xor(a / 2, b / 2, k - 1) + (a % 2 + b % 2) % 2
    ensures Xor(a, b, k) / 2 == Xor(a / 2, b / 2, k - 1) && Xor(a, b, k) % 2 == (a % 2 + b % 2) % 2
  {
    Halves(Xor(a / 2, b / 2, k - 1), (a % 2 + b % 2) % 2);
  }

  lemma {:induction false} XorTwice(a: int, b: int, k: nat)
    requires 0 <= a < Pow2(k) && 0 <= b < Pow2(k)
    ensures Xor(Xor(a, b, k), b, k) == a
    decreases k
  {
    if k == 0 {
    } else {
      XorUnfold(a, b, k);
      XorUnfold(Xor(a, b, k), b, k);
      XorTwice(a / 2, b / 2, k - 1);
      BitTwice(a, b);
    }
  }

  lemma {:induction false} XorSwap(a: int, b: int, k: nat)
    ensures Xor(a, b, k) == Xor(b, a, k)
    decreases k
  {
    if k == 0 {
    } else {
      XorSwap(a / 2, b / 2, k - 1);
    }
  }

  /** The mixture and either part determine the other part. */
  lemma XorUndone(a: int, b: int, k: nat)
    requires 0 <= a < Pow2(k) && 0 <= b < Pow2(k)
    ensures Xor(Xor(a, b, k), b, k) == a
    ensures Xor(a, Xor(a, b, k), k) == b
  {
    XorTwice(a, b, k);
    XorTwice(b, a, k);
    XorSwap(a, b, k);
    XorSwap(a, Xor(a, b, k), k);
  }

  /** A byte, mixed into the lowest eight bits of the state. */
  function XorByte(h: int, b: int): int {
    h / 256 * 256 + Xor(h % 256, b, 8)
  }

  function Step(h: int, b: int): int {
    XorByte(h, b) * PRIME % WORD
  }

  lemma Pow2Of8()
    ensures Pow2(8) == 256
  {
    assert Pow2(4) == 16;
    assert Pow2(6) == 64;
  }

  lemma XorByteRange(h: int, b: int)
    requires 0 <= h < WORD
    ensures 0 <= XorByte(h, b) < WORD
    ensures XorByte(h, b) / 256 == h / 256 && XorByte(h, b) % 256 == Xor(h % 256, b, 8)
  {
    hide Xor;
    Pow2Of8();
    XorRange(h % 256, b, 8);
  }

  /** The binary digit of weight two to the k. */
  function Bit(n: int, k: nat): int
    decreases k
  {
    if k == 0 then n % 2 else Bit(n / 2, k - 1)
  }

  lemma {:induction false} BitsOfXor(a: int, b: int, n: nat, k: nat)
    requires k < n
    ensures Bit(Xor(a, b, n), k) == (Bit(a, k) + Bit(b, k)) % 2
    decreases n
  {
    XorUnfold(a, b, n);
    if k == 0 {
    } else {
      BitsOfXor(a / 2, b / 2, n - 1, k - 1);
    }
  }

  /** The digits of a number put together from two parts. */
  lemma {:induction false} BitsOfParts(high: int, m: nat, low: int, k: nat)
    requires 0 <= low < Pow2(m)
    ensures Bit(high * Pow2(m) + low, k) == if k < m then Bit(low, k) else Bit(high, k - m)
    decreases m
  {
    if m == 0 {
    } else {
      assert high * Pow2(m) == 2 * (high * Pow2(m - 1));
      Halves(high * Pow2(m - 1) + low / 2, low % 2);
      if k == 0 {
      } else {
        BitsOfParts(high, m - 1, low / 2, k - 1);
      }
    }
  }

  lemma {:induction false} NoBits(k: nat)
    ensures Bit(0, k) == 0
  {
    if k == 0 {
    } else {
      NoBits(k - 1);
    }
  }

  /** Mixing in a byte is exclusive or, digit by digit. */
  lemma MixedDigitwise(h: int, b: int, k: nat)
    requires 0 <= b < 256
    ensures Bit(XorByte(h, b), k) == (Bit(h, k) + Bit(b, k)) % 2
  {
    hide Xor;
    Pow2Of8();
    XorRange(h % 256, b, 8);
    BitsOfParts(h / 256, 8, Xor(h % 256, b, 8), k);
    BitsOfParts(h / 256, 8, h % 256, k);
    BitsOfParts(0, 8, b, k);
    if k < 8 {
      BitsOfXor(h % 256, b, 8, k);
    } else {
      NoBits(k - 8);
      BitIsDigit(h / 256, k - 8);
    }
  }

  lemma {:induction false} BitIsDigit(n: int, k: nat)
    ensures 0 <= Bit(n, k) < 2
    decreases k
  {
    if k == 0 {
    } else {
      BitIsDigit(n / 2, k - 1);
    }
  }

  /** The state and the byte each determine the other from their mixture. */
  lemma XorByteInjective(h1: int, b1: int, h2: int, b2: int)
    requires 0 <= h1 < WORD && 0 <= h2 < WORD && 0 <= b1 < 256 && 0 <= b2 < 256
    ensures XorByte(h1, b1) == XorByte(h2, b2) ==> (h1 == h2 <==> b1 == b2)
  {
    Pow2Of8();
    XorByteRange(h1, b1);
    XorByteRange(h2, b2);
    XorUndone(h1 % 256, b1, 8);
    XorUndone(h2 % 256, b2, 8);
    assert h1 == h1 / 256 * 256 + h1 % 256 && h2 == h2 / 256 * 256 + h2 % 256;
  }

  /** Multiplication by the prime is undone by its inverse modulo the word size. */
  lemma MultiplyUndone(x: int)
    requires 0 <= x < WORD
    ensures x * PRIME % WORD * 14886173955864302971 % WORD == x
  {
    var j := x * PRIME / WORD;
    var r := x * PRIME % WORD;
    assert r == x * 1099511628211 - j * 0x1_0000_0000_0000_0000;
    var t := x * 887285111055 - j * 14886173955864302971;
    assert r * 14886173955864302971 == x + t * 0x1_0000_0000_0000_0000;
  }

  /** Each step is injective in the state and in the byte. */
  lemma StepInjective(h1: int, b1: int, h2: int, b2: int)
    requires 0 <= h1 < WORD && 0 <= h2 < WORD && 0 <= b1 < 256 && 0 <= b2 < 256
    ensures Step(h1, b1) == Step(h2, b2) ==> (h1 == h2 <==> b1 == b2)
  {
    hide XorByte;
    XorByteRange(h1, b1);
    XorByteRange(h2, b2);
    MultiplyUndone(XorByte(h1, b1));
    MultiplyUndone(XorByte(h2, b2));
    XorByteInjective(h1, b1, h2, b2);
  }

  // ---- the hash of a content

  function Hash(s: Text): int {
    if s == [] then OFFSET_BASIS else Step(Hash(s[..|s| - 1]), s[|s| - 1])
  }

  predicate AreBytes(s: Text) {
    forall i | 0 <= i < |s| :: 0 <= s[i] < 256
  }

  lemma {:induction false} HashRange(s: Text)
    ensures 0 <= Hash(s) < WORD
  {
  }

  method ComputeHash(s: Text) returns (hash: int)
    ensures hash == Hash(s)
  {
    hash := OFFSET_BASIS;
    for i := 0 to |s|
      invariant hash == Hash(s[..i])
    {
      assert s[..i + 1][..i] == s[..i];
      hash := XorByte(hash, s[i]);
      hash := hash * PRIME % WORD;
    }
    assert s[..|s|] == s;
  }

  predicate DifferAt(a: Text, b: Text, i: nat) {
    |a| == |b| && i < |a| && a[i] != b[i] && forall j | 0 <= j < |a| && j != i :: a[j] == b[j]
  }

  /** A common suffix neither creates nor removes a collision. */
  lemma {:induction false} HashSuffix(a: Text, b: Text, s: Text)
    requires AreBytes(s)
    ensures Hash(a + s) == Hash(b + s) <==> Hash(a) == Hash(b)
  {
    if s == [] {
      assert a + s == a && b + s == b;
    } else {
      var n, c := |s| - 1, s[|s| - 1];
      assert (a + s)[..|a + s| - 1] == a + s[..n] && (b + s)[..|b + s| - 1] == b + s[..n];
      HashSuffix(a, b, s[..n]);
      HashRange(a + s[..n]);
      HashRange(b + s[..n]);
      if Hash(a + s) == Hash(b + s) {
        StepInjective(Hash(a + s[..n]), c, Hash(b + s[..n]), c);
      }
    }
  }

  /** Contents that differ in exactly one byte have different hashes. */
  lemma OneByteChangesHash(a: Text, b: Text, i: nat)
    requires AreBytes(a) && AreBytes(b) && DifferAt(a, b, i)
    ensures Hash(a) != Hash(b)
  {
    var head, tail := a[..i], a[i + 1..];
    assert a == head + [a[i]] + tail && b == head + [b[i]] + tail;
    assert (head + [a[i]])[..i] == head && (head + [b[i]])[..i] == head;
    HashRange(head);
    if Hash(head + [a[i]]) == Hash(head + [b[i]]) {
      StepInjective(Hash(head), a[i], Hash(head), b[i]);
    }
    HashSuffix(head + [a[i]], head + [b[i]], tail);
  }

  // ---- the printed form

  function Digit(d: int): Byte
  {
    if d < 10 then 48 + d else 97 + d - 10
  }

  function DigitValue(c: Byte): int {
    if c < 97 then c - 48 else c - 97 + 10
  }

  /** Hexadecimal digits without leading zeros; zero prints as one digit. */
  function Hex(n: nat): Text {
    if n < 16 then [Digit(n)] else Hex(n / 16) + [Digit(n % 16)]
  }

  function Zeros(k: nat): Text {
    if k == 0 then [] else Zeros(k - 1) + [48]
  }

  /** Padded on the left with zeros to a width of sixteen. */
  function Print(n: nat): Text {
    if |Hex(n)| < 16 then Zeros(16 - |Hex(n)|) + Hex(n) else Hex(n)
  }

  function Read(s: Text): int {
    if s == [] then 0 else Read(s[..|s| - 1]) * 16 + DigitValue(s[|s| - 1])
  }

  lemma {:induction false} ReadHex(z: Text, n: nat)
    requires Read(z) == 0
    ensures Read(z + Hex(n)) == n
  {
    if n < 16 {
      assert (z + Hex(n))[..|z|] == z;
    } else {
      ReadHex(z, n / 16);
      assert (z + Hex(n))[..|z + Hex(n)| - 1] == z + Hex(n / 16);
    }
  }

  lemma {:induction false} ReadZeros(k: nat)
    ensures Read(Zeros(k)) == 0
  {
    if k == 0 {
    } else {
      ReadZeros(k - 1);
      assert Zeros(k)[..|Zeros(k)| - 1] == Zeros(k - 1);
    }
  }

  /** Reading the printed form gives the number back, so different hashes print differently. */
  lemma ReadPrint(n: nat)
    ensures Read(Print(n)) == n
  {
    if |Hex(n)| < 16 {
      ReadZeros(16 - |Hex(n)|);
      ReadHex(Zeros(16 - |Hex(n)|), n);
    } else {
      ReadHex([], n);
      assert [] + Hex(n) == Hex(n);
    }
  }

  function Pow16(k: nat): int {
    if k == 0 then 1 else 16 * Pow16(k - 1)
  }

  lemma {:induction false} HexLength(n: nat, k: nat)
    requires k > 0 && n < Pow16(k)
    ensures |Hex(n)| <= k
  {
    if n < 16 {
    } else {
      assert k > 1;
      HexLength(n / 16, k - 1);
    }
  }

  lemma {:induction false} ZerosLength(k: nat)
    ensures |Zeros(k)| == k
  {
    if k == 0 {
    } else {
      ZerosLength(k - 1);
    }
  }

  /** Every hash prints with exactly sixteen digits. */
  lemma PrintLength(n: nat)
    requires n < WORD
    ensures |Print(n)| == 16
  {
    assert Pow16(4) == 0x1_0000 && Pow16(8) == 0x1_0000_0000;
    assert Pow16(12) == 0x1_0000_0000_0000 && Pow16(16) == WORD;
    HexLength(n, 16);
    if |Hex(n)| < 16 {
      ZerosLength(16 - |Hex(n)|);
    }
  }

  function Checksum(s: Text): Text {
    HashRange(s);
    Print(Hash(s))
  }

  method ComputeChecksum(s: Text) returns (checksum: Text)
    ensures checksum == Checksum(s)
  {
    var hash := ComputeHash(s);
    HashRange(s);
    checksum := Print(hash);
  }

  /** A one-byte substitution always changes the checksum. */
  lemma OneByteChangesChecksum(a: Text, b: Text, i: nat)
    requires AreBytes(a) && AreBytes(b) && DifferAt(a, b, i)
    ensures Checksum(a) != Checksum(b)
  {
    OneByteChangesHash(a, b, i);
    HashRange(a);
    HashRange(b);
    ReadPrint(Hash(a));
    ReadPrint(Hash(b));
  }

  /** FNV-1a as published: exclusive or comes first, then the product with the prime, modulo 2^64. */
  lemma HashIsFnv(s: Text, c: Byte, mixed: int)
    requires 0 <= c < 256 && 0 <= mixed < 0x1_0000_0000_0000_0000
    requires forall k: nat | k < 64 :: Bit(mixed, k) == (Bit(Hash(s), k) + Bit(c, k)) % 2
    ensures Hash([]) == 0xcbf29ce484222325
    ensures Hash(s + [c]) == mixed * 0x100000001b3 % 0x1_0000_0000_0000_0000
  {
    hide XorByte, Bit;
    assert (s + [c])[..|s|] == s;
    HashRange(s);
    XorByteRange(Hash(s), c);
    forall k: nat | k < 64
      ensures Bit(mixed, k) == Bit(XorByte(Hash(s), c), k)
    {
      MixedDigitwise(Hash(s), c, k);
    }
    Pow2Of64();
    SameBits(mixed, XorByte(Hash(s), c), 64);
  }

  lemma {:induction false} Pow2Sum(a: nat, b: nat)
    ensures Pow2(a + b) == Pow2(a) * Pow2(b)
  {
    if a == 0 {
    } else {
      Pow2Sum(a - 1, b);
    }
  }

  lemma Pow2Of64()
    ensures Pow2(64) == WORD
  {
    Pow2Of8();
    Pow2Sum(8, 8);
    Pow2Sum(16, 16);
    Pow2Sum(32, 32);
  }

  /** Digits determine the number. */
  lemma {:induction false} SameBits(a: int, b: int, n: nat)
    requires 0 <= a < Pow2(n) && 0 <= b < Pow2(n)
    requires forall k: nat | k < n :: Bit(a, k) == Bit(b, k)
    ensures a == b
  {
    if n == 0 {
    } else {
      assert Bit(a, 0) == Bit(b, 0);
      forall k: nat | k < n - 1
        ensures Bit(a / 2, k) == Bit(b / 2, k)
      {
        assert Bit(a, k + 1) == Bit(b, k + 1);
      }
      SameBits(a / 2, b / 2, n - 1);
    }
  }

  lemma MixedLetter()
    ensures XorByte(0xcbf29ce484222325, 97) == 0xcbf29ce484222344
  {
    hide Xor;
    assert Xor(37, 97, 8) == 68 by {
      XorUnfold(2, 6, 4);
      XorUnfold(4, 12, 5);
      XorUnfold(9, 24, 6);
      XorUnfold(18, 48, 7);
      XorUnfold(37, 97, 8);
      assert Xor(2, 6, 4) == 4 by {
        XorUnfold(0, 0, 1);
        XorUnfold(0, 1, 2);
        XorUnfold(1, 3, 3);
        assert Xor(0, 0, 0) == 0 by {
          XorRange(0, 0, 0);
        }
      }
    }
  }

  /** Two published values: the hash of nothing, and of the letter a. */
  lemma PublishedValues()
    ensures Hash([]) == 0xcbf29ce484222325
    ensures Hash([97]) == 0xaf63dc4c8601ec8c
  {
    hide XorByte;
    MixedLetter();
    assert [97][..0] == [];
    assert Hash([97]) == Step(0xcbf29ce484222325, 97);
  }

  /** The hexadecimal digit of weight sixteen to the k. */
  function HexDigit(n: nat, k: nat): (d: nat)
    ensures d < 16
  {
    if k == 0 then n % 16 else HexDigit(n / 16, k - 1)
  }

  lemma DigitIsHex(d: nat)
    requires d < 16
    ensures Digit(d) == Ascii("0123456789abcdef")[d]
  {
  }

  lemma {:induction false} ZerosAreZero(k: nat)
    ensures |Zeros(k)| == k && forall i | 0 <= i < k :: Zeros(k)[i] == '0' as int
  {
    if k == 0 {
    } else {
      ZerosAreZero(k - 1);
    }
  }

  lemma {:induction false} HexHasDigits(n: nat, k: nat)
    ensures k < |Hex(n)| ==> Hex(n)[|Hex(n)| - 1 - k] == Digit(HexDigit(n, k))
    ensures k >= |Hex(n)| ==> HexDigit(n, k) == 0
    decreases k
  {
    hide Digit;
    if k == 0 {
    } else {
      HexHasDigits(n / 16, k - 1);
      if n < 16 {
        NoHexDigits(k - 1);
      }
    }
  }

  lemma {:induction false} NoHexDigits(k: nat)
    ensures HexDigit(0, k) == 0
  {
    if k == 0 {
    } else {
      NoHexDigits(k - 1);
    }
  }

  /** The checksum is the hash in sixteen lower-case hexadecimal digits, the highest first. */
  lemma ChecksumIsHexadecimal(s: Text, i: nat)
    requires i < 16
    ensures |Checksum(s)| == 16
    ensures Checksum(s)[i] == Ascii("0123456789abcdef")[HexDigit(Hash(s), 15 - i)]
  {
    hide Hash, Digit;
    HashRange(s);
    var n := Hash(s);
    PrintLength(n);
    HexHasDigits(n, 15 - i);
    DigitIsHex(HexDigit(n, 15 - i));
    DigitIsHex(0);
    if |Hex(n)| < 16 {
      ZerosAreZero(16 - |Hex(n)|);
    }
  }
}
