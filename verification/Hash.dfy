/** Content hashes: FNV-1a over 64 bits, printed as sixteen hexadecimal digits. */
module Hash {
  import opened Decimal

  const TWO_TO_THE_64: nat := 0x1_0000_0000_0000_0000
  const OFFSET_BASIS: nat := 0xcbf2_9ce4_8422_2325
  const PRIME: nat := 0x0000_0100_0000_01b3

  type Byte = b: nat | b < 256
  type Word = h: nat | h < 0x1_0000_0000_0000_0000

  /** Exclusive or of the low `bits` bits. */
  function XorBits(a: nat, b: nat, bits: nat): (r: nat)
    ensures r < Power(2, bits)
  {
    if bits == 0 then 0
    else 2 * XorBits(a / 2, b / 2, bits - 1) + if a % 2 == b % 2 then 0 else 1
  }

  lemma {:induction false} PowerAdd(base: nat, i: nat, j: nat)
    ensures Power(base, i + j) == Power(base, i) * Power(base, j)
  {
    if i > 0 {
      PowerAdd(base, i - 1, j);
      Associate(base, Power(base, i - 1), Power(base, j));
    }
  }

  lemma Associate(x: int, y: int, z: int)
    ensures x * (y * z) == x * y * z
  {
  }

  lemma SixtyFourBits()
    ensures Power(2, 64) == TWO_TO_THE_64 && Power(16, 16) == TWO_TO_THE_64
  {
    assert Power(2, 2) == 4 && Power(16, 2) == 256;
    PowerAdd(2, 2, 2);
    PowerAdd(2, 4, 4);
    PowerAdd(2, 8, 8);
    PowerAdd(2, 16, 16);
    PowerAdd(2, 32, 32);
    PowerAdd(16, 2, 2);
    PowerAdd(16, 4, 4);
    PowerAdd(16, 8, 8);
  }

  function Xor(h: Word, b: Byte): Word {
    SixtyFourBits();
    XorBits(h, b, 64)
  }

  function Step(h: Word, b: Byte): Word {
    Xor(h, b) * PRIME % TWO_TO_THE_64
  }

  function Fold(h: Word, bytes: seq<Byte>): Word
    decreases |bytes|
  {
    if bytes == [] then h else Fold(Step(h, bytes[0]), bytes[1..])
  }

  /** The low `k` hexadecimal digits. */
  function Hex(n: nat, k: nat): (s: string)
    ensures |s| == k && forall i :: 0 <= i < k ==> '0' <= s[i] <= '9' || 'a' <= s[i] <= 'f'
  {
    if k == 0 then "" else Hex(n / 16, k - 1) + [HexDigit(n % 16)]
  }

  function Digest(bytes: seq<Byte>): (s: string)
    ensures |s| == 16 && forall i :: 0 <= i < 16 ==> '0' <= s[i] <= '9' || 'a' <= s[i] <= 'f'
  {
    Hex(Fold(OFFSET_BASIS, bytes), 16)
  }

  method ContentHash(bytes: seq<Byte>) returns (s: string)
    ensures s == Digest(bytes)
  {
    var hash: Word := OFFSET_BASIS;
    for i := 0 to |bytes|
      invariant Fold(hash, bytes[i..]) == Fold(OFFSET_BASIS, bytes)
    {
      assert bytes[i..][1..] == bytes[i + 1..];
      hash := Xor(hash, bytes[i]);
      hash := hash * PRIME % TWO_TO_THE_64;
    }
    s := Hex(hash, 16);
  }

  // ---- each step is a bijection ----

  /** The prime times 0xce965057aff6957b is one more than 0xce9650590f multiples
      of 2^64, so the multiplication can be undone. */
  lemma MultiplyIsInjective(x: Word, y: Word, p: int, q: int)
    requires x * 0x100_0000_01b3 - p * 0x1_0000_0000_0000_0000 == y * 0x100_0000_01b3 - q * 0x1_0000_0000_0000_0000
    ensures x == y
  {
    var d, t := x - y, p - q;
    var k := t * 0xce965057aff6957b - d * 0xce9650590f;
    assert d == k * 0x1_0000_0000_0000_0000;
  }

  lemma {:induction false} XorIsInjective(a: nat, b: nat, c: nat, bits: nat)
    requires a < Power(2, bits) && b < Power(2, bits)
    requires XorBits(a, c, bits) == XorBits(b, c, bits) || XorBits(c, a, bits) == XorBits(c, b, bits)
    ensures a == b
  {
    if bits > 0 {
      XorIsInjective(a / 2, b / 2, c / 2, bits - 1);
    }
  }

  lemma StepKeepsStatesApart(g: Word, h: Word, b: Byte)
    requires Step(g, b) == Step(h, b)
    ensures g == h
  {
    MultiplyIsInjective(
      Xor(g, b), Xor(h, b), Xor(g, b) * PRIME / TWO_TO_THE_64, Xor(h, b) * PRIME / TWO_TO_THE_64);
    SixtyFourBits();
    XorIsInjective(g, h, b, 64);
  }

  lemma StepKeepsBytesApart(h: Word, b: Byte, c: Byte)
    requires Step(h, b) == Step(h, c)
    ensures b == c
  {
    MultiplyIsInjective(
      Xor(h, b), Xor(h, c), Xor(h, b) * PRIME / TWO_TO_THE_64, Xor(h, c) * PRIME / TWO_TO_THE_64);
    SixtyFourBits();
    XorIsInjective(b, c, h, 64);
  }

  lemma {:induction false} FoldKeepsStatesApart(g: Word, h: Word, bytes: seq<Byte>)
    requires Fold(g, bytes) == Fold(h, bytes)
    ensures g == h
    decreases |bytes|
  {
    if bytes != [] {
      FoldKeepsStatesApart(Step(g, bytes[0]), Step(h, bytes[0]), bytes[1..]);
      StepKeepsStatesApart(g, h, bytes[0]);
    }
  }

  lemma {:induction false} FoldConcat(h: Word, a: seq<Byte>, b: seq<Byte>)
    ensures Fold(h, a + b) == Fold(Fold(h, a), b)
    decreases |a|
  {
    if a == [] {
      assert a + b == b;
    } else {
      assert (a + b)[1..] == a[1..] + b;
      FoldConcat(Step(h, a[0]), a[1..], b);
    }
  }

  lemma {:induction false} HexIsInjective(a: nat, b: nat, k: nat)
    requires a < Power(16, k) && b < Power(16, k) && Hex(a, k) == Hex(b, k)
    ensures a == b
  {
    if k > 0 {
      var high, low := Hex(a, k), Hex(b, k);
      assert high[..k - 1] == Hex(a / 16, k - 1) && low[..k - 1] == Hex(b / 16, k - 1);
      assert high[k - 1] == HexDigit(a % 16) && low[k - 1] == HexDigit(b % 16);
      HexIsInjective(a / 16, b / 16, k - 1);
    }
  }

  /** Contents that differ in one byte, wherever it stands, have different digests. */
  lemma ChangedByteChangesDigest(p: seq<Byte>, b: Byte, c: Byte, s: seq<Byte>)
    requires b != c
    ensures Digest(p + [b] + s) != Digest(p + [c] + s)
  {
    var h := Fold(OFFSET_BASIS, p);
    FoldConcat(OFFSET_BASIS, p, [b] + s);
    FoldConcat(OFFSET_BASIS, p, [c] + s);
    assert p + [b] + s == p + ([b] + s) && p + [c] + s == p + ([c] + s);
    assert ([b] + s)[1..] == s && ([c] + s)[1..] == s;
    SixtyFourBits();
    var x, y := Fold(Step(h, b), s), Fold(Step(h, c), s);
    if Hex(x, 16) == Hex(y, 16) {
      HexIsInjective(x, y, 16);
      FoldKeepsStatesApart(Step(h, b), Step(h, c), s);
      StepKeepsBytesApart(h, b, c);
    }
  }

  lemma {:induction false} XorZero(a: nat, bits: nat)
    requires a < Power(2, bits)
    ensures XorBits(a, 0, bits) == a
  {
    if bits > 0 {
      XorZero(a / 2, bits - 1);
    }
  }

  /** The published 64-bit vector for the one byte `a`. */
  lemma PublishedVector()
    ensures Fold(OFFSET_BASIS, [97]) == 0xaf63_dc4c_8601_ec8c
  {
    SixtyFourBits();
    PowerAdd(2, 7, 57);
    assert Power(2, 7) == 128 by {
      assert Power(2, 3) == 8;
      PowerAdd(2, 4, 3);
      PowerAdd(2, 2, 2);
    }
    XorZero(0x197e539c9084446, 57);
    assert XorBits(0x32fca739210888c, 1, 58) == 0x32fca739210888d;
    assert XorBits(0x65f94e724211119, 3, 59) == 0x65f94e72421111a;
    assert XorBits(0xcbf29ce48422232, 6, 60) == 0xcbf29ce48422234;
    assert XorBits(0x197e539c90844464, 12, 61) == 0x197e539c90844468;
    assert XorBits(0x32fca739210888c9, 24, 62) == 0x32fca739210888d1;
    assert XorBits(0x65f94e7242111192, 48, 63) == 0x65f94e72421111a2;
    assert XorBits(0xcbf29ce484222325, 97, 64) == 0xcbf29ce484222344;
    assert Step(OFFSET_BASIS, 97) == 0xaf63_dc4c_8601_ec8c;
    assert [97][1..] == [];
  }

  // ---- what the digits say ----

  function DigitOf(c: char): nat
    requires '0' <= c <= '9' || 'a' <= c <= 'f'
  {
    if c <= '9' then (c - '0') as nat else 10 + (c - 'a') as nat
  }

  ghost predicate AllHex(s: string) {
    forall i :: 0 <= i < |s| ==> '0' <= s[i] <= '9' || 'a' <= s[i] <= 'f'
  }

  /** A number in base sixteen, the most significant digit first. */
  ghost function BaseSixteen(s: string): nat
    requires AllHex(s)
  {
    if s == "" then 0 else DigitOf(s[0]) * Power(16, |s| - 1) + BaseSixteen(s[1..])
  }

  lemma {:induction false} LastDigit(s: string, c: char)
    requires AllHex(s) && ('0' <= c <= '9' || 'a' <= c <= 'f')
    ensures AllHex(s + [c]) && BaseSixteen(s + [c]) == 16 * BaseSixteen(s) + DigitOf(c)
  {
    assert AllHex(s + [c]);
    if s == "" {
      assert s + [c] == [c] && [c][1..] == "";
      assert Power(16, 0) == 1;
    } else {
      assert (s + [c])[1..] == s[1..] + [c];
      LastDigit(s[1..], c);
      MoveUp(DigitOf(s[0]), |s| - 1);
    }
  }

  lemma MoveUp(d: nat, k: nat)
    ensures d * Power(16, k + 1) == 16 * (d * Power(16, k))
  {
  }

  /** The digits of a state, read in base sixteen, are the state. */
  lemma {:induction false} HexIsBaseSixteen(n: nat, k: nat)
    requires n < Power(16, k)
    ensures BaseSixteen(Hex(n, k)) == n
  {
    if k > 0 {
      HexIsBaseSixteen(n / 16, k - 1);
      var c := HexDigit(n % 16);
      LastDigit(Hex(n / 16, k - 1), c);
    }
  }

  lemma HexGrows(n: nat, d: nat, k: nat, s: string)
    requires d < 16 && Hex(n, k) == s
    ensures Hex(16 * n + d, k + 1) == s + [HexDigit(d)]
  {
    assert (16 * n + d) / 16 == n && (16 * n + d) % 16 == d;
  }

  lemma TwoDigits(n: nat, a: nat, b: nat, k: nat, s: string)
    requires a < 16 && b < 16 && Hex(n, k) == s
    ensures Hex(16 * (16 * n + a) + b, k + 2) == s + [HexDigit(a), HexDigit(b)]
  {
    HexGrows(n, a, k, s);
    HexGrows(16 * n + a, b, k + 1, s + [HexDigit(a)]);
  }

  lemma FourDigits(n: nat, a: nat, b: nat, c: nat, d: nat, k: nat, s: string)
    requires a < 16 && b < 16 && c < 16 && d < 16 && Hex(n, k) == s
    ensures Hex(16 * (16 * (16 * (16 * n + a) + b) + c) + d, k + 4) ==
            s + [HexDigit(a), HexDigit(b), HexDigit(c), HexDigit(d)]
  {
    var half := 16 * (16 * n + a) + b;
    TwoDigits(n, a, b, k, s);
    TwoDigits(half, c, d, k + 2, s + [HexDigit(a), HexDigit(b)]);
  }

  lemma OneWord(n: nat, more: nat, a: nat, b: nat, c: nat, d: nat, k: nat, s: string, word: string)
    requires a < 16 && b < 16 && c < 16 && d < 16 && Hex(n, k) == s
    requires more == 65536 * n + 4096 * a + 256 * b + 16 * c + d
    requires word == [HexDigit(a), HexDigit(b), HexDigit(c), HexDigit(d)]
    ensures Hex(more, k + 4) == s + word
  {
    FourDigits(n, a, b, c, d, k, s);
  }

  lemma FourWords(i: nat, j: nat, k: nat, n: nat, w: string, x: string, y: string, z: string)
    requires i == 0xaf63 && j == 0xaf63_dc4c && k == 0xaf63_dc4c_8601 && n == 0xaf63_dc4c_8601_ec8c
    requires w == "af63" && x == "dc4c" && y == "8601" && z == "ec8c"
    ensures Hex(n, 16) == w + x + y + z
  {
    OneWord(0, i, 10, 15, 6, 3, 0, "", w);
    OneWord(i, j, 13, 12, 4, 12, 4, w, x);
    OneWord(j, k, 8, 6, 0, 1, 8, w + x, y);
    OneWord(k, n, 14, 12, 8, 12, 12, w + x + y, z);
  }

  /** The published digest of the one byte `a`. */
  lemma PublishedDigest()
    ensures Digest([97]) == "af63" + "dc4c" + "8601" + "ec8c"
  {
    PublishedVector();
    FourWords(
      0xaf63, 0xaf63_dc4c, 0xaf63_dc4c_8601, Fold(OFFSET_BASIS, [97]), "af63", "dc4c", "8601", "ec8c");
  }
}
