/** 32-bit words: powers of two, bitwise AND on the naturals, and the two byte orders. */
module Words {

  const WORD: nat := 0x1_0000_0000

  function Pow2(k: nat): (r: nat)
    ensures r >= 1
  {
    if k == 0 then 1 else 2 * Pow2(k - 1)
  }

  /** Bitwise AND, from the least significant bit up. */
  function And(x: nat, y: nat): (r: nat)
    ensures r <= x && r <= y
  {
    if x == 0 || y == 0 then 0
    else 2 * And(x / 2, y / 2) + (if x % 2 == 1 && y % 2 == 1 then 1 else 0)
  }

  lemma DoubleProduct(a: nat, b: nat)
    ensures 2 * (a * b) == (2 * a) * b
  {
  }

  lemma {:induction false} Pow2Add(i: nat, j: nat)
    ensures Pow2(i + j) == Pow2(i) * Pow2(j)
  {
    if i != 0 {
      Pow2Add(i - 1, j);
      assert Pow2(i + j) == 2 * Pow2(i - 1 + j);
      DoubleProduct(Pow2(i - 1), Pow2(j));
    }
  }

  lemma {:induction false} Pow2Monotone(i: nat, j: nat)
    requires i <= j
    ensures Pow2(i) <= Pow2(j)
    decreases j
  {
    if i < j {
      Pow2Monotone(i, j - 1);
    }
  }

  lemma Pow2Values()
    ensures Pow2(7) == 128 && Pow2(8) == 256 && Pow2(32) == WORD
  {
    assert Pow2(4) == 16;
    Pow2Add(4, 3);
    Pow2Add(4, 4);
    Pow2Add(8, 8);
    Pow2Add(16, 16);
  }

  lemma {:induction false} AndStep(x: nat, y: nat)
    ensures And(x, y) == 2 * And(x / 2, y / 2) + (if x % 2 == 1 && y % 2 == 1 then 1 else 0)
  {
  }

  /** AND works separately on the high part and the low bit, nibble or byte of its operands. */
  lemma {:induction false} AndBit(x: nat, y: nat, a: nat, b: nat, c: nat, d: nat)
    requires b < 2 && d < 2 && x == 2 * a + b && y == 2 * c + d
    ensures And(x, y) == 2 * And(a, c) + And(b, d)
  {
    AndStep(x, y);
  }

  lemma {:induction false} AndTwoBits(x: nat, y: nat, a: nat, b: nat, c: nat, d: nat)
    requires b < 4 && d < 4 && x == 4 * a + b && y == 4 * c + d
    ensures And(x, y) == 4 * And(a, c) + And(b, d)
  {
    hide And;
    AndBit(x, y, 2 * a + b / 2, b % 2, 2 * c + d / 2, d % 2);
    AndBit(2 * a + b / 2, 2 * c + d / 2, a, b / 2, c, d / 2);
    AndBit(b, d, b / 2, b % 2, d / 2, d % 2);
  }

  lemma {:induction false} AndNibble(x: nat, y: nat, a: nat, b: nat, c: nat, d: nat)
    requires b < 16 && d < 16 && x == 16 * a + b && y == 16 * c + d
    ensures And(x, y) == 16 * And(a, c) + And(b, d)
  {
    hide And;
    AndTwoBits(x, y, 4 * a + b / 4, b % 4, 4 * c + d / 4, d % 4);
    AndTwoBits(4 * a + b / 4, 4 * c + d / 4, a, b / 4, c, d / 4);
    AndTwoBits(b, d, b / 4, b % 4, d / 4, d % 4);
  }

  lemma {:induction false} AndByte(x: nat, y: nat, a: nat, b: nat, c: nat, d: nat)
    requires b < 256 && d < 256 && x == 256 * a + b && y == 256 * c + d
    ensures And(x, y) == 256 * And(a, c) + And(b, d)
  {
    hide And;
    AndNibble(x, y, 16 * a + b / 16, b % 16, 16 * c + d / 16, d % 16);
    AndNibble(16 * a + b / 16, 16 * c + d / 16, a, b / 16, c, d / 16);
    AndNibble(b, d, b / 16, b % 16, d / 16, d % 16);
  }

  /** All ones keep every bit below them. */
  lemma {:induction false} AndOnes(q: nat, n: nat)
    requires q < Pow2(n)
    ensures And(q, Pow2(n) - 1) == q
    decreases n
  {
    if n != 0 {
      AndOnes(q / 2, n - 1);
      AndStep(q, Pow2(n) - 1);
    }
  }

  lemma ModOfDouble(x: nat, p: nat)
    requires p > 0
    ensures x % (2 * p) == 2 * (x / 2 % p) + x % 2
  {
    var h := x / 2;
    var q, r := h / p, h % p;
    assert h == q * p + r;
    assert x == q * (2 * p) + (2 * r + x % 2) by { assert q * (2 * p) == 2 * (q * p); }
    ModUnique(x, 2 * p, q, 2 * r + x % 2);
  }

  lemma MulGap(q: nat, q': nat, m: nat)
    requires q < q'
    ensures q' * m >= q * m + m
  {
    var d: nat := q' - q - 1;
    assert (q + 1 + d) * m == q * m + m + d * m;
  }

  lemma ModUnique(x: nat, m: nat, q: nat, r: nat)
    requires x == q * m + r && r < m
    ensures x / m == q && x % m == r
  {
    var q' := x / m;
    assert x == q' * m + x % m;
    if q' < q {
      MulGap(q', q, m);
    } else if q < q' {
      MulGap(q, q', m);
    }
  }

  /** The k lowest bits of x. */
  function LowBits(x: nat, k: nat): (r: nat)
    ensures r <= x
  {
    if k == 0 then 0 else 2 * LowBits(x / 2, k - 1) + x % 2
  }

  lemma {:induction false} LowBitsIsMod(x: nat, k: nat)
    ensures LowBits(x, k) == x % Pow2(k)
    decreases k
  {
    if k != 0 {
      LowBitsIsMod(x / 2, k - 1);
      ModOfDouble(x, Pow2(k - 1));
    }
  }

  lemma {:induction false} MaskStep(x: nat, top: nat, low: nat, r: nat)
    requires low <= top && r <= x / 2 && And(x / 2, top - low) == x / 2 - r
    ensures And(x, 2 * top - 2 * low) == x - (2 * r + x % 2)
  {
    hide And;
    AndBit(x, 2 * top - 2 * low, x / 2, x % 2, top - low, 0);
    assert And(x % 2, 0) == 0;
  }

  /** Masking away the k lowest of p + k bits. */
  lemma {:induction false} AndMask(x: nat, p: nat, k: nat)
    requires x < Pow2(p + k)
    ensures Pow2(p + k) >= Pow2(k)
    ensures And(x, Pow2(p + k) - Pow2(k)) == x - LowBits(x, k)
    decreases k
  {
    hide And;
    Pow2Monotone(k, p + k);
    if k == 0 {
      AndOnes(x, p);
    } else {
      AndMask(x / 2, p, k - 1);
      assert Pow2(p + k) == 2 * Pow2(p + (k - 1));
      MaskStep(x, Pow2(p + (k - 1)), Pow2(k - 1), LowBits(x / 2, k - 1));
    }
  }

  // ----- complement -----

  /** Bitwise complement of an n-bit word. */
  function Not(x: nat, n: nat): nat {
    if n == 0 then 0 else 2 * Not(x / 2, n - 1) + (1 - x % 2)
  }

  lemma {:induction false} NotIsDifference(x: nat, n: nat)
    requires x < Pow2(n)
    ensures Not(x, n) == Pow2(n) - 1 - x
    decreases n
  {
    if n != 0 {
      NotIsDifference(x / 2, n - 1);
    }
  }

  // ----- byte order -----

  function FromOctets(a: nat, b: nat, c: nat, d: nat): nat {
    ((a * 256 + b) * 256 + c) * 256 + d
  }

  /** The four octets of a word, most significant first. */
  function Octet(x: nat, i: nat): (o: nat)
    requires i < 4
    ensures o < 256
  {
    match i
    case 0 => x / 256 / 256 / 256 % 256
    case 1 => x / 256 / 256 % 256
    case 2 => x / 256 % 256
    case _ => x % 256
  }

  lemma OctetsOfWord(x: nat)
    requires x < WORD
    ensures FromOctets(Octet(x, 0), Octet(x, 1), Octet(x, 2), Octet(x, 3)) == x
  {
  }

  lemma WordOfOctets(a: nat, b: nat, c: nat, d: nat)
    requires a < 256 && b < 256 && c < 256 && d < 256
    ensures var x := FromOctets(a, b, c, d);
            x < WORD && Octet(x, 0) == a && Octet(x, 1) == b && Octet(x, 2) == c && Octet(x, 3) == d
  {
  }

  function ByteSwap(x: nat): (y: nat)
    ensures y < WORD
  {
    FromOctets(Octet(x, 3), Octet(x, 2), Octet(x, 1), Octet(x, 0))
  }

  lemma ByteSwapTwice(x: nat)
    requires x < WORD
    ensures ByteSwap(ByteSwap(x)) == x
  {
    OctetsOfWord(x);
    WordOfOctets(Octet(x, 3), Octet(x, 2), Octet(x, 1), Octet(x, 0));
  }

  lemma {:induction false} AndOctets(a: nat, b: nat, c: nat, d: nat, a': nat, b': nat, c': nat, d': nat)
    requires a < 256 && b < 256 && c < 256 && d < 256
    requires a' < 256 && b' < 256 && c' < 256 && d' < 256
    ensures And(FromOctets(a, b, c, d), FromOctets(a', b', c', d'))
         == FromOctets(And(a, a'), And(b, b'), And(c, c'), And(d, d'))
  {
    hide And;
    var x1, y1 := a * 256 + b, a' * 256 + b';
    var x2, y2 := x1 * 256 + c, y1 * 256 + c';
    var x3, y3 := x2 * 256 + d, y2 * 256 + d';
    AndByte(x1, y1, a, b, a', b');
    AndByte(x2, y2, x1, c, y1, c');
    AndByte(x3, y3, x2, d, y2, d');
  }

  /** Swapping the bytes of both operands swaps the bytes of their AND. */
  lemma {:induction false} ByteSwapAnd(x: nat, y: nat)
    requires x < WORD && y < WORD
    ensures ByteSwap(And(x, y)) == And(ByteSwap(x), ByteSwap(y))
  {
    hide And;
    var a, b, c, d := Octet(x, 0), Octet(x, 1), Octet(x, 2), Octet(x, 3);
    var a', b', c', d' := Octet(y, 0), Octet(y, 1), Octet(y, 2), Octet(y, 3);
    OctetsOfWord(x);
    OctetsOfWord(y);
    AndOctets(a, b, c, d, a', b', c', d');
    AndOctets(d, c, b, a, d', c', b', a');
    WordOfOctets(And(a, a'), And(b, b'), And(c, c'), And(d, d'));
  }

  datatype Endian = Little | Big

  /** htonl(3) and ntohl(3), which are the same function. */
  function Htonl(e: Endian, x: nat): (y: nat)
    requires x < WORD
    ensures y < WORD
  {
    if e.Big? then x else ByteSwap(x)
  }

  /** The byte at offset `i` of a word in memory: a little-endian host stores the least significant octet
      first, a big-endian one the most significant. */
  function ByteAt(e: Endian, w: nat, i: nat): (b: nat)
    requires i < 4
    ensures b < 256
  {
    Octet(w, if e.Little? then 3 - i else i)
  }

  /** The word is held in network order: its bytes in memory are the octets of `x`, most significant first. */
  predicate InNetworkOrder(e: Endian, w: nat, x: nat) {
    && ByteAt(e, w, 0) == x / 0x100_0000 % 256 && ByteAt(e, w, 1) == x / 0x1_0000 % 256
    && ByteAt(e, w, 2) == x / 0x100 % 256 && ByteAt(e, w, 3) == x % 256
  }

  lemma OctetIsQuotient(x: nat)
    ensures Octet(x, 0) == x / 0x100_0000 % 256 && Octet(x, 1) == x / 0x1_0000 % 256
    ensures Octet(x, 2) == x / 0x100 % 256 && Octet(x, 3) == x % 256
  {
  }

  /** On either kind of host, htonl puts a word in network order. */
  lemma HtonlInMemory(e: Endian, x: nat)
    requires x < WORD
    ensures InNetworkOrder(e, Htonl(e, x), x)
  {
    OctetIsQuotient(x);
    hide Octet;
    WordOfOctets(Octet(x, 3), Octet(x, 2), Octet(x, 1), Octet(x, 0));
  }

  lemma HtonlTwice(e: Endian, x: nat)
    requires x < WORD
    ensures Htonl(e, Htonl(e, x)) == x
  {
    ByteSwapTwice(x);
  }

  lemma HtonlAnd(e: Endian, x: nat, y: nat)
    requires x < WORD && y < WORD
    ensures Htonl(e, And(x, y)) == And(Htonl(e, x), Htonl(e, y))
  {
    ByteSwapAnd(x, y);
  }
}
