/** Letter-presence keys: a word over a..z is mapped to a 26-bit mask in which
    bit `c - 'a'` is set exactly when letter `c` occurs in the word. */
module Keys {
  import opened Sequences

  /** A bit mask held in an unsigned 32-bit word, as in the Rust `u32`. */
  type Mask = bv32

  /** The key of a word: its letter mask. Keys index the dictionary of groups
      and are the nodes of the graph. */
  datatype Key = Key(bits: Mask)

  type Word = string

  /** The 26 bits that stand for the letters a..z. */
  const LetterMask: Mask := 0x3FF_FFFF

  predicate IsLower(c: char) {
    'a' <= c <= 'z'
  }

  predicate AllLower(w: Word) {
    forall i :: 0 <= i < |w| ==> IsLower(w[i])
  }

  /** No bit outside the 26 letter bits is set. */
  predicate LetterBitsOnly(k: Mask) {
    k & !LetterMask == 0
  }

  /** `1 << i`: the mask of bit `i` alone. */
  function BitAt(i: nat): Mask
    requires i < 32
  {
    (1 as Mask) << i
  }

  /** `1 << (c - 'a')`. */
  function Bit(c: char): Mask
    requires IsLower(c)
  {
    BitAt(c as int - 'a' as int)
  }

  /** Whether mask `m` meets `k`. */
  predicate Meets(k: Mask, m: Mask) {
    k & m != 0
  }

  /** Whether the bit of letter `c` is set in `k`. */
  predicate Has(k: Mask, c: char)
    requires IsLower(c)
  {
    Meets(k, Bit(c))
  }

  /** The letters whose bit is set in `k`: the decoding of a key. */
  function Letters(k: Mask): (s: set<char>)
    ensures forall c :: c in s <==> IsLower(c) && Has(k, c)
  {
    set c: char | 'a' <= c <= 'z' && Has(k, c)
  }

  /* The facts below are first proved on bare bit-vector terms, then lifted to
     `Meets` and `Has`; the solver handles the two layers separately far better
     than at once. */

  lemma BitRaw(c: char)
    requires IsLower(c)
    ensures Bit(c) != 0 && Bit(c) & (Bit(c) - 1) == 0 && Bit(c) & !LetterMask == 0
  {
  }

  lemma BitsApartRaw(c: char, d: char)
    requires IsLower(c) && IsLower(d)
    ensures Bit(d) & Bit(c) != 0 <==> c == d
  {
  }

  lemma OrRaw(x: Mask, y: Mask, m: Mask)
    ensures (x | y) & m != 0 <==> x & m != 0 || y & m != 0
  {
  }

  lemma AndRaw(x: Mask, y: Mask, m: Mask)
    requires m != 0 && m & (m - 1) == 0
    ensures (x & y) & m != 0 <==> x & m != 0 && y & m != 0
  {
  }

  lemma XorRaw(x: Mask, y: Mask, m: Mask)
    requires m != 0 && m & (m - 1) == 0
    ensures (x ^ y) & m != 0 <==> (x & m != 0) != (y & m != 0)
  {
  }

  lemma MaskRaw(x: Mask, y: Mask)
    requires x & !LetterMask == 0 && y & !LetterMask == 0
    ensures (x | y) & !LetterMask == 0 && (x & y) & !LetterMask == 0 && (x ^ y) & !LetterMask == 0
  {
  }

  lemma MeetsOr(x: Mask, y: Mask, m: Mask)
    ensures Meets(x | y, m) <==> Meets(x, m) || Meets(y, m)
  {
    OrRaw(x, y, m);
  }

  lemma MeetsAnd(x: Mask, y: Mask, m: Mask)
    requires m != 0 && m & (m - 1) == 0
    ensures Meets(x & y, m) <==> Meets(x, m) && Meets(y, m)
  {
    AndRaw(x, y, m);
  }

  lemma MeetsXor(x: Mask, y: Mask, m: Mask)
    requires m != 0 && m & (m - 1) == 0
    ensures Meets(x ^ y, m) <==> Meets(x, m) != Meets(y, m)
  {
    XorRaw(x, y, m);
  }

  /** A letter bit is a non-zero bit inside the letter mask. */
  lemma BitIsLetterBit(c: char)
    requires IsLower(c)
    ensures Bit(c) != 0 && LetterBitsOnly(Bit(c))
  {
    BitRaw(c);
  }

  /** Distinct letters own distinct bits. */
  lemma BitsApart(c: char, d: char)
    requires IsLower(c) && IsLower(d)
    ensures Has(Bit(d), c) <==> c == d
  {
    BitsApartRaw(c, d);
  }

  /** Testing a letter bit of an OR, an AND and a XOR. */
  lemma HasOr(x: Mask, y: Mask, c: char)
    requires IsLower(c)
    ensures Has(x | y, c) <==> Has(x, c) || Has(y, c)
  {
    MeetsOr(x, y, Bit(c));
  }

  lemma HasAnd(x: Mask, y: Mask, c: char)
    requires IsLower(c)
    ensures Has(x & y, c) <==> Has(x, c) && Has(y, c)
  {
    BitRaw(c);
    MeetsAnd(x, y, Bit(c));
  }

  lemma HasXor(x: Mask, y: Mask, c: char)
    requires IsLower(c)
    ensures Has(x ^ y, c) <==> Has(x, c) != Has(y, c)
  {
    BitRaw(c);
    MeetsXor(x, y, Bit(c));
  }

  /** Bitwise operations keep keys inside the letter mask. */
  lemma MaskOps(x: Mask, y: Mask)
    requires LetterBitsOnly(x) && LetterBitsOnly(y)
    ensures LetterBitsOnly(x | y) && LetterBitsOnly(x & y) && LetterBitsOnly(x ^ y)
  {
    MaskRaw(x, y);
  }

  /** `num |= 1 << (ord(c) - ord('a'))`: one step of the accumulation. */
  function AddLetter(k0: Mask, c: char): Mask
    requires IsLower(c)
  {
    k0 | Bit(c)
  }

  /** One step of the accumulation adds exactly the letter `c` to the key. */
  lemma AddLetterSpec(k0: Mask, c: char)
    requires IsLower(c) && LetterBitsOnly(k0)
    ensures LetterBitsOnly(AddLetter(k0, c))
    ensures forall d :: IsLower(d) ==> (Has(AddLetter(k0, c), d) <==> Has(k0, d) || d == c)
  {
    BitIsLetterBit(c);
    assert LetterBitsOnly(AddLetter(k0, c)) by {
      MaskOps(k0, Bit(c));
    }
    forall d | IsLower(d)
      ensures Has(k0 | Bit(c), d) <==> Has(k0, d) || d == c
    {
      HasOr(k0, Bit(c), d);
      BitsApart(d, c);
    }
  }

  /** The letters of a non-empty word are those of all but its last
      character, and the last one. */
  lemma SnocLetters(w: Word)
    requires w != []
    ensures forall c :: c in w <==> c in w[..|w| - 1] || c == w[|w| - 1]
  {
    assert w == w[..|w| - 1] + [w[|w| - 1]];
  }

  /** The key of a word: OR of `1 << (c - 'a')` over its letters, accumulated
      left to right. Its bits are exactly the letters that occur in the word. */
  function WordToNum(w: Word): (k: Key)
    requires AllLower(w)
    ensures LetterBitsOnly(k.bits)
    ensures forall c :: IsLower(c) ==> (Has(k.bits, c) <==> c in w)
  {
    if w == [] then Key(0)
    else
      var k0 := WordToNum(w[..|w| - 1]).bits;
      AddLetterSpec(k0, w[|w| - 1]);
      SnocLetters(w);
      Key(AddLetter(k0, w[|w| - 1]))
  }

  /** The examples of the `word_to_num` documentation. */
  lemma WordToNumExamples()
    ensures WordToNum("abc") == Key(7)
    ensures WordToNum("abcd") == Key(15)
    ensures WordToNum("ca") == Key(5)
  {
    assert "abc"[..2] == "ab" && "ab"[..1] == "a" && "a"[..0] == "";
    assert "abcd"[..3] == "abc";
    assert "ca"[..1] == "c" && "c"[..0] == "";
  }

  /** Decoding the key of a word gives back its set of letters. */
  lemma LettersOfWordToNum(w: Word)
    requires AllLower(w)
    ensures Letters(WordToNum(w).bits) == Elems(w)
  {
    var k := WordToNum(w).bits;
    forall c ensures c in Letters(k) <==> c in Elems(w) {
      if c in Elems(w) {
        var i :| 0 <= i < |w| && w[i] == c;
      }
    }
  }

  /** The mask of the low `n` bits. */
  function LowMask(n: nat): Mask
    requires n <= 32
  {
    ((1 as Mask) << n) - 1
  }

  lemma LowMaskStep(n: nat)
    requires n < 32
    ensures LowMask(n + 1) == LowMask(n) | BitAt(n)
  {
  }

  lemma BitAtRaw(i: nat)
    requires i < 32
    ensures BitAt(i) != 0 && BitAt(i) & (BitAt(i) - 1) == 0
  {
  }

  lemma {:induction false} LowBitsClear(x: Mask, n: nat)
    requires n <= 32
    requires forall i :: 0 <= i < n ==> !Meets(x, BitAt(i))
    ensures x & LowMask(n) == 0
  {
    if n > 0 {
      LowBitsClear(x, n - 1);
      LowMaskStep(n - 1);
      MeetsOr(LowMask(n - 1), BitAt(n - 1), x);
      MeetsSym(x, LowMask(n - 1));
      MeetsSym(x, BitAt(n - 1));
      MeetsSym(x, LowMask(n));
    }
  }

  lemma MeetsSym(x: Mask, y: Mask)
    ensures Meets(x, y) <==> Meets(y, x)
  {
  }

  lemma AllOnesRaw(x: Mask, y: Mask)
    ensures LowMask(32) == 0xFFFF_FFFF
    ensures x & 0xFFFF_FFFF == 0 ==> x == 0
    ensures x ^ y == 0 ==> x == y
    ensures x & LowMask(26) == 0 && x & !LetterMask == 0 ==> x == 0
  {
  }

  /** A mask is determined by which of its 32 bits are set. */
  lemma SameBits(a: Mask, b: Mask)
    requires forall i :: 0 <= i < 32 ==> (Meets(a, BitAt(i)) <==> Meets(b, BitAt(i)))
    ensures a == b
  {
    forall i | 0 <= i < 32 ensures !Meets(a ^ b, BitAt(i)) {
      BitAtRaw(i);
      MeetsXor(a, b, BitAt(i));
    }
    LowBitsClear(a ^ b, 32);
    AllOnesRaw(a ^ b, 0);
    AllOnesRaw(a, b);
  }

  /** A key with no letter bit set and no bit outside the mask is zero. */
  lemma NoLetterIsZero(x: Mask)
    requires LetterBitsOnly(x)
    requires Letters(x) == {}
    ensures x == 0
  {
    forall i | 0 <= i < 26 ensures !Meets(x, BitAt(i)) {
      var c := ('a' as int + i) as char;
      assert c !in Letters(x);
    }
    LowBitsClear(x, 26);
    AllOnesRaw(x, 0);
  }

  /** A mask inside the letter mask is determined by its letters: decoding is injective. */
  lemma {:induction false} MaskDeterminedByLetters(a: Mask, b: Mask)
    requires LetterBitsOnly(a) && LetterBitsOnly(b)
    ensures a == b <==> Letters(a) == Letters(b)
  {
    if Letters(a) == Letters(b) {
      MaskOps(a, b);
      forall c | IsLower(c) ensures !Has(a ^ b, c) {
        HasXor(a, b, c);
        assert c in Letters(a) <==> c in Letters(b);
      }
      NoLetterIsZero(a ^ b);
    }
  }

  /** Two words get the same key exactly when they use the same set of letters;
      in particular anagrams share a key. */
  lemma SameKeyIffSameLetters(v: Word, w: Word)
    requires AllLower(v) && AllLower(w)
    ensures WordToNum(v) == WordToNum(w) <==> Elems(v) == Elems(w)
  {
    LettersOfWordToNum(v);
    LettersOfWordToNum(w);
    MaskDeterminedByLetters(WordToNum(v).bits, WordToNum(w).bits);
  }

  /** Rearranging the letters of a word does not change its key. */
  lemma AnagramsShareKey(v: Word, w: Word)
    requires AllLower(v) && multiset(v) == multiset(w)
    ensures AllLower(w) && WordToNum(v) == WordToNum(w)
  {
    forall c ensures c in v <==> c in w {
      assert c in v <==> c in multiset(v);
      assert c in w <==> c in multiset(w);
    }
    forall i | 0 <= i < |w| ensures IsLower(w[i]) {
      assert w[i] in multiset(w);
    }
    assert Elems(v) == Elems(w) by {
      forall c ensures c in Elems(v) <==> c in Elems(w) {
        assert c in Elems(v) <==> c in v;
        assert c in Elems(w) <==> c in w;
      }
    }
    SameKeyIffSameLetters(v, w);
  }

  /** `a & b == 0` exactly when the two keys share no letter. */
  lemma {:induction false} DisjointIff(a: Mask, b: Mask)
    requires LetterBitsOnly(a) && LetterBitsOnly(b)
    ensures a & b == 0 <==> Letters(a) !! Letters(b)
  {
    MaskOps(a, b);
    forall c | IsLower(c) ensures Has(a & b, c) <==> Has(a, c) && Has(b, c) {
      HasAnd(a, b, c);
    }
    if a & b == 0 {
      forall c | IsLower(c) ensures !(Has(a, c) && Has(b, c)) {
        assert !Has(a & b, c);
      }
    } else {
      if Letters(a & b) == {} {
        NoLetterIsZero(a & b);
      }
      var c :| c in Letters(a & b);
      assert c in Letters(a) * Letters(b);
    }
  }

  function Pow2(n: nat): (r: nat)
    ensures r >= 1
  {
    if n == 0 then 1 else 2 * Pow2(n - 1)
  }

  /** The number held by the low `n` bits of `m`, bit `i` counting `2^i`. */
  function LowValue(m: Mask, n: nat): nat
    requires n <= 32
  {
    if n == 0 then 0
    else LowValue(m, n - 1) + (if Meets(m, BitAt(n - 1)) then Pow2(n - 1) else 0)
  }

  /** The number a mask stands for: the Python `int`, the Rust `u32`. */
  function Value(m: Mask): nat {
    LowValue(m, 32)
  }

  lemma {:induction false} LowValueBound(m: Mask, n: nat)
    requires n <= 32
    ensures LowValue(m, n) < Pow2(n)
  {
    if n > 0 {
      LowValueBound(m, n - 1);
    }
  }

  /** Equal values of the low `n` bits mean equal low `n` bits. */
  lemma {:induction false} LowValueBits(a: Mask, b: Mask, n: nat)
    requires n <= 32 && LowValue(a, n) == LowValue(b, n)
    ensures forall i :: 0 <= i < n ==> (Meets(a, BitAt(i)) <==> Meets(b, BitAt(i)))
  {
    if n > 0 {
      LowValueBound(a, n - 1);
      LowValueBound(b, n - 1);
      assert Meets(a, BitAt(n - 1)) <==> Meets(b, BitAt(n - 1));
      LowValueBits(a, b, n - 1);
    }
  }

  /** Distinct masks stand for distinct numbers. */
  lemma ValueInjective(a: Mask, b: Mask)
    ensures Value(a) == Value(b) <==> a == b
  {
    if Value(a) == Value(b) {
      LowValueBits(a, b, 32);
      SameBits(a, b);
    }
  }
}
