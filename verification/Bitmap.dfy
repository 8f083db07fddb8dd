/**
 Bitmaps accessed as little-endian 32-bit words.

 Memory is an array of bits: byte j is bits 8j .. 8j + 7, lowest bit first, so the
 little-endian word at byte address a is the 32 bits from 8a on.  Several bitmaps are
 packed byte after byte into one pool, and a word access may reach into the bitmap that
 follows; the methods are proved to change exactly one bit of the whole pool.
 */
module Bitmap {

  type Word32 = w: seq<bool> | |w| == 32 witness seq(32, _ => false)

  const ZERO: Word32 := seq(32, _ => false)
  const ONES: Word32 := seq(32, _ => true)

  function Or(w: Word32, m: Word32): Word32 {
    seq(32, i requires 0 <= i < 32 => w[i] || m[i])
  }

  function And(w: Word32, m: Word32): Word32 {
    seq(32, i requires 0 <= i < 32 => w[i] && m[i])
  }

  function Not(m: Word32): Word32 {
    seq(32, i requires 0 <= i < 32 => !m[i])
  }

  /** 1 << k. */
  function Mask(k: nat): Word32
    requires k < 32
  {
    seq(32, i => i == k)
  }

  /** Bit `b` of the bitmap that starts at byte `at`. */
  predicate Bit(s: seq<bool>, at: nat, b: nat)
    requires 8 * at + b < |s|
  {
    s[8 * at + b]
  }

  /** Number of set bits in s[lo .. lo + n). */
  ghost function Count(s: seq<bool>, lo: nat, n: nat): (c: nat)
    requires lo + n <= |s|
    ensures c <= n
  {
    if n == 0 then 0 else Count(s, lo, n - 1) + (if s[lo + n - 1] then 1 else 0)
  }

  /** Writing one bit changes the count of exactly those ranges that hold it. */
  lemma {:induction false} CountUpdate(s: seq<bool>, p: nat, v: bool, lo: nat, n: nat)
    requires p < |s| && lo + n <= |s|
    ensures Count(s[p := v], lo, n)
            == Count(s, lo, n) + (if lo <= p < lo + n then (if v then 1 else 0) - (if s[p] then 1 else 0) else 0)
  {
    if n > 0 {
      CountUpdate(s, p, v, lo, n - 1);
    }
  }

  /** The count is full exactly when every bit is set. */
  lemma {:induction false} CountFull(s: seq<bool>, lo: nat, n: nat)
    requires lo + n <= |s|
    ensures Count(s, lo, n) == n <==> forall i :: lo <= i < lo + n ==> s[i]
  {
    if n > 0 {
      CountFull(s, lo, n - 1);
    }
  }

  function WordAt(s: seq<bool>, a: nat): Word32
    requires 8 * a + 32 <= |s|
  {
    s[8 * a..8 * a + 32]
  }

  function StoreWord(s: seq<bool>, a: nat, w: Word32): seq<bool>
    requires 8 * a + 32 <= |s|
  {
    s[..8 * a] + w + s[8 * a + 32..]
  }

  /** Or-ing a mask into a word sets one bit of memory and nothing else. */
  lemma OrSetsOne(s: seq<bool>, a: nat, k: nat)
    requires 8 * a + 32 <= |s| && k < 32
    ensures StoreWord(s, a, Or(WordAt(s, a), Mask(k))) == s[8 * a + k := true]
  {
  }

  /** And-ing with an inverted mask clears one bit of memory and nothing else. */
  lemma AndClearsOne(s: seq<bool>, a: nat, k: nat)
    requires 8 * a + 32 <= |s| && k < 32
    ensures StoreWord(s, a, And(WordAt(s, a), Not(Mask(k)))) == s[8 * a + k := false]
  {
  }

  lemma AndTestsOne(w: Word32, k: nat)
    requires k < 32
    ensures And(w, Mask(k)) != ZERO <==> w[k]
  {
    assert And(w, Mask(k))[k] == w[k];
    assert !w[k] ==> And(w, Mask(k)) == ZERO;
  }

  // ---------------------------------------------------------------- the operations

  method WriteWord(mem: array<bool>, a: nat, w: Word32)
    requires 8 * a + 32 <= mem.Length
    modifies mem
    ensures mem[..] == StoreWord(old(mem[..]), a, w)
  {
    forall i | 0 <= i < 32 {
      mem[8 * a + i] := w[i];
    }
  }

  method BitmapSet(mem: array<bool>, at: nat, bit: nat)
    requires 8 * (at + bit / 32 * 4) + 32 <= mem.Length
    modifies mem
    ensures mem[..] == old(mem[..])[8 * at + bit := true]
  {
    var a := at + bit / 32 * 4;
    OrSetsOne(mem[..], a, bit % 32);
    WriteWord(mem, a, Or(WordAt(mem[..], a), Mask(bit % 32)));
  }

  method BitmapUnset(mem: array<bool>, at: nat, bit: nat)
    requires 8 * (at + bit / 32 * 4) + 32 <= mem.Length
    modifies mem
    ensures mem[..] == old(mem[..])[8 * at + bit := false]
  {
    var a := at + bit / 32 * 4;
    AndClearsOne(mem[..], a, bit % 32);
    WriteWord(mem, a, And(WordAt(mem[..], a), Not(Mask(bit % 32))));
  }

  method BitmapTest(mem: array<bool>, at: nat, bit: nat) returns (r: bool)
    requires 8 * (at + bit / 32 * 4) + 32 <= mem.Length
    ensures r == Bit(mem[..], at, bit)
  {
    var w := WordAt(mem[..], at + bit / 32 * 4);
    AndTestsOne(w, bit % 32);
    r := And(w, Mask(bit % 32)) != ZERO;
  }

  /** The least unset bit of a word below `limit`, or -1 when there is none. */
  method FirstUnsetInWord(w: Word32, limit: nat) returns (r: int)
    requires limit <= 32
    ensures -1 <= r < limit
    ensures forall j :: 0 <= j < (if r == -1 then limit else r) ==> w[j]
    ensures r >= 0 ==> !w[r]
  {
    for j := 0 to limit
      invariant forall i :: 0 <= i < j ==> w[i]
    {
      AndTestsOne(w, j);
      if And(w, Mask(j)) == ZERO {
        return j;
      }
    }
    return -1;
  }

  /** The least unset bit below `size`, or -1 exactly when all are set. */
  method BitmapFirstUnset(mem: array<bool>, at: nat, size: nat) returns (r: int)
    requires 8 * at + (size + 31) / 32 * 32 <= mem.Length
    ensures -1 <= r < size
    ensures forall b: nat :: b < (if r == -1 then size else r) ==> Bit(mem[..], at, b)
    ensures r >= 0 ==> !Bit(mem[..], at, r)
  {
    var remBits := size % 32;
    for i := 0 to size / 32
      invariant forall b: nat :: b < 32 * i ==> Bit(mem[..], at, b)
    {
      var w := WordAt(mem[..], at + i * 4);
      assert forall b: nat :: 32 * i <= b < 32 * i + 32 ==> Bit(mem[..], at, b) == w[b - 32 * i];
      if w != ONES {
        var j := FirstUnsetInWord(w, 32);
        if j != -1 {
          return i * 32 + j;
        }
      }
    }
    if remBits != 0 {
      var w := WordAt(mem[..], at + size / 32 * 4);
      assert forall b: nat :: size / 32 * 32 <= b < size ==> Bit(mem[..], at, b) == w[b - size / 32 * 32];
      var j := FirstUnsetInWord(w, remBits);
      if j != -1 {
        return size / 32 * 32 + j;
      }
    }
    return -1;
  }
}
