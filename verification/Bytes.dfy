/**
 Bytes, fixed-width words, exclusive or and little-endian fields.

 Words are mathematical integers with an explicit range. Exclusive or is
 defined bit by bit on naturals, so that checksums over bytes and checksums
 over 32-bit words can be compared with each other.
 */
module Bytes {

  type byte = x: int | 0 <= x < 0x100
  type u16 = x: int | 0 <= x < 0x1_0000
  type u24 = x: int | 0 <= x < 0x100_0000
  type u32 = x: int | 0 <= x < 0x1_0000_0000

  // ---------------------------------------------------------------- exclusive or

  function Xor(a: nat, b: nat): nat
    decreases a + b
  {
    if a == 0 && b == 0 then 0
    else (if a % 2 == b % 2 then 0 else 1) + 2 * Xor(a / 2, b / 2)
  }

  predicate Odd(a: nat) {
    a % 2 == 1
  }

  function Pow2(k: nat): (r: nat)
    ensures r >= 1
  {
    if k == 0 then 1 else 2 * Pow2(k - 1)
  }

  lemma {:induction false} XorZero(a: nat)
    ensures Xor(a, 0) == a == Xor(0, a)
  {
    if a != 0 { XorZero(a / 2); }
  }

  lemma {:induction false} XorSelf(a: nat)
    ensures Xor(a, a) == 0
  {
    if a != 0 { XorSelf(a / 2); }
  }

  lemma {:induction false} XorComm(a: nat, b: nat)
    ensures Xor(a, b) == Xor(b, a)
    decreases a + b
  {
    if a != 0 || b != 0 { XorComm(a / 2, b / 2); }
  }

  lemma {:induction false} XorHalves(a: nat, b: nat)
    ensures Xor(a, b) / 2 == Xor(a / 2, b / 2)
    ensures Odd(Xor(a, b)) <==> Odd(a) != Odd(b)
  {
    if a == 0 && b == 0 { assert Xor(0, 0) == 0; }
  }

  lemma SameHalves(x: nat, y: nat)
    requires x / 2 == y / 2 && (Odd(x) <==> Odd(y))
    ensures x == y
  {
  }

  lemma XorAssoc(a: nat, b: nat, c: nat)
    ensures Xor(Xor(a, b), c) == Xor(a, Xor(b, c))
  {
    XorAssocNamed(a, b, c, Xor(a, b), Xor(b, c), Xor(Xor(a, b), c), Xor(a, Xor(b, c)));
  }

  // Associativity with every intermediate result named, so that each step of
  // the induction halves seven plain numbers.
  lemma {:induction false} XorAssocNamed(a: nat, b: nat, c: nat, ab: nat, bc: nat, l: nat, r: nat)
    requires ab == Xor(a, b) && bc == Xor(b, c) && l == Xor(ab, c) && r == Xor(a, bc)
    ensures l == r
    decreases a + b + c
  {
    if a != 0 || b != 0 || c != 0 {
      XorHalves(a, b);
      XorHalves(b, c);
      XorHalves(ab, c);
      XorHalves(a, bc);
      XorAssocNamed(a / 2, b / 2, c / 2, ab / 2, bc / 2, l / 2, r / 2);
      SameHalves(l, r);
    }
  }

  /** Exclusive or of two `k`-bit numbers is a `k`-bit number. */
  lemma {:induction false} XorBound(k: nat, a: nat, b: nat)
    requires a < Pow2(k) && b < Pow2(k)
    ensures Xor(a, b) < Pow2(k)
  {
    if k > 0 { XorBound(k - 1, a / 2, b / 2); }
  }

  lemma Pow2Bytes()
    ensures Pow2(8) == 0x100 && Pow2(32) == 0x1_0000_0000
  {
    assert Pow2(8) == 2 * 2 * 2 * 2 * Pow2(4) == 0x100;
    assert Pow2(16) == 2 * 2 * 2 * 2 * 2 * 2 * 2 * 2 * Pow2(8) by {
      assert Pow2(12) == 2 * 2 * 2 * 2 * Pow2(8);
      assert Pow2(16) == 2 * 2 * 2 * 2 * Pow2(12);
    }
    assert Pow2(24) == 0x100 * Pow2(16) by {
      assert Pow2(20) == 2 * 2 * 2 * 2 * Pow2(16);
      assert Pow2(24) == 2 * 2 * 2 * 2 * Pow2(20);
    }
    assert Pow2(28) == 2 * 2 * 2 * 2 * Pow2(24);
    assert Pow2(32) == 2 * 2 * 2 * 2 * Pow2(28);
  }

  // `z` joins a low part below `Pow2(k)` with a high part.
  ghost predicate Joined(k: nat, low: nat, high: nat, z: nat) {
    z == low + Pow2(k) * high
  }

  /** Exclusive or works separately on the low `k` bits and on the rest. */
  lemma {:induction false} XorSplitNamed(k: nat, a: nat, b: nat, x: nat, c: nat, d: nat, y: nat,
                                         f: nat, e: nat, z: nat, r: nat)
    requires a < Pow2(k) && c < Pow2(k)
    requires Joined(k, a, b, x) && Joined(k, c, d, y) && Joined(k, f, e, z)
    requires f == Xor(a, c) && r == Xor(x, y) && e == Xor(b, d)
    ensures r == z
  {
    if k == 0 {
      assert Xor(0, 0) == 0;
    } else {
      JoinedHalf(k, a, b, x);
      JoinedHalf(k, c, d, y);
      JoinedHalf(k, f, e, z);
      XorHalves(a, c);
      XorHalves(x, y);
      XorSplitNamed(k - 1, a / 2, b, x / 2, c / 2, d, y / 2, f / 2, e, z / 2, r / 2);
      SameHalves(r, z);
    }
  }

  lemma JoinedHalf(k: nat, a: nat, b: nat, x: nat)
    requires k > 0 && Joined(k, a, b, x)
    ensures Joined(k - 1, a / 2, b, x / 2)
    ensures Odd(x) <==> Odd(a)
    ensures a < Pow2(k) ==> a / 2 < Pow2(k - 1)
  {
    assert x == a + 2 * (Pow2(k - 1) * b);
  }

  // ---------------------------------------------------------------- folds

  /** The exclusive or of all elements, accumulated from left to right. */
  function XorFold(s: seq<nat>): nat
  {
    if |s| == 0 then 0 else Xor(XorFold(s[..|s| - 1]), s[|s| - 1])
  }

  lemma {:induction false} FoldConcat(s: seq<nat>, t: seq<nat>)
    ensures XorFold(s + t) == Xor(XorFold(s), XorFold(t))
  {
    if |t| == 0 {
      assert s + t == s;
      XorZero(XorFold(s));
    } else {
      var u := s + t;
      assert u[..|u| - 1] == s + t[..|t| - 1];
      FoldConcat(s, t[..|t| - 1]);
      XorAssoc(XorFold(s), XorFold(t[..|t| - 1]), t[|t| - 1]);
    }
  }

  lemma FoldSingle(x: nat)
    ensures XorFold([x]) == x
  {
    assert [x][..0] == [];
    XorZero(x);
  }

  /** Replacing one element by another exchanges their contributions. */
  lemma FoldUpdate(s: seq<nat>, i: nat, v: nat)
    requires i < |s|
    ensures XorFold(s[i := v]) == Xor(Xor(XorFold(s), s[i]), v)
  {
    var a, b := XorFold(s[..i]), XorFold(s[i + 1..]);
    FoldAround(s, i);
    FoldAround(s[i := v], i);
    assert s[i := v][..i] == s[..i] && s[i := v][i + 1..] == s[i + 1..];
    // Xor(Xor(a, x), b) with x cancelled and v put in
    var x := s[i];
    XorSwap(a, x, b);
    XorCancel(Xor(a, b), x);
    XorSwap(a, v, b);
  }

  lemma FoldAround(s: seq<nat>, i: nat)
    requires i < |s|
    ensures XorFold(s) == Xor(Xor(XorFold(s[..i]), s[i]), XorFold(s[i + 1..]))
  {
    assert s == s[..i + 1] + s[i + 1..];
    FoldConcat(s[..i + 1], s[i + 1..]);
    assert s[..i + 1][..i] == s[..i];
  }

  lemma XorSwap(a: nat, x: nat, b: nat)
    ensures Xor(Xor(a, x), b) == Xor(Xor(a, b), x)
  {
    XorAssoc(a, x, b);
    XorComm(x, b);
    XorAssoc(a, b, x);
  }

  lemma XorCancel(a: nat, x: nat)
    ensures Xor(Xor(a, x), x) == a
  {
    XorAssoc(a, x, x);
    XorSelf(x);
    XorZero(a);
  }

  /** Storing the fold of a sequence in one of its zero cells makes the fold zero. */
  lemma FoldSeal(s: seq<nat>, i: nat)
    requires i < |s| && s[i] == 0
    ensures XorFold(s[i := XorFold(s)]) == 0
  {
    FoldUpdate(s, i, XorFold(s));
    XorZero(XorFold(s));
    XorSelf(XorFold(s));
  }

  /** A zero fold determines every cell from the others. */
  lemma FoldSealUnique(s: seq<nat>, i: nat)
    requires i < |s| && XorFold(s) == 0
    ensures XorFold(s[i := 0]) == s[i]
  {
    FoldUpdate(s, i, 0);
    XorZero(s[i]);
    XorZero(Xor(0, s[i]));
  }

  lemma {:induction false} FoldBound(k: nat, s: seq<nat>)
    requires forall i :: 0 <= i < |s| ==> s[i] < Pow2(k)
    ensures XorFold(s) < Pow2(k)
  {
    if |s| > 0 {
      FoldBound(k, s[..|s| - 1]);
      XorBound(k, XorFold(s[..|s| - 1]), s[|s| - 1]);
    }
  }

  lemma FoldByte(s: seq<byte>)
    ensures XorFold(s) < 0x100
  {
    Pow2Bytes();
    FoldBound(8, s);
  }

  /** An even run of one repeated value contributes nothing. */
  lemma {:induction false} FoldRepeated(s: seq<nat>, v: nat)
    requires forall i :: 0 <= i < |s| ==> s[i] == v
    ensures XorFold(s) == if |s| % 2 == 0 then 0 else v
  {
    if |s| > 0 {
      FoldRepeated(s[..|s| - 1], v);
      XorSelf(v);
      XorZero(v);
    }
  }

  // ---------------------------------------------------------------- little-endian fields

  function Le16(x: u16): (s: seq<byte>)
    ensures |s| == 2
  {
    [x % 0x100, x / 0x100]
  }

  function Le24(x: u24): (s: seq<byte>)
    ensures |s| == 3
  {
    [x % 0x100] + Le16(x / 0x100)
  }

  function Le32(x: u32): (s: seq<byte>)
    ensures |s| == 4
  {
    [x % 0x100] + Le24(x / 0x100)
  }

  function Get16(s: seq<byte>, at: nat): u16
    requires at + 2 <= |s|
  {
    var low: int, high: int := s[at], s[at + 1];
    low + 0x100 * high
  }

  function Get24(s: seq<byte>, at: nat): u24
    requires at + 3 <= |s|
  {
    var low: int, high: int := s[at], Get16(s, at + 1);
    low + 0x100 * high
  }

  function Get32(s: seq<byte>, at: nat): u32
    requires at + 4 <= |s|
  {
    var low: int, high: int := s[at], Get24(s, at + 1);
    low + 0x100 * high
  }

  /** The byte with the lowest address is the least significant. */
  lemma LittleEndian(s: seq<byte>, at: nat)
    requires at + 4 <= |s|
    ensures var a: int, b: int, c: int, d: int := s[at], s[at + 1], s[at + 2], s[at + 3];
            Get32(s, at) == a + 0x100 * b + 0x1_0000 * c + 0x100_0000 * d
  {
  }

  lemma Get16Le16(x: u16)
    ensures Get16(Le16(x), 0) == x
  {
  }

  lemma Get24Le24(x: u24)
    ensures Get24(Le24(x), 0) == x
  {
    Get16Le16(x / 0x100);
  }

  lemma Get32Le32(x: u32)
    ensures Get32(Le32(x), 0) == x
  {
    Get24Le24(x / 0x100);
    assert Get24(Le32(x), 1) == Get24(Le24(x / 0x100), 0);
  }

  lemma Le16Get16(s: seq<byte>)
    requires |s| == 2
    ensures Le16(Get16(s, 0)) == s
  {
  }

  lemma Le24Get24(s: seq<byte>)
    requires |s| == 3
    ensures Le24(Get24(s, 0)) == s
  {
    assert Get16(s, 1) == Get16(s[1..], 0);
    Le16Get16(s[1..]);
    assert s == [s[0]] + s[1..];
  }

  lemma Le32Get32(s: seq<byte>)
    requires |s| == 4
    ensures Le32(Get32(s, 0)) == s
  {
    assert Get24(s, 1) == Get24(s[1..], 0);
    Le24Get24(s[1..]);
    assert s == [s[0]] + s[1..];
  }

  /** Overwrites `|t|` bytes of `s` starting at `at`. */
  function Splice<T>(s: seq<T>, at: nat, t: seq<T>): (r: seq<T>)
    requires at + |t| <= |s|
    ensures |r| == |s|
    ensures forall i :: 0 <= i < |r| ==> r[i] == if at <= i < at + |t| then t[i - at] else s[i]
  {
    s[..at] + t + s[at + |t|..]
  }

  lemma SpliceReadsBack<T>(s: seq<T>, at: nat, t: seq<T>)
    requires at + |t| <= |s|
    ensures Splice(s, at, t)[at..at + |t|] == t
  {
  }

  /** Stores a 32-bit field into a buffer. */
  method PutLe32(a: array<byte>, at: nat, v: u32)
    requires at + 4 <= a.Length
    modifies a
    ensures a[..] == Splice(old(a[..]), at, Le32(v))
  {
    var b := Le32(v);
    a[at], a[at + 1], a[at + 2], a[at + 3] := b[0], b[1], b[2], b[3];
  }
}
