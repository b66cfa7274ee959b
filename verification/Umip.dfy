/**
 The firmware boot partition: a 4 MB image whose first 64 KB (the UMIP) carry
 per-sector checksums, a byte checksum and a token area, under one word
 checksum over everything.
 */
module Umip {
  import opened Bytes

  const IFWI_SIZE := 0x40_0000
  const UMIP_SIZE := 0x1_0000
  const SECTOR_SIZE := 0x200
  const UMIP_XOR_OFFSET := 7
  const IFWI_XOR_OFFSET := 0x112d8
  const TOKEN_OFFSET := 0x4000
  const TOKEN_SIZE := 0x2C00
  const CUSTOM_BOOT_OFFSET := 0x76F
  const DNX_TIMEOUT_OFFSET := 0x400

  // ---------------------------------------------------------------- checksums

  function Words(s: seq<byte>): (w: seq<nat>)
    ensures |w| == |s| / 4
  {
    seq(|s| / 4, i requires 0 <= i < |s| / 4 => Get32(s, 4 * i))
  }

  /** Exclusive or of the 32-bit words. */
  function WordFold(s: seq<byte>): nat {
    XorFold(Words(s))
  }

  /** `xor_factorize`: exclusive or of the four bytes of a word. */
  function Factorize(x: nat): nat {
    Xor(Xor(Xor(x % 0x100, x / 0x100 % 0x100), x / 0x100 / 0x100 % 0x100), x / 0x100 / 0x100 / 0x100 % 0x100)
  }

  function Sector(s: seq<byte>, i: nat): seq<byte>
    requires (i + 1) * SECTOR_SIZE <= |s|
  {
    s[i * SECTOR_SIZE..(i + 1) * SECTOR_SIZE]
  }

  /** All three checksums hold at once. */
  ghost predicate Valid(s: seq<byte>) {
    && |s| == IFWI_SIZE
    && (forall i :: 2 <= i < 128 ==> Get32(s, 4 * i) == WordFold(Sector(s, i)))
    && XorFold(s[..UMIP_SIZE]) == 0
    && WordFold(s) == 0
  }

  /** The bytes that hold checksums. */
  predicate ChecksumField(i: int) {
    UMIP_XOR_OFFSET <= i < SECTOR_SIZE || IFWI_XOR_OFFSET <= i < IFWI_XOR_OFFSET + 4
  }

  ghost predicate SameData(s: seq<byte>, t: seq<byte>) {
    |s| == |t| && forall i :: 0 <= i < |s| && !ChecksumField(i) ==> s[i] == t[i]
  }

  // ---------------------------------------------------------------- words and bytes

  lemma XorByteSplit(u: nat, v: nat)
    ensures Xor(u, v) % 0x100 == Xor(u % 0x100, v % 0x100)
    ensures Xor(u, v) / 0x100 == Xor(u / 0x100, v / 0x100)
  {
    var a, b, c, d := u % 0x100, u / 0x100, v % 0x100, v / 0x100;
    Pow2Bytes();
    XorBytesNamed(8, a, b, u, c, d, v, Xor(a, c), Xor(b, d), Xor(u, v));
  }

  lemma XorBytesNamed(k: nat, a: nat, b: nat, u: nat, c: nat, d: nat, v: nat, f: nat, e: nat, r: nat)
    requires Pow2(k) == 0x100
    requires a < 0x100 && c < 0x100 && u == a + 0x100 * b && v == c + 0x100 * d
    requires f == Xor(a, c) && e == Xor(b, d) && r == Xor(u, v)
    ensures r % 0x100 == f && r / 0x100 == e
  {
    XorSplitNamed(k, a, b, u, c, d, v, f, e, f + 0x100 * e, r);
    XorBound(k, a, c);
    LowAndHigh(f, e);
  }

  lemma LowAndHigh(f: nat, e: nat)
    requires f < 0x100
    ensures (f + 0x100 * e) % 0x100 == f && (f + 0x100 * e) / 0x100 == e
  {
  }

  lemma XorPairs(a: nat, b: nat, c: nat, d: nat)
    ensures Xor(Xor(a, b), Xor(c, d)) == Xor(Xor(a, c), Xor(b, d))
  {
    XorAssoc(a, b, Xor(c, d));
    XorAssoc(b, c, d);
    XorComm(b, c);
    XorAssoc(c, b, d);
    XorAssoc(a, c, Xor(b, d));
  }

  lemma FactorizeXor(u: nat, v: nat)
    ensures Factorize(Xor(u, v)) == Xor(Factorize(u), Factorize(v))
  {
    var u1, v1 := u / 0x100, v / 0x100;
    var u2, v2 := u1 / 0x100, v1 / 0x100;
    var u3, v3 := u2 / 0x100, v2 / 0x100;
    XorByteSplit(u, v);
    XorByteSplit(u1, v1);
    XorByteSplit(u2, v2);
    XorByteSplit(u3, v3);
    FactorizeParts(u % 0x100, u1 % 0x100, u2 % 0x100, u3 % 0x100, v % 0x100, v1 % 0x100, v2 % 0x100, v3 % 0x100);
  }

  lemma FactorizeParts(a: nat, b: nat, c: nat, d: nat, a': nat, b': nat, c': nat, d': nat)
    ensures Xor(Xor(Xor(Xor(a, a'), Xor(b, b')), Xor(c, c')), Xor(d, d'))
         == Xor(Xor(Xor(Xor(a, b), c), d), Xor(Xor(Xor(a', b'), c'), d'))
  {
    XorPairs(a, a', b, b');
    XorPairs(Xor(a, b), Xor(a', b'), c, c');
    XorPairs(Xor(Xor(a, b), c), Xor(Xor(a', b'), c'), d, d');
  }

  lemma BytesOfWord(s: seq<byte>)
    requires |s| == 4
    ensures var x := Get32(s, 0);
            x % 0x100 == s[0] && x / 0x100 % 0x100 == s[1]
            && x / 0x100 / 0x100 % 0x100 == s[2] && x / 0x100 / 0x100 / 0x100 % 0x100 == s[3]
  {
    Le32Get32(s);
    assert Le32(Get32(s, 0))[1] == s[1] && Le32(Get32(s, 0))[2] == s[2] && Le32(Get32(s, 0))[3] == s[3];
  }

  lemma FoldFour(s: seq<byte>)
    requires |s| == 4
    ensures XorFold(s) == Xor(Xor(Xor(s[0], s[1]), s[2]), s[3])
  {
    assert s[..3][..2] == s[..2] && s[..2][..1] == s[..1] == [s[0]];
    FoldSingle(s[0]);
    assert XorFold(s[..2]) == Xor(XorFold(s[..1]), s[1]);
    assert XorFold(s[..3]) == Xor(XorFold(s[..2]), s[2]);
  }

  lemma FactorizeWord(s: seq<byte>)
    requires |s| == 4
    ensures Factorize(Get32(s, 0)) == XorFold(s)
  {
    BytesOfWord(s);
    FoldFour(s);
  }

  /** Collapsing the word checksum gives the byte checksum. */
  lemma {:induction false} FactorizeFold(s: seq<byte>)
    requires |s| % 4 == 0
    ensures Factorize(WordFold(s)) == XorFold(s)
  {
    if |s| == 0 {
      assert Words(s) == [];
      FactorizeZero();
    } else {
      var n := |s| - 4;
      var front, last := s[..n], s[n..];
      FactorizeFold(front);
      FactorizeWord(last);
      assert s == front + last;
      FoldConcat(front, last);
      WordsSnoc(s);
      FactorizeStep(WordFold(front), Get32(last, 0), WordFold(s), XorFold(front), XorFold(last));
    }
  }

  lemma FactorizeZero()
    ensures Factorize(0) == 0
  {
    XorZero(0);
  }

  lemma FactorizeStep(u: nat, v: nat, x: nat, f: nat, g: nat)
    requires x == Xor(u, v) && Factorize(u) == f && Factorize(v) == g
    ensures Factorize(x) == Xor(f, g)
  {
    FactorizeXor(u, v);
  }

  lemma WordsSnoc(s: seq<byte>)
    requires |s| % 4 == 0 && |s| > 0
    ensures WordFold(s) == Xor(WordFold(s[..|s| - 4]), Get32(s, |s| - 4))
    ensures Get32(s, |s| - 4) == Get32(s[|s| - 4..], 0)
  {
    var w := Words(s);
    assert w[..|w| - 1] == Words(s[..|s| - 4]);
  }

  lemma WordsPrefix(s: seq<byte>, i: nat)
    requires 4 * i + 4 <= |s|
    ensures Words(s)[..i + 1][..i] == Words(s)[..i] && Words(s)[i] == Get32(s, 4 * i)
  {
  }

  /** `xor_compute`: the loop over the words of a region. */
  method XorCompute(a: array<byte>, at: nat, size: nat) returns (x: u32)
    requires size % 4 == 0 && at + size <= a.Length
    ensures x == WordFold(a[at..at + size])
  {
    var s := a[at..at + size];
    var acc: nat, i := 0, 0;
    while i < size
      invariant 0 <= i <= size && i % 4 == 0
      invariant acc == XorFold(Words(s)[..i / 4])
    {
      WordsPrefix(s, i / 4);
      acc := Xor(acc, Get32(s, i));
      i := i + 4;
    }
    assert Words(s)[..size / 4] == Words(s);
    WordFoldBound(s);
    x := acc;
  }

  lemma WordFoldBound(s: seq<byte>)
    ensures WordFold(s) < 0x1_0000_0000
  {
    Pow2Bytes();
    FoldBound(32, Words(s));
  }

  // ---------------------------------------------------------------- updating the checksums

  ghost predicate SectorsOk(s: seq<byte>) {
    |s| == IFWI_SIZE && forall i :: 2 <= i < 128 ==> Get32(s, 4 * i) == WordFold(Sector(s, i))
  }

  lemma GetSpliced(s: seq<byte>, at: nat, v: u32)
    requires at + 4 <= |s|
    ensures Get32(Splice(s, at, Le32(v)), at) == v
  {
    var t := Splice(s, at, Le32(v));
    Get32Le32(v);
    assert t[at] == Le32(v)[0] && t[at + 1] == Le32(v)[1] && t[at + 2] == Le32(v)[2] && t[at + 3] == Le32(v)[3];
  }

  lemma SameSector(s: seq<byte>, t: seq<byte>, i: nat)
    requires |s| == |t| == IFWI_SIZE && 2 <= i < 128
    requires forall k :: 2 * SECTOR_SIZE <= k < UMIP_SIZE ==> s[k] == t[k]
    ensures Sector(s, i) == Sector(t, i)
  {
  }

  lemma SectorsOkKept(s: seq<byte>, t: seq<byte>)
    requires SectorsOk(s) && |t| == IFWI_SIZE
    requires forall k :: 8 <= k < UMIP_SIZE ==> t[k] == s[k]
    ensures SectorsOk(t)
  {
    forall i | 2 <= i < 128 ensures Get32(t, 4 * i) == WordFold(Sector(t, i)) {
      SameSector(s, t, i);
      assert Get32(t, 4 * i) == Get32(s, 4 * i);
    }
  }

  lemma WordsSplice(s: seq<byte>, k: nat, v: u32)
    requires |s| % 4 == 0 && 4 * k + 4 <= |s|
    ensures Words(Splice(s, 4 * k, Le32(v))) == Words(s)[k := v]
  {
    var t := Splice(s, 4 * k, Le32(v));
    GetSpliced(s, 4 * k, v);
    forall i | 0 <= i < |s| / 4 && i != k ensures Words(t)[i] == Words(s)[i] {
      assert Get32(t, 4 * i) == Get32(s, 4 * i);
    }
  }

  /** The checksums of the sectors below `n` are in place. */
  ghost predicate SumsUpTo(s: seq<byte>, n: nat) {
    |s| == IFWI_SIZE && n <= 128 && forall j :: 2 <= j < n ==> Get32(s, 4 * j) == WordFold(Sector(s, j))
  }

  lemma SumsStep(s: seq<byte>, i: nat, x: u32)
    requires SumsUpTo(s, i) && 2 <= i < 128 && x == WordFold(Sector(s, i))
    ensures SumsUpTo(Splice(s, 4 * i, Le32(x)), i + 1)
  {
    var t := Splice(s, 4 * i, Le32(x));
    GetSpliced(s, 4 * i, x);
    forall j | 2 <= j < i + 1 ensures Get32(t, 4 * j) == WordFold(Sector(t, j)) {
      SameSector(s, t, j);
      if j < i { assert Get32(t, 4 * j) == Get32(s, 4 * j); }
    }
  }

  /** Checksums of the UMIP sectors 2 to 127, kept in sector 0. */
  method UpdateSectorSums(a: array<byte>)
    requires a.Length == IFWI_SIZE
    modifies a
    ensures SectorsOk(a[..])
    ensures forall k :: 0 <= k < a.Length && !(8 <= k < SECTOR_SIZE) ==> a[k] == old(a[k])
  {
    var i := 2;
    while i < 128
      invariant 2 <= i <= 128
      invariant SumsUpTo(a[..], i)
      invariant forall k :: 0 <= k < a.Length && !(8 <= k < SECTOR_SIZE) ==> a[k] == old(a[k])
    {
      ghost var before := a[..];
      var x := XorCompute(a, i * SECTOR_SIZE, SECTOR_SIZE);
      assert a[i * SECTOR_SIZE..i * SECTOR_SIZE + SECTOR_SIZE] == Sector(before, i);
      PutLe32(a, 4 * i, x);
      SumsStep(before, i, x);
      i := i + 1;
    }
  }

  /** Byte checksum of the UMIP. */
  method UpdateUmipSum(a: array<byte>)
    requires a.Length == IFWI_SIZE
    modifies a
    ensures XorFold(a[..UMIP_SIZE]) == 0
    ensures forall k :: 0 <= k < a.Length && k != UMIP_XOR_OFFSET ==> a[k] == old(a[k])
  {
    a[UMIP_XOR_OFFSET] := 0;
    var x := XorCompute(a, 0, UMIP_SIZE);
    ghost var u := a[..UMIP_SIZE];
    assert a[0..0 + UMIP_SIZE] == u;
    FactorizeFold(u);
    FoldByte(u);
    FoldSeal(u, UMIP_XOR_OFFSET);
    var sum: byte := Factorize(x);
    a[UMIP_XOR_OFFSET] := sum;
    assert a[..UMIP_SIZE] == u[UMIP_XOR_OFFSET := sum];
  }

  /** Word checksum of the whole image. */
  method UpdateIfwiSum(a: array<byte>)
    requires a.Length == IFWI_SIZE
    modifies a
    ensures WordFold(a[..]) == 0
    ensures forall k :: 0 <= k < a.Length && !(IFWI_XOR_OFFSET <= k < IFWI_XOR_OFFSET + 4) ==> a[k] == old(a[k])
  {
    GetSpliced(a[..], IFWI_XOR_OFFSET, 0);
    PutLe32(a, IFWI_XOR_OFFSET, 0);
    ghost var s := a[..];
    var x := XorCompute(a, 0, IFWI_SIZE);
    assert a[0..0 + IFWI_SIZE] == s;
    SealWord(s, IFWI_XOR_OFFSET / 4, x);
    PutLe32(a, IFWI_XOR_OFFSET, x);
  }

  lemma SealWord(s: seq<byte>, k: nat, v: u32)
    requires |s| % 4 == 0 && 4 * k + 4 <= |s| && Get32(s, 4 * k) == 0 && v == WordFold(s)
    ensures WordFold(Splice(s, 4 * k, Le32(v))) == 0
  {
    WordsSplice(s, k, v);
    FoldSeal(Words(s), k);
  }

  /** `xor_update`: afterwards all three checksums hold, and nothing but the
      checksum fields has changed; if they held already, nothing has changed. */
  method XorUpdate(a: array<byte>)
    requires a.Length == IFWI_SIZE
    modifies a
    ensures Valid(a[..]) && SameData(old(a[..]), a[..])
    ensures Valid(old(a[..])) ==> a[..] == old(a[..])
  {
    UpdateSectorSums(a);
    ghost var s1 := a[..];
    UpdateUmipSum(a);
    ghost var s2 := a[..];
    SectorsOkKept(s1, s2);
    UpdateIfwiSum(a);
    SectorsOkKept(s2, a[..]);
    assert a[..][..UMIP_SIZE] == s2[..UMIP_SIZE];
    if Valid(old(a[..])) {
      ValidDetermined(old(a[..]), a[..]);
    }
  }

  // ---------------------------------------------------------------- the checksums are determined

  lemma SameWordSameBytes(s: seq<byte>, t: seq<byte>, at: nat)
    requires at + 4 <= |s| == |t| && Get32(s, at) == Get32(t, at)
    ensures s[at] == t[at] && s[at + 1] == t[at + 1] && s[at + 2] == t[at + 2] && s[at + 3] == t[at + 3]
  {
    var a, b := s[at..at + 4], t[at..at + 4];
    assert Get32(a, 0) == Get32(s, at) && Get32(b, 0) == Get32(t, at);
    Le32Get32(a);
    Le32Get32(b);
    assert a[0] == b[0] && a[1] == b[1] && a[2] == b[2] && a[3] == b[3];
  }

  lemma SectorSumsDetermined(s: seq<byte>, t: seq<byte>, k: nat)
    requires Valid(s) && Valid(t) && SameData(s, t) && 8 <= k < SECTOR_SIZE
    ensures s[k] == t[k]
  {
    var i := k / 4;
    SameSector(s, t, i);
    assert Get32(s, 4 * i) == Get32(t, 4 * i);
    SameWordSameBytes(s, t, 4 * i);
  }

  lemma UmipSumDetermined(s: seq<byte>, t: seq<byte>)
    requires Valid(s) && Valid(t) && SameData(s, t)
    requires forall k :: 8 <= k < SECTOR_SIZE ==> s[k] == t[k]
    ensures s[UMIP_XOR_OFFSET] == t[UMIP_XOR_OFFSET]
  {
    var u, v := s[..UMIP_SIZE], t[..UMIP_SIZE];
    FoldSealUnique(u, UMIP_XOR_OFFSET);
    FoldSealUnique(v, UMIP_XOR_OFFSET);
    assert u[UMIP_XOR_OFFSET := 0] == v[UMIP_XOR_OFFSET := 0];
  }

  lemma IfwiSumDetermined(s: seq<byte>, t: seq<byte>)
    requires Valid(s) && Valid(t)
    requires forall i :: 0 <= i < IFWI_SIZE && !(IFWI_XOR_OFFSET <= i < IFWI_XOR_OFFSET + 4) ==> s[i] == t[i]
    ensures Get32(s, IFWI_XOR_OFFSET) == Get32(t, IFWI_XOR_OFFSET)
  {
    var k := IFWI_XOR_OFFSET / 4;
    FoldSealUnique(Words(s), k);
    FoldSealUnique(Words(t), k);
    forall i | 0 <= i < IFWI_SIZE / 4 && i != k ensures Words(s)[i] == Words(t)[i] {
      assert Get32(s, 4 * i) == Get32(t, 4 * i);
    }
    assert Words(s)[k := 0] == Words(t)[k := 0];
    assert Words(s)[k] == Get32(s, 4 * k) && Words(t)[k] == Get32(t, 4 * k);
  }

  /** The data of an image leave no choice for its checksums: two valid images
      with the same data are the same. In particular a second `xor_update`
      changes nothing. */
  lemma ValidDetermined(s: seq<byte>, t: seq<byte>)
    requires Valid(s) && Valid(t) && SameData(s, t)
    ensures s == t
  {
    forall k | 8 <= k < SECTOR_SIZE ensures s[k] == t[k] {
      SectorSumsDetermined(s, t, k);
    }
    UmipSumDetermined(s, t);
    IfwiSumDetermined(s, t);
    SameWordSameBytes(s, t, IFWI_XOR_OFFSET);
  }
}
