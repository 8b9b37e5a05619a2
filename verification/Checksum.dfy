/** IPv4 header arithmetic: the DSCP field (section 3 of RFC 2474) and the
    one's-complement header checksum with its incremental update (section 3 of
    RFC 1624). */
module Checksum {
  import opened Base

  /** `tos >> 2`. */
  function Dscp(tos: Byte): (d: Byte)
    ensures d < 64
  {
    tos / 4
  }

  /** `tos & 3`. */
  function Ecn(tos: Byte): Byte {
    tos % 4
  }

  /** `(dscp << 2) | (tos & 3)` on bytes. */
  function TosWithDscp(tos: Byte, dscp: Byte): (r: Byte) {
    (dscp * 4) % 256 + tos % 4
  }

  lemma {:induction false} TosWithDscpReplacesDscp(tos: Byte, dscp: Byte)
    ensures Ecn(TosWithDscp(tos, dscp)) == Ecn(tos)
    ensures dscp < 64 ==> Dscp(TosWithDscp(tos, dscp)) == dscp
    ensures dscp < 64 ==> (TosWithDscp(tos, dscp) == tos <==> dscp == Dscp(tos))
  {
  }

  /** Bit by bit: of a TOS byte with upper six bits q and lower two bits e, the
      DSCP is q and the ECN e, and replacing the DSCP by d gives d and e. */
  lemma {:induction false} TosBits(q: Byte, e: Byte, d: Byte)
    requires q < 64 && e < 4 && d < 64
    ensures Dscp(q * 4 + e) == q && Ecn(q * 4 + e) == e
    ensures TosWithDscp(q * 4 + e, d) == d * 4 + e
  {
  }

  // ---------- Folding ----------

  /** `(sum & 0xffff) + (sum >> 16)`. */
  function Fold(sum: nat): nat {
    sum % 0x1_0000 + sum / 0x1_0000
  }

  /** The one's-complement value of a sum: what folding until it fits in 16 bits gives. */
  function Residue(sum: nat): (r: U16) {
    if sum == 0 then 0 else (sum - 1) % 0xFFFF + 1
  }

  lemma {:induction false} FoldKeepsResidue(sum: nat)
    ensures Residue(Fold(sum)) == Residue(sum)
    ensures sum >= 0x1_0000 ==> Fold(sum) < sum
    ensures sum < 0x1_0000 ==> Fold(sum) == sum == Residue(sum)
  {
    var lo, hi := sum % 0x1_0000, sum / 0x1_0000;
    assert sum == hi * 0x1_0000 + lo;
    assert Fold(sum) == lo + hi;
    if sum != 0 {
      assert sum - 1 == (lo + hi - 1) + hi * 0xFFFF;
      ModShift(lo + hi - 1, hi);
    }
  }

  lemma {:induction false} ModShift(a: nat, k: nat)
    ensures (a + k * 0xFFFF) % 0xFFFF == a % 0xFFFF
  {
  }

  /** Two sums have the same residue exactly when they agree modulo 0xFFFF and vanish together. */
  lemma {:induction false} ResidueEqual(a: nat, b: nat)
    ensures Residue(a) == Residue(b) <==> a % 0xFFFF == b % 0xFFFF && (a == 0 <==> b == 0)
  {
    if a != 0 && b != 0 {
      assert a % 0xFFFF == ((a - 1) % 0xFFFF + 1) % 0xFFFF;
      assert b % 0xFFFF == ((b - 1) % 0xFFFF + 1) % 0xFFFF;
    }
  }

  // ---------- Full and incremental checksum ----------

  function Sum(words: seq<U16>): nat {
    if words == [] then 0 else Sum(words[..|words| - 1]) + words[|words| - 1]
  }

  /** The checksum of a header, its check field counted as zero. */
  function Full(words: seq<U16>): U16 {
    0xFFFF - Residue(Sum(words))
  }

  /** Word-by-word recomputation, folding while the sum exceeds 16 bits. */
  method FullChecksum(words: seq<U16>) returns (c: U16)
    ensures c == Full(words)
  {
    var sum: nat := 0;
    for i := 0 to |words|
      invariant sum == Sum(words[..i])
    {
      assert words[..i + 1][..i] == words[..i];
      sum := sum + words[i];
    }
    assert words[..|words|] == words;
    while sum >= 0x1_0000
      invariant Residue(sum) == Residue(Sum(words))
    {
      FoldKeepsResidue(sum);
      sum := sum % 0x1_0000 + sum / 0x1_0000;
    }
    FoldKeepsResidue(sum);
    c := 0xFFFF - sum;
  }

  function CsumReplace2(check: U16, old_: U16, new_: U16): U16 {
    var sum := (0xFFFF - check) + (0xFFFF - old_) + new_;
    var sum := Fold(sum);
    var sum := Fold(sum);
    0xFFFF - sum % 0x1_0000
  }

  /** Two folds always suffice: the truncation to 16 bits drops nothing. */
  lemma {:induction false} TwoFoldsSuffice(check: U16, old_: U16, new_: U16)
    ensures var sum := (0xFFFF - check) + (0xFFFF - old_) + new_;
            && Fold(Fold(sum)) < 0x1_0000
            && Fold(Fold(sum)) == Residue(sum)
            && CsumReplace2(check, old_, new_) == 0xFFFF - Residue(sum)
  {
    var sum := (0xFFFF - check) + (0xFFFF - old_) + new_;
    FoldKeepsResidue(sum);
    FoldKeepsResidue(Fold(sum));
    assert sum / 0x1_0000 <= 2;
    assert Fold(sum) <= 0x1_0001;
    assert Fold(sum) >= 0x1_0000 ==> Fold(Fold(sum)) <= 2;
    FoldKeepsResidue(Fold(Fold(sum)));
  }

  lemma {:induction false} SumUpdate(words: seq<U16>, i: nat, w: U16)
    requires i < |words|
    ensures Sum(words[i := w]) == Sum(words) - words[i] + w
    ensures Sum(words) >= words[i]
  {
    var n := |words| - 1;
    if i == n {
      assert words[i := w][..n] == words[..n];
    } else {
      SumUpdate(words[..n], i, w);
      assert words[i := w][..n] == words[..n][i := w];
    }
  }

  /** For a header of any length with a correct stored check, replacing one word
      by a non-zero one and updating the check incrementally equals
      recomputing it in full. */
  lemma {:induction false} IncrementalIsFull(words: seq<U16>, i: nat, w: U16)
    requires i < |words| && w != 0 && words[i] != 0
    ensures CsumReplace2(Full(words), words[i], w) == Full(words[i := w])
  {
    SumUpdate(words, i, w);
    var s, s' := Sum(words), Sum(words[i := w]);
    TwoFoldsSuffice(Full(words), words[i], w);
    var sum := Residue(s) + 0xFFFF - words[i] + w;
    assert sum % 0xFFFF == s' % 0xFFFF by {
      var q := (s - 1) / 0xFFFF;
      assert s == q * 0xFFFF + Residue(s);
      ModShift(Residue(s) - words[i] + w + 0xFFFF, q);
      assert Residue(s) - words[i] + w + 0xFFFF + q * 0xFFFF == s' + 0xFFFF;
      ModShift(s', 1);
    }
    ResidueEqual(sum, s');
  }

  lemma {:induction false} ResidueDecompose(s: nat) returns (q: nat)
    requires s > 0
    ensures s == q * 0xFFFF + Residue(s)
  {
    q := (s - 1) / 0xFFFF;
  }

  /** Adding c to a sum gives all ones exactly when c is the complement of its value,
      or both are zero in one's complement. */
  lemma {:induction false} OnesWhenComplement(s: nat, c: U16)
    requires s > 0
    ensures Residue(s + c) == 0xFFFF <==> c == 0xFFFF - Residue(s) || (c == 0xFFFF && Residue(s) == 0xFFFF)
  {
    var q := ResidueDecompose(s);
    ResidueEqual(s + c, Residue(s) + c);
    ModShift(Residue(s) + c, q);
    assert s + c == Residue(s) + c + q * 0xFFFF;
    assert Residue(s) > 0;
  }

  lemma {:induction false} ThereAndBack(x: U16, a: U16, b: U16)
    ensures var z := Residue(x + (0xFFFF - a) + b) + (0xFFFF - b) + a;
            z > 0 && z % 0xFFFF == x % 0xFFFF
  {
    var s := x + (0xFFFF - a) + b;
    if s > 0 {
      var q := ResidueDecompose(s);
      var z := Residue(s) + (0xFFFF - b) + a;
      assert z + q * 0xFFFF == x + 2 * 0xFFFF;
      ModShift(z, q);
      ModShift(x, 2);
    }
  }

  lemma {:induction false} ResidueBack(x: U16, y: U16, z: U16, a: U16, b: U16)
    requires y == Residue(x + (0xFFFF - a) + b) && z == Residue(y + (0xFFFF - b) + a)
    ensures z == x <==> x != 0
  {
    ThereAndBack(x, a, b);
    ResidueEqual(y + (0xFFFF - b) + a, x);
    assert Residue(x) == x;
  }

  lemma {:induction false} CheckBack(check: U16, there: U16, back: U16, a: U16, b: U16)
    requires 0xFFFF - there == Residue((0xFFFF - check) + (0xFFFF - a) + b)
    requires 0xFFFF - back == Residue((0xFFFF - there) + (0xFFFF - b) + a)
    ensures back == check <==> check != 0xFFFF
  {
    ResidueBack(0xFFFF - check, 0xFFFF - there, 0xFFFF - back, a, b);
  }

  /** The updated check, by its one's-complement value. */
  lemma {:induction false} Replaced(check: U16, a: U16, b: U16) returns (next: U16)
    ensures next == CsumReplace2(check, a, b)
    ensures 0xFFFF - next == Residue((0xFFFF - check) + (0xFFFF - a) + b)
  {
    next := CsumReplace2(check, a, b);
    TwoFoldsSuffice(check, a, b);
  }

  lemma {:induction false} UndoneCheck(check: U16, a: U16, b: U16, there: U16)
    requires 0xFFFF - there == Residue((0xFFFF - check) + (0xFFFF - a) + b)
    ensures CsumReplace2(there, b, a) == check <==> check != 0xFFFF
  {
    var back := Replaced(there, b, a);
    CheckBack(check, there, back, a, b);
  }

  /** Replacing back restores the check if and only if it was not 0xFFFF. */
  lemma {:induction false} ReplaceBack(check: U16, a: U16, b: U16)
    ensures CsumReplace2(CsumReplace2(check, a, b), b, a) == check <==> check != 0xFFFF
  {
    var there := Replaced(check, a, b);
    UndoneCheck(check, a, b, there);
  }
}
