/** The ones' complement checksum (section 1 of RFC 1071) of IPv4 headers (section 3.1 of RFC 791). */
module Checksum {
  import opened Ipv4

  /** Sum of the big-endian 16-bit words; a last odd byte counts as the high half of a word. */
  function WordSum(bytes: seq<U8>): nat {
    var n := |bytes|;
    if n == 0 then 0
    else if n % 2 == 1 then WordSum(bytes[..n - 1]) + 256 * (bytes[n - 1] as int)
    else WordSum(bytes[..n - 2]) + 256 * (bytes[n - 2] as int) + bytes[n - 1]
  }

  /** Adding the high half to the low half until 16 bits are left. */
  function Fold(sum: nat): (r: nat)
    ensures r < 0x1_0000
  {
    if sum < 0x1_0000 then sum else Fold(sum % 0x1_0000 + sum / 0x1_0000)
  }

  /** The accumulator is 32 bits wide and wraps. */
  function Wrapped(sum: nat): nat { sum % 0x1_0000_0000 }

  function InternetChecksum(bytes: seq<U8>, initial: U32): U16 {
    0xffff - Fold(Wrapped(initial + WordSum(bytes)))
  }

  method InternetChecksumLoop(bytes: seq<U8>, initial: U32) returns (r: U16)
    ensures r == InternetChecksum(bytes, initial)
  {
    hide WordSum, Fold, Wrapped;
    var sum: nat := initial;
    var i := 0;
    assert bytes[..0] == [];
    NoWords(initial);
    while i + 1 < |bytes|
      invariant 0 <= i <= |bytes| && i % 2 == 0
      invariant sum == Wrapped(initial + WordSum(bytes[..i]))
    {
      var word := 256 * (bytes[i] as int) + bytes[i + 1];
      OneMoreWord(bytes, i);
      WrapAdd(initial + WordSum(bytes[..i]), word);
      sum := Wrapped(sum + word);
      i := i + 2;
    }
    if |bytes| % 2 == 1 {
      OddByte(bytes);
      assert i == |bytes| - 1;
      WrapAdd(initial + WordSum(bytes[..i]), 256 * (bytes[|bytes| - 1] as int));
      sum := Wrapped(sum + 256 * (bytes[|bytes| - 1] as int));
    } else {
      assert bytes[..i] == bytes;
    }
    while sum / 0x1_0000 != 0
      invariant Fold(sum) == Fold(Wrapped(initial + WordSum(bytes)))
      decreases sum
    {
      FoldOnce(sum);
      sum := sum % 0x1_0000 + sum / 0x1_0000;
    }
    FoldOnce(sum);
    r := 0xffff - sum;
  }

  lemma NoWords(initial: U32)
    ensures WordSum([]) == 0 && Wrapped(initial) == initial
  {}

  lemma OneMoreWord(bytes: seq<U8>, i: nat)
    requires i % 2 == 0 && i + 2 <= |bytes|
    ensures WordSum(bytes[..i + 2]) == WordSum(bytes[..i]) + (256 * (bytes[i] as int) + bytes[i + 1])
  {
    assert bytes[..i + 2][..i] == bytes[..i];
  }

  lemma OddByte(bytes: seq<U8>)
    requires |bytes| % 2 == 1
    ensures WordSum(bytes) == WordSum(bytes[..|bytes| - 1]) + 256 * (bytes[|bytes| - 1] as int)
  {}

  lemma FoldOnce(sum: nat)
    ensures Fold(sum) == if sum / 0x1_0000 != 0 then Fold(sum % 0x1_0000 + sum / 0x1_0000) else sum
  {}

  lemma WrapAdd(a: nat, b: nat)
    ensures Wrapped(Wrapped(a) + b) == Wrapped(a + b)
  {
    var m := 0x1_0000_0000;
    var q, r := a / m, a % m;
    var q', r' := (r + b) / m, (r + b) % m;
    QuotientUnique(a + b, m, q + q', r');
  }

  /** Folding keeps the sum modulo 65535, and only zero folds to zero. */
  lemma {:induction false} FoldKeepsResidue(sum: nat)
    ensures Fold(sum) % 0xffff == sum % 0xffff
    ensures Fold(sum) == 0 <==> sum == 0
  {
    if sum >= 0x1_0000 {
      var next := sum % 0x1_0000 + sum / 0x1_0000;
      FoldKeepsResidue(next);
      assert Fold(sum) == Fold(next);
      hide Fold;
      ResidueShift(next, sum / 0x1_0000);
      assert sum == next + 0xffff * (sum / 0x1_0000);
    } else {
      assert Fold(sum) == sum;
    }
  }

  lemma ResidueShift(x: nat, k: nat)
    ensures (x + 0xffff * k) % 0xffff == x % 0xffff
  {
    QuotientUnique(x + 0xffff * k, 0xffff, x / 0xffff + k, x % 0xffff);
  }

  lemma {:induction false} WordSumBound(bytes: seq<U8>)
    ensures WordSum(bytes) <= 0xffff * ((|bytes| + 1) / 2)
  {
    var n := |bytes|;
    if n > 0 {
      if n % 2 == 1 { WordSumBound(bytes[..n - 1]); } else { WordSumBound(bytes[..n - 2]); }
    }
  }

  /** No wrap-around can happen below this length. */
  const MAX_LENGTH := 131070

  /** The checksum is zero exactly when the word sum is positive and divisible by 65535. */
  lemma ZeroIffDivisible(bytes: seq<U8>, initial: U32)
    requires initial + WordSum(bytes) < 0x1_0000_0000
    ensures InternetChecksum(bytes, initial) == 0 <==>
            initial + WordSum(bytes) > 0 && (initial + WordSum(bytes)) % 0xffff == 0
  {
    hide WordSum, Fold;
    var s := initial + WordSum(bytes);
    FoldKeepsResidue(s);
    SmallSumUnwrapped(s);
    TopResidue(Fold(s));
  }

  lemma SmallSumUnwrapped(s: nat)
    requires s < 0x1_0000_0000
    ensures Wrapped(s) == s
  {}

  lemma TopResidue(f: nat)
    requires f <= 0xffff
    ensures f % 0xffff == 0 <==> f == 0 || f == 0xffff
  {}

  function StoreWord(bytes: seq<U8>, at: nat, v: U16): seq<U8>
    requires at + 2 <= |bytes|
  {
    bytes[at := v / 256][at + 1 := v % 256]
  }

  lemma {:induction false} StoreAdds(bytes: seq<U8>, at: nat, v: U16)
    requires at % 2 == 0 && at + 2 <= |bytes| && bytes[at] == 0 && bytes[at + 1] == 0
    ensures WordSum(StoreWord(bytes, at, v)) == WordSum(bytes) + v
    decreases |bytes|
  {
    var n := |bytes|;
    var stored := StoreWord(bytes, at, v);
    if n % 2 == 1 {
      StoreAdds(bytes[..n - 1], at, v);
      assert stored[..n - 1] == StoreWord(bytes[..n - 1], at, v);
    } else if at == n - 2 {
      assert stored[..n - 2] == bytes[..n - 2];
    } else {
      StoreAdds(bytes[..n - 2], at, v);
      assert stored[..n - 2] == StoreWord(bytes[..n - 2], at, v);
    }
  }

  /**
   * A word stored into a zeroed even position makes the whole validate exactly
   * when it is the computed checksum, up to the two forms of zero.
   */
  lemma StoredWordValidatesIff(bytes: seq<U8>, at: nat, v: U16)
    requires |bytes| <= MAX_LENGTH && at % 2 == 0 && at + 2 <= |bytes| && bytes[at] == 0 && bytes[at + 1] == 0
    ensures InternetChecksum(StoreWord(bytes, at, v), 0) == 0 <==>
            WordSum(bytes) + v > 0 && v % 0xffff == InternetChecksum(bytes, 0) % 0xffff
  {
    hide WordSum, Fold, StoreWord;
    StoreAdds(bytes, at, v);
    WordSumBound(bytes);
    var s := WordSum(bytes);
    assert s <= 0xffff * 65535;
    FoldKeepsResidue(s);
    SmallSumUnwrapped(s);
    ZeroIffDivisible(StoreWord(bytes, at, v), 0);
    ComplementResidue(s, Fold(s), v);
  }

  lemma ComplementResidue(s: nat, f: nat, v: nat)
    requires f <= 0xffff && f % 0xffff == s % 0xffff
    ensures (s + v) % 0xffff == 0 <==> v % 0xffff == (0xffff - f) % 0xffff
  {}

  /** Storing the checksum of a header into its zeroed checksum field always validates. */
  lemma StoredChecksumValidates(header: seq<U8>)
    requires 20 <= |header| <= 60 && header[10] == 0 && header[11] == 0
    ensures InternetChecksum(StoreWord(header, 10, InternetChecksum(header, 0)), 0) == 0
  {
    hide WordSum, Fold, StoreWord;
    StoredWordValidatesIff(header, 10, InternetChecksum(header, 0));
    WordSumBound(header);
    SmallSumUnwrapped(WordSum(header));
    FoldKeepsResidue(WordSum(header));
  }

  lemma FoldEqualIff(a: nat, b: nat)
    ensures Fold(a) == Fold(b) <==> a % 0xffff == b % 0xffff && (a == 0 <==> b == 0)
  {
    FoldKeepsResidue(a);
    FoldKeepsResidue(b);
    hide Fold;
    TopResidue(Fold(a));
    TopResidue(Fold(b));
  }

  lemma CarryResidue(sum: nat)
    ensures sum % 0xffff == Wrapped(sum) % 0xffff <==> sum / 0x1_0000_0000 % 0xffff == 0
  {
    var q, r := sum / 0x1_0000_0000, Wrapped(sum);
    assert sum == (r + q) + 0xffff * (0x1_0001 * q);
    ResidueShift(r + q, 0x1_0001 * q);
    SameResidueIff(r, q);
  }

  lemma SameResidueIff(r: nat, q: nat)
    ensures (r + q) % 0xffff == r % 0xffff <==> q % 0xffff == 0
  {
    var a, b := r % 0xffff, q % 0xffff;
    var k := r / 0xffff + q / 0xffff;
    assert r + q == (a + b) + 0xffff * k;
    ResidueShift(a + b, k);
  }

  /**
   * The 32-bit accumulator gives the ones' complement sum exactly when the
   * carries lost out of bit 31 count to a multiple of 65535, and nothing but
   * zero wraps to zero.
   */
  lemma WrapHarmlessIff(bytes: seq<U8>, initial: U32)
    ensures var s := initial + WordSum(bytes);
            InternetChecksum(bytes, initial) == 0xffff - Fold(s) <==>
              s / 0x1_0000_0000 % 0xffff == 0 && (Wrapped(s) == 0 ==> s == 0)
  {
    hide WordSum, Fold;
    var s := initial + WordSum(bytes);
    FoldEqualIff(Wrapped(s), s);
    CarryResidue(s);
  }

  /** With wrap-around the equivalence fails: the carry out of bit 31 is lost. */
  lemma WrapLosesCarry()
    ensures var bytes: seq<U8> := [0xff, 0xff];
            (0xffff_0001 + WordSum(bytes)) % 0xffff != 0 && InternetChecksum(bytes, 0xffff_0001) != 0xffff - Fold(0xffff_0001 + WordSum(bytes))
  {
    var bytes: seq<U8> := [0xff, 0xff];
    assert bytes[..0] == [];
    assert WordSum(bytes) == 0xffff;
  }

  /** Every byte counts with its place in its word: 256 times in the even places, once in the odd ones. */
  lemma {:induction false} ByteCounts(bytes: seq<U8>, i: nat, b: U8)
    requires i < |bytes|
    ensures WordSum(bytes[i := b]) == WordSum(bytes) + (b as int - bytes[i] as int) * (if i % 2 == 0 then 256 else 1)
  {
    var n := |bytes|;
    var last := if n % 2 == 1 then n - 1 else n - 2;
    var changed := bytes[i := b];
    if i < last {
      ByteCounts(bytes[..last], i, b);
      assert changed[..last] == bytes[..last][i := b];
    } else {
      assert changed[..last] == bytes[..last];
    }
  }

  lemma {:induction false} ZeroBytes(bytes: seq<U8>)
    requires forall i :: 0 <= i < |bytes| ==> bytes[i] == 0
    ensures WordSum(bytes) == 0
  {
    var n := |bytes|;
    if n > 0 { ZeroBytes(bytes[..if n % 2 == 1 then n - 1 else n - 2]); }
  }

  /** The eight bytes of the example in section 3 of RFC 1071, whose words sum to ddf2 with the carries added. */
  lemma Example()
    ensures InternetChecksum([0x00, 0x01, 0xf2, 0x03, 0xf4, 0xf5, 0xf6, 0xf7], 0) == 0x220d
  {
    hide WordSum, Fold;
    var one: seq<U8> := [0x00, 0x01];
    var two: seq<U8> := [0x00, 0x01, 0xf2, 0x03];
    var three: seq<U8> := [0x00, 0x01, 0xf2, 0x03, 0xf4, 0xf5];
    var four: seq<U8> := [0x00, 0x01, 0xf2, 0x03, 0xf4, 0xf5, 0xf6, 0xf7];
    NoWords(0);
    LastWord([], 0x00, 0x01, one);
    LastWord(one, 0xf2, 0x03, two);
    LastWord(two, 0xf4, 0xf5, three);
    LastWord(three, 0xf6, 0xf7, four);
    FoldOnce(0x2_ddf0);
    FoldOnce(0xddf2);
  }

  lemma LastWord(front: seq<U8>, a: U8, b: U8, bytes: seq<U8>)
    requires |front| % 2 == 0 && bytes == front + [a, b]
    ensures WordSum(bytes) == WordSum(front) + 256 * (a as int) + b
  {
    hide WordSum;
    OneMoreWord(bytes, |front|);
    assert bytes[..|front|] == front && bytes[..|front| + 2] == bytes;
  }
}
