/** `merge_ranges`: sort the ranges, keep those that no kept range covers. */
module MergeRanges {
  import opened Ipv4

  predicate Before(a: CidrRange, b: CidrRange) {
    if a.network != b.network then a.network < b.network else a.prefix < b.prefix
  }

  /** The test of the merge loop. */
  predicate Covers(a: CidrRange, b: CidrRange) { a.prefix <= b.prefix && Contains(a, b.network) }

  ghost predicate Sorted(rs: seq<CidrRange>) { forall i, j :: 0 <= i < j < |rs| ==> !Before(rs[j], rs[i]) }

  ghost predicate StrictlySorted(rs: seq<CidrRange>) { forall i, j :: 0 <= i < j < |rs| ==> Before(rs[i], rs[j]) }

  ghost predicate InSome(rs: seq<CidrRange>, ip: U32) { exists r :: r in rs && Contains(r, ip) }

  ghost predicate SameAddresses(xs: seq<CidrRange>, ys: seq<CidrRange>) {
    forall ip: U32 :: InSome(xs, ip) <==> InSome(ys, ip)
  }

  ghost predicate Disjoint(rs: seq<CidrRange>) {
    forall i, j, ip: U32 :: 0 <= i < j < |rs| && Contains(rs[i], ip) ==> !Contains(rs[j], ip)
  }

  ghost predicate Networks(rs: seq<CidrRange>) { forall r :: r in rs ==> IsNetwork(r) }

  /** No given range that sorts before `r` covers it. */
  ghost predicate Leading(xs: seq<CidrRange>, r: CidrRange) {
    r in xs && forall c :: c in xs && Covers(c, r) ==> !Before(c, r)
  }

  /** The sorted list of the leading ranges of `xs`, each once. */
  ghost predicate IsMerged(xs: seq<CidrRange>, out: seq<CidrRange>) {
    StrictlySorted(out) && forall r :: r in out <==> Leading(xs, r)
  }

  ghost predicate Maximal(xs: seq<CidrRange>, r: CidrRange) {
    r in xs && forall a :: a in xs && Covers(a, r) ==> a == r
  }

  /** Whenever a range covers one that sorts before it, something that sorts no later than the covered one covers both. */
  ghost predicate CoveredEarly(xs: seq<CidrRange>) {
    forall a, b :: a in xs && b in xs && Before(a, b) && Covers(b, a) ==> exists c :: c in xs && Covers(c, b) && !Before(a, c)
  }

  function Insert(x: CidrRange, rs: seq<CidrRange>): (out: seq<CidrRange>)
    requires Sorted(rs)
    ensures Sorted(out) && multiset(out) == multiset(rs) + multiset{x}
    ensures forall r :: r in out <==> r == x || r in rs
  {
    if rs == [] || !Before(rs[0], x) then
      [x] + rs
    else
      var rest := Insert(x, rs[1..]);
      assert rs == [rs[0]] + rs[1..];
      assert forall r :: r in rest ==> !Before(r, rs[0]);
      [rs[0]] + rest
  }

  /** Stands for the library sort; the merged list does not depend on how ties are placed (MergedIsUnique). */
  function SortRanges(rs: seq<CidrRange>): (out: seq<CidrRange>)
    ensures Sorted(out) && multiset(out) == multiset(rs)
    ensures forall r :: r in out <==> r in rs
  {
    if rs == [] then []
    else
      assert rs == [rs[0]] + rs[1..];
      Insert(rs[0], SortRanges(rs[1..]))
  }

  /**
   * The merged list holds, in order and each once, the ranges that nothing
   * sorting before them covers. It covers the addresses of the input, and is
   * disjoint exactly when the input covers early; networks do, and for them
   * the ranges kept are the maximal ones.
   */
  method Merge(ranges: seq<CidrRange>) returns (out: seq<CidrRange>)
    ensures IsMerged(ranges, out)
    ensures SameAddresses(ranges, out)
    ensures Disjoint(out) <==> CoveredEarly(ranges)
    ensures Networks(ranges) ==> Disjoint(out) && forall r :: r in out <==> Maximal(ranges, r)
    ensures forall i, j :: 0 <= i < j < |out| ==>
              out[i].network < out[j].network || (out[i].network == out[j].network && out[i].prefix < out[j].prefix)
  {
    hide *;
    var sorted := SortRanges(ranges);
    out := [];
    assert sorted[..0] == [];
    MergedNothing();
    for i := 0 to |sorted|
      invariant IsMerged(sorted[..i], out)
    {
      var r := sorted[i];
      var covered := false;
      for e := 0 to |out|
        invariant covered ==> exists a :: a in out && Covers(a, r)
        invariant !covered ==> forall j :: 0 <= j < e ==> !Covers(out[j], r)
      {
        if Covers(out[e], r) { covered := true; assert out[e] in out; break; }
      }
      assert sorted[..i + 1] == sorted[..i] + [r];
      SortedFront(sorted, i);
      if covered { CoveredStep(sorted[..i], out, r); } else { UncoveredStep(sorted[..i], out, r); }
      out := if covered then out else out + [r];
    }
    assert sorted[..|sorted|] == sorted;
    SameMembersMerge(sorted, ranges, out);
    MergedCoversSame(ranges, out);
    MergedDisjointIff(ranges, out);
    MergedRises(ranges, out);
    if Networks(ranges) {
      NetworksCoverEarly(ranges);
      forall r ensures r in out <==> Maximal(ranges, r) { LeadingIffMaximal(ranges, r); MergedMember(ranges, out, r); }
    }
  }

  lemma MergedRises(xs: seq<CidrRange>, out: seq<CidrRange>)
    requires IsMerged(xs, out)
    ensures forall i, j :: 0 <= i < j < |out| ==>
              out[i].network < out[j].network || (out[i].network == out[j].network && out[i].prefix < out[j].prefix)
  {}

  lemma MergedMember(xs: seq<CidrRange>, out: seq<CidrRange>, r: CidrRange)
    requires IsMerged(xs, out)
    ensures r in out <==> Leading(xs, r)
  {}

  lemma MergedNothing()
    ensures IsMerged([], [])
  {}

  lemma SortedFront(sorted: seq<CidrRange>, i: nat)
    requires Sorted(sorted) && i < |sorted|
    ensures forall x :: x in sorted[..i] ==> !Before(sorted[i], x)
  {
    hide Before;
  }

  lemma SameMembersMerge(xs: seq<CidrRange>, ys: seq<CidrRange>, out: seq<CidrRange>)
    requires IsMerged(xs, out) && forall r :: r in xs <==> r in ys
    ensures IsMerged(ys, out)
  {
    hide Covers, Before;
    forall r ensures Leading(xs, r) <==> Leading(ys, r) {}
  }

  /** A covered range that sorts last changes nothing. */
  lemma CoveredStep(done: seq<CidrRange>, out: seq<CidrRange>, r: CidrRange)
    requires IsMerged(done, out) && forall x :: x in done ==> !Before(r, x)
    requires exists a :: a in out && Covers(a, r)
    ensures IsMerged(done + [r], out)
  {
    hide Covers;
    var a :| a in out && Covers(a, r);
    assert Leading(done, a);
    forall x ensures Leading(done + [r], x) <==> Leading(done, x) {
      if x == r && Leading(done + [r], r) { assert a in done + [r]; }
    }
  }

  /** An uncovered one leads, behind the others. */
  lemma UncoveredStep(done: seq<CidrRange>, out: seq<CidrRange>, r: CidrRange)
    requires IsMerged(done, out) && forall x :: x in done ==> !Before(r, x)
    requires forall j :: 0 <= j < |out| ==> !Covers(out[j], r)
    ensures IsMerged(done + [r], out + [r])
  {
    hide Covers;
    assert forall a :: a in out ==> !Covers(a, r);
    forall c | c in done ensures !Covers(c, r) {
      var k := LeadingCover(done, c);
      assert k in out;
      if Covers(c, r) { CoversTransitive(k, c, r); }
    }
    CoversItself(r);
    assert r !in done;
    forall x ensures Leading(done + [r], x) <==> Leading(done, x) || x == r {}
    forall j | 0 <= j < |out| ensures Before(out[j], r) { assert out[j] in out && Leading(done, out[j]); }
  }

  /** Every range is covered by a leading one that sorts no later. */
  lemma {:induction false} LeadingCover(xs: seq<CidrRange>, r: CidrRange) returns (k: CidrRange)
    requires r in xs
    ensures Leading(xs, k) && Covers(k, r) && !Before(r, k)
    decreases r.network, r.prefix
  {
    hide Covers;
    CoversItself(r);
    if Leading(xs, r) {
      k := r;
    } else {
      var c :| c in xs && Covers(c, r) && Before(c, r);
      k := LeadingCover(xs, c);
      CoversTransitive(k, c, r);
    }
  }

  /** The merged ranges cover the addresses of the given ones, whatever these are. */
  lemma MergedCoversSame(xs: seq<CidrRange>, out: seq<CidrRange>)
    requires IsMerged(xs, out)
    ensures SameAddresses(xs, out)
  {
    hide Contains, Covers, Before;
    forall ip: U32 ensures InSome(xs, ip) <==> InSome(out, ip) {
      if InSome(xs, ip) {
        var r :| r in xs && Contains(r, ip);
        var k := LeadingCover(xs, r);
        CoveredIsSubset(k, r, ip);
        assert k in out;
      }
      if InSome(out, ip) {
        var r :| r in out && Contains(r, ip);
        assert Leading(xs, r);
      }
    }
  }

  lemma CoversItself(r: CidrRange)
    ensures Covers(r, r)
  {}

  lemma ClampPrefix(r: CidrRange, ip: U32)
    ensures Contains(r, ip) == Contains(r.(prefix := if r.prefix > 32 then 32 else r.prefix), ip)
  {}

  /** What the coverage test promises, for any two ranges. */
  lemma CoveredIsSubset(a: CidrRange, b: CidrRange, ip: U32)
    requires Covers(a, b) && Contains(b, ip)
    ensures Contains(a, ip)
  {
    ClampPrefix(a, ip); ClampPrefix(b, ip); ClampPrefix(a, b.network);
    var a', b' := a.(prefix := if a.prefix > 32 then 32 else a.prefix), b.(prefix := if b.prefix > 32 then 32 else b.prefix);
    ContainsIsPrefixMatch(a', ip);
    ContainsIsPrefixMatch(a', b.network);
    ContainsIsPrefixMatch(b', ip);
    var p := a'.prefix;
    assert Bits(ip)[..b'.prefix][..p] == Bits(ip)[..p];
    assert Bits(b.network)[..b'.prefix][..p] == Bits(b.network)[..p];
  }

  /** Of two ranges that share an address, the one that fixes no more bits covers the other. */
  lemma Laminar(a: CidrRange, b: CidrRange, ip: U32)
    requires a.prefix <= b.prefix && Contains(a, ip) && Contains(b, ip)
    ensures Covers(a, b)
  {
    ClampPrefix(a, ip); ClampPrefix(b, ip); ClampPrefix(a, b.network);
    var a', b' := a.(prefix := if a.prefix > 32 then 32 else a.prefix), b.(prefix := if b.prefix > 32 then 32 else b.prefix);
    ContainsIsPrefixMatch(a', ip);
    ContainsIsPrefixMatch(b', ip);
    ContainsIsPrefixMatch(a', b.network);
    var p := a'.prefix;
    assert Bits(ip)[..b'.prefix][..p] == Bits(ip)[..p];
    assert Bits(b.network)[..b'.prefix][..p] == Bits(b.network)[..p];
  }

  /** A covering network never sorts after what it covers, and mutual cover is equality. */
  lemma CoverSortsFirst(a: CidrRange, b: CidrRange)
    requires IsNetwork(a) && IsNetwork(b) && Covers(a, b)
    ensures !Before(b, a) && (Covers(b, a) ==> a == b)
  {
    MaskKeepsLeadingBits(b.network, a.prefix);
    if a.prefix == b.prefix {
      assert a.network == b.network;
    }
  }

  lemma CoversTransitive(a: CidrRange, b: CidrRange, c: CidrRange)
    requires Covers(a, b) && Covers(b, c)
    ensures Covers(a, c)
  {
    CoveredIsSubset(a, b, c.network);
  }

  /** The merged ranges are disjoint exactly when the given ones are covered early. */
  lemma MergedDisjointIff(xs: seq<CidrRange>, out: seq<CidrRange>)
    requires IsMerged(xs, out)
    ensures Disjoint(out) <==> CoveredEarly(xs)
  {
    hide Contains, Covers, Before;
    if CoveredEarly(xs) {
      forall i, j, ip: U32 | 0 <= i < j < |out| && Contains(out[i], ip) ensures !Contains(out[j], ip) {
        assert out[i] in out && out[j] in out;
        assert Leading(xs, out[i]) && Leading(xs, out[j]) && Before(out[i], out[j]);
        if Contains(out[j], ip) { SharedIsLate(xs, out[i], out[j], ip); }
      }
    } else {
      var a, b :| a in xs && b in xs && Before(a, b) && Covers(b, a) && !exists c :: c in xs && Covers(c, b) && !Before(a, c);
      var k := LeadingCover(xs, a);
      var l := LeadingCover(xs, b);
      CoversTransitive(l, b, a);
      assert Before(a, l) by { assert l in xs; }
      OrderedApart(k, a, l);
      ContainsCovered(k, a);
      ContainsCovered(l, a);
      var i :| 0 <= i < |out| && out[i] == k;
      var j :| 0 <= j < |out| && out[j] == l;
      assert Contains(out[i], a.network) && Contains(out[j], a.network);
      assert i != j;
    }
  }

  lemma OrderedApart(k: CidrRange, a: CidrRange, l: CidrRange)
    requires !Before(a, k) && Before(a, l)
    ensures k != l
  {}

  lemma ContainsCovered(k: CidrRange, a: CidrRange)
    requires Covers(k, a)
    ensures Contains(k, a.network)
  {
    hide Contains;
  }

  /** Two leading ranges that share an address contradict early covering. */
  lemma SharedIsLate(xs: seq<CidrRange>, a: CidrRange, b: CidrRange, ip: U32)
    requires Leading(xs, a) && Leading(xs, b) && Before(a, b) && Contains(a, ip) && Contains(b, ip)
    ensures !CoveredEarly(xs)
  {
    hide Contains, Covers;
    if a.prefix <= b.prefix {
      Laminar(a, b, ip);
      assert false;
    } else {
      Laminar(b, a, ip);
      forall c | c in xs && Covers(c, b) ensures Before(a, c) {}
    }
  }

  lemma NetworksCoverEarly(xs: seq<CidrRange>)
    requires Networks(xs)
    ensures CoveredEarly(xs)
  {
    hide Covers, Before, IsNetwork;
    forall a, b | a in xs && b in xs && Covers(b, a) ensures !Before(a, b) { CoverSortsFirst(b, a); }
  }

  lemma LeadingIffMaximal(xs: seq<CidrRange>, r: CidrRange)
    requires Networks(xs)
    ensures Leading(xs, r) <==> Maximal(xs, r)
  {
    hide Covers, IsNetwork;
    forall c | r in xs && c in xs && Covers(c, r) ensures !Before(c, r) <==> c == r { CoverSortsFirst(c, r); }
  }

  /** The merged list depends only on which ranges are given, not on their order or number. */
  lemma {:induction false} MergedIsUnique(xs: seq<CidrRange>, ys: seq<CidrRange>, a: seq<CidrRange>, b: seq<CidrRange>)
    requires forall r :: r in xs <==> r in ys
    requires IsMerged(xs, a) && IsMerged(ys, b)
    ensures a == b
  {
    forall r ensures r in a <==> r in b {
      assert Leading(xs, r) <==> Leading(ys, r);
    }
    SortedListsEqual(a, b);
  }

  lemma {:induction false} SortedListsEqual(a: seq<CidrRange>, b: seq<CidrRange>)
    requires StrictlySorted(a) && StrictlySorted(b)
    requires forall r :: r in a <==> r in b
    ensures a == b
  {
    if a == [] || b == [] {
      var r := if a != [] then a[0] else if b != [] then b[0] else CidrRange(0, 0);
      assert r in a <==> r in b;
    } else {
      assert a[0] in b;
      assert b[0] in a;
      assert a[0] == b[0];
      forall r ensures r in a[1..] <==> r in b[1..] {
        if r in a[1..] { assert r in a; }
        if r in b[1..] { assert r in b; }
      }
      SortedListsEqual(a[1..], b[1..]);
    }
  }

  /** Merging a merged list changes nothing. */
  lemma MergeAgain(xs: seq<CidrRange>, out: seq<CidrRange>, again: seq<CidrRange>)
    requires IsMerged(xs, out) && IsMerged(out, again)
    ensures again == out
  {
    hide Covers, Before;
    forall r ensures r in again <==> r in out {
      if r in out {
        assert Leading(xs, r);
        forall a | a in out && Covers(a, r) ensures !Before(a, r) { assert Leading(xs, a); }
      }
    }
    SortedListsEqual(again, out);
  }

  /** Without cleared low bits the merged list can overlap: the wider range sorts last, and both are kept. */
  lemma OverlapWithoutMasking(out: seq<CidrRange>)
    requires IsMerged([CidrRange(0x0ac8_0000, 8), CidrRange(0x0a01_0000, 16)], out)
    ensures out == [CidrRange(0x0a01_0000, 16), CidrRange(0x0ac8_0000, 8)] && !Disjoint(out)
  {
    hide Covers, Contains, StrictlySorted;
    var wide, narrow := CidrRange(0x0ac8_0000, 8), CidrRange(0x0a01_0000, 16);
    var xs := [wide, narrow];
    WideCoversNarrow();
    NothingElse(xs, wide, narrow);
    assert StrictlySorted([narrow, wide]) by { TwoSorted(narrow, wide); }
    forall r ensures r in out <==> r in [narrow, wide] { assert r in out <==> Leading(xs, r); }
    SortedListsEqual(out, [narrow, wide]);
    assert out[0] == narrow && out[1] == wide;
  }

  lemma TwoSorted(a: CidrRange, b: CidrRange)
    requires Before(a, b)
    ensures StrictlySorted([a, b])
  {}

  lemma NothingElse(xs: seq<CidrRange>, wide: CidrRange, narrow: CidrRange)
    requires xs == [wide, narrow] && Before(narrow, wide) && !Covers(narrow, wide)
    ensures forall r :: Leading(xs, r) <==> r in [narrow, wide]
  {
    hide Covers;
  }

  lemma WideCoversNarrow()
    ensures var wide, narrow := CidrRange(0x0ac8_0000, 8), CidrRange(0x0a01_0000, 16);
            Before(narrow, wide) && !Covers(narrow, wide) && Contains(wide, 0x0a01_0203) && Contains(narrow, 0x0a01_0203)
  {
    hide Masked;
    Pow2Facts();
    MaskKeepsLeadingBits(0x0ac8_0000, 8);
    MaskKeepsLeadingBits(0x0a01_0203, 8);
    MaskKeepsLeadingBits(0x0a01_0203, 16);
    MaskKeepsLeadingBits(0x0a01_0000, 16);
  }

  // ---- the covering test is inclusion ----

  /** Flipping the bit behind the leading `p` ones keeps these and leaves the next ones different. */
  lemma FlipBit(n: U32, p: nat) returns (y: U32)
    requires p < 32
    ensures Bits(y)[..p] == Bits(n)[..p] && Bits(y)[..p + 1] != Bits(n)[..p + 1]
  {
    hide Bits, Quotient;
    var m := Pow2(31 - p);
    y := FlippedAt(n, p);
    Halves(Quotient(n, m), Quotient(y, m));
    QuotientsAgree(n, y, p);
  }

  function Quotient(x: nat, m: nat): nat
    requires m > 0
  {
    x / m
  }

  lemma QuotientsAgree(n: U32, y: U32, p: nat)
    requires p < 32
    ensures Bits(y)[..p] == Bits(n)[..p] <==> Quotient(n, Pow2(31 - p)) / 2 == Quotient(y, Pow2(31 - p)) / 2
    ensures Bits(y)[..p + 1] == Bits(n)[..p + 1] <==> Quotient(n, Pow2(31 - p)) == Quotient(y, Pow2(31 - p))
  {
    hide Bits;
    var m := Pow2(31 - p);
    assert Pow2(32 - p) == 2 * m && Pow2(32 - (p + 1)) == m;
    hide Pow2;
    HalveLast(n, m);
    HalveLast(y, m);
    LeadingBitsAgree(n, y, p);
    LeadingBitsAgree(n, y, p + 1);
  }

  lemma PowerSplit(p: nat)
    requires p < 32
    ensures Pow2(p) * (2 * Pow2(31 - p)) == 0x1_0000_0000
  {
    Pow2Facts();
    Pow2Add(p, 32 - p);
  }

  lemma FlippedAt(n: U32, p: nat) returns (y: U32)
    requires p < 32
    ensures var m := Pow2(31 - p);
            Quotient(y, m) == if Quotient(n, m) % 2 == 1 then Quotient(n, m) - 1 else Quotient(n, m) + 1
  {
    hide Pow2, Quotient;
    var m := Pow2(31 - p);
    PowerSplit(p);
    if Quotient(n, m) % 2 == 1 { y := OneLess(n, m); } else { y := OneMore(n, m, Pow2(p)); }
  }

  lemma Halves(q: nat, q': nat)
    requires q' == if q % 2 == 1 then q - 1 else q + 1
    ensures q' / 2 == q / 2 && q' != q
  {}

  lemma OneLess(n: U32, m: nat) returns (y: U32)
    requires m > 0 && Quotient(n, m) % 2 == 1
    ensures Quotient(y, m) == Quotient(n, m) - 1
  {
    MulLe(m, 1, n / m);
    y := n - m;
    QuotientUnique(y, m, n / m - 1, n % m);
  }

  lemma OneMore(n: U32, m: nat, k: nat) returns (y: U32)
    requires m > 0 && Quotient(n, m) % 2 == 0 && k * (2 * m) == 0x1_0000_0000
    ensures Quotient(y, m) == Quotient(n, m) + 1
  {
    HighestQuotient(n, m, n / m, n % m, k);
    y := n + m;
    QuotientUnique(y, m, n / m + 1, n % m);
  }

  lemma HighestQuotient(n: nat, m: nat, q: nat, r: nat, k: nat)
    requires m > 0 && n == m * q + r && r < m && n < k * (2 * m) && q % 2 == 0
    ensures n + m < k * (2 * m)
  {
    var h := q / 2;
    assert m * q == (2 * m) * h;
    if h >= k {
      MulLe(2 * m, k, h);
      assert false;
    }
    MulLe(2 * m, h + 1, k);
  }

  /** One range covers another exactly when it contains all its addresses. */
  lemma CoversIff(a: CidrRange, b: CidrRange)
    requires a.prefix <= 32 && b.prefix <= 32
    ensures Covers(a, b) <==> forall ip: U32 :: Contains(b, ip) ==> Contains(a, ip)
  {
    hide Contains, Bits;
    if Covers(a, b) {
      forall ip: U32 | Contains(b, ip) ensures Contains(a, ip) { CoveredIsSubset(a, b, ip); }
    } else {
      ContainsIsPrefixMatch(b, b.network);
      if a.prefix > b.prefix && Contains(a, b.network) {
        var y := FlipBit(b.network, b.prefix);
        ContainsIsPrefixMatch(b, y);
        ContainsIsPrefixMatch(a, y);
        ContainsIsPrefixMatch(a, b.network);
        var k: nat := b.prefix + 1;
        assert Bits(y)[..a.prefix][..k] == Bits(y)[..k] && Bits(b.network)[..a.prefix][..k] == Bits(b.network)[..k];
      }
    }
  }
}
