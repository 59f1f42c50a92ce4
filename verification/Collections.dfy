/** Facts about sequences, multisets and maps of lists that several modules use. */
module Collections {
  lemma ConcatAssoc<T>(a: seq<T>, b: seq<T>, c: seq<T>)
    ensures a + (b + c) == (a + b) + c
    ensures b == [] ==> a + b == a
  {}

  lemma SliceOfSlice<T>(s: seq<T>, a: nat, n: nat, b: nat, m: nat)
    requires a + n <= |s| && b + m <= n
    ensures s[a..a + n][b..b + m] == s[a + b..a + b + m]
  {
    var outer := s[a..a + n];
    var x, y := outer[b..b + m], s[a + b..a + b + m];
    assert |x| == |y|;
    forall i | 0 <= i < m ensures x[i] == y[i] { assert x[i] == outer[b + i] == s[a + (b + i)]; }
    assert x == y;
  }

  lemma MultisetSnoc<T>(s: seq<T>, x: T)
    ensures multiset(s + [x]) == multiset(s) + multiset{x}
  {}

  lemma MultisetConcat<T>(s: seq<T>, t: seq<T>)
    ensures multiset(s + t) == multiset(s) + multiset(t)
  {}

  /** Appends to the list under a key, as the source's `map[key].push_back` does. */
  function Push<K>(m: map<K, seq<nat>>, key: K, x: nat): map<K, seq<nat>> {
    m[key := (if key in m then m[key] else []) + [x]]
  }

  /** The marked elements, in order. */
  function Selected<T>(s: seq<T>, marks: seq<bool>): seq<T>
    requires |marks| == |s|
  {
    if s == [] then [] else
      Selected(s[..|s| - 1], marks[..|s| - 1]) + (if marks[|s| - 1] then [s[|s| - 1]] else [])
  }

  lemma SelectedMore<T>(s: seq<T>, marks: seq<bool>, x: T, mark: bool)
    requires |marks| == |s|
    ensures Selected(s + [x], marks + [mark]) == Selected(s, marks) + (if mark then [x] else [])
  {
    assert (s + [x])[..|s|] == s && (marks + [mark])[..|s|] == marks;
  }

  lemma NothingSelected<T>()
    ensures Selected<T>([], []) == []
  {}
}
