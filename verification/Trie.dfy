/**
 * The binary trie of the index: a growing array of nodes with integer child
 * links, described by the list of the bit paths its nodes stand for.
 */
module Trie {
  type Path = seq<bool>

  datatype TrieNode = TrieNode(zero: int, one: int, records: seq<nat>) {
    function Child(branch: bool): int { if branch then one else zero }

    function WithChild(branch: bool, node: int): TrieNode {
      if branch then this.(one := node) else this.(zero := node)
    }
  }

  const EMPTY_NODE := TrieNode(-1, -1, [])

  predicate Linked(t: seq<TrieNode>) {
    t != [] && forall i :: 0 <= i < |t| ==> t[i].zero < |t| && t[i].one < |t|
  }

  /** Node reached from `node` along `path`, or -1. */
  function Walk(t: seq<TrieNode>, node: nat, path: Path): (n: int)
    requires Linked(t) && node < |t|
    ensures n < |t|
    decreases |path|
  {
    if path == [] then node
    else
      var c := t[node].Child(path[0]);
      if c < 0 then -1 else Walk(t, c, path[1..])
  }

  function RecordsAt(t: seq<TrieNode>, path: Path): seq<nat>
    requires Linked(t)
  {
    var n := Walk(t, 0, path);
    if n < 0 then [] else t[n].records
  }

  /** Links a new node below `node`. */
  function Grow(t: seq<TrieNode>, node: nat, branch: bool): (r: seq<TrieNode>)
    requires Linked(t) && node < |t|
    ensures Linked(r) && |r| == |t| + 1
  {
    t[node := t[node].WithChild(branch, |t|)] + [EMPTY_NODE]
  }

  /** Follows `path` down from `node`, making the missing nodes, and files `slot` at its end. */
  function Insert(t: seq<TrieNode>, node: nat, path: Path, slot: nat): (r: seq<TrieNode>)
    requires Linked(t) && node < |t|
    ensures Linked(r) && |r| >= |t|
    decreases |path|
  {
    if path == [] then t[node := t[node].(records := t[node].records + [slot])]
    else
      var c := t[node].Child(path[0]);
      if c < 0 then Insert(Grow(t, node, path[0]), |t|, path[1..], slot)
      else Insert(t, c, path[1..], slot)
  }

  /** Records met on the way down, root first; the walk stops at the first missing link. */
  function Collect(t: seq<TrieNode>, node: nat, path: Path): seq<nat>
    requires Linked(t) && node < |t|
    decreases |path|
  {
    t[node].records +
    (if path == [] then [] else
       var c := t[node].Child(path[0]);
       if c < 0 then [] else Collect(t, c, path[1..]))
  }

  /** What a descent from `node` still has to collect. */
  function Below(t: seq<TrieNode>, node: nat, path: Path): seq<nat>
    requires Linked(t) && node < |t|
  {
    if path == [] then [] else
      var c := t[node].Child(path[0]);
      if c < 0 then [] else Collect(t, c, path[1..])
  }

  lemma BelowStep(t: seq<TrieNode>, node: nat, bits: Path, k: nat)
    requires Linked(t) && node < |t| && k <= |bits|
    ensures Collect(t, node, bits[k..]) == t[node].records + Below(t, node, bits[k..])
    ensures k == |bits| ==> Below(t, node, bits[k..]) == []
    ensures k < |bits| ==>
              var c := t[node].Child(bits[k]);
              Below(t, node, bits[k..]) == if c < 0 then [] else t[c].records + Below(t, c, bits[k + 1..])
  {
    if k < |bits| { assert bits[k..][1..] == bits[k + 1..]; }
  }

  // ---- what the node array stands for ----

  ghost predicate Distinct<T>(s: seq<T>) { forall i, j :: 0 <= i < j < |s| ==> s[i] != s[j] }

  /** Node `i` stands for `paths[i]`: links go to later nodes, one bit further; a missing link means a missing path. */
  ghost predicate NodeOk(t: seq<TrieNode>, paths: seq<Path>, i: nat, b: bool)
    requires i < |t| == |paths|
  {
    var c := t[i].Child(b);
    if c < 0 then c == -1 && paths[i] + [b] !in paths
    else i < c < |t| && paths[c] == paths[i] + [b]
  }

  ghost predicate PrefixClosed(paths: seq<Path>) {
    forall i :: 0 <= i < |paths| && paths[i] != [] ==> paths[i][..|paths[i]| - 1] in paths
  }

  ghost predicate Represents(t: seq<TrieNode>, paths: seq<Path>) {
    && |t| == |paths| > 0
    && paths[0] == []
    && Distinct(paths)
    && PrefixClosed(paths)
    && forall i, b :: 0 <= i < |t| ==> NodeOk(t, paths, i, b)
  }

  lemma {:induction false} ClosedUnderPrefixes(paths: seq<Path>, p: Path, k: nat)
    requires PrefixClosed(paths) && p in paths && k <= |p|
    ensures p[..k] in paths
    decreases |p|
  {
    if k == |p| {
      assert p[..k] == p;
    } else {
      var q := p[..|p| - 1];
      assert q in paths;
      ClosedUnderPrefixes(paths, q, k);
      assert q[..k] == p[..k];
    }
  }

  lemma ChildStands(t: seq<TrieNode>, paths: seq<Path>, node: nat, b: bool)
    requires Represents(t, paths) && node < |t|
    ensures |t| == |paths| && paths[0] == [] && PrefixClosed(paths)
    ensures var c := t[node].Child(b);
            if c < 0 then paths[node] + [b] !in paths else c < |t| && paths[c] == paths[node] + [b]
  {
    assert NodeOk(t, paths, node, b);
  }

  /** Walking finds the node that stands for the path, and finds none exactly when none does. */
  lemma {:induction false} WalkFinds(t: seq<TrieNode>, paths: seq<Path>, node: nat, rest: Path)
    requires Represents(t, paths) && Linked(t) && node < |t|
    ensures var n := Walk(t, node, rest);
            if n < 0 then paths[node] + rest !in paths else n < |paths| && paths[n] == paths[node] + rest
    decreases |rest|
  {
    hide Represents, PrefixClosed;
    ChildStands(t, paths, node, true);
    var full := paths[node] + rest;
    if rest == [] {
      assert full == paths[node];
    } else {
      var step := paths[node] + [rest[0]];
      ChildStands(t, paths, node, rest[0]);
      var c := t[node].Child(rest[0]);
      assert full == step + rest[1..];
      if c < 0 {
        assert full[..|step|] == step;
        if full in paths { ClosedUnderPrefixes(paths, full, |step|); }
      } else {
        WalkFinds(t, paths, c, rest[1..]);
      }
    }
  }

  /** Every node is reached by exactly one path. */
  lemma OnePathPerNode(t: seq<TrieNode>, paths: seq<Path>, i: nat, path: Path)
    requires Represents(t, paths) && Linked(t) && i < |t|
    ensures Walk(t, 0, path) == i <==> path == paths[i]
  {
    WalkFinds(t, paths, 0, path);
    assert paths[0] + path == path;
  }

  /** The paths after filing one more: the missing ones among `done + rest[..k]`, shortest first. */
  ghost function AddPaths(paths: seq<Path>, done: Path, rest: Path): (r: seq<Path>)
    ensures paths <= r && |r| <= |paths| + |rest|
    decreases |rest|
  {
    if rest == [] then paths
    else
      var next := done + [rest[0]];
      AddPaths(if next in paths then paths else paths + [next], next, rest[1..])
  }

  lemma {:induction false} AddPathsMembers(paths: seq<Path>, done: Path, rest: Path, p: Path)
    ensures p in AddPaths(paths, done, rest) <==> p in paths || exists k :: 0 < k <= |rest| && p == done + rest[..k]
    decreases |rest|
  {
    if rest != [] {
      var next := done + [rest[0]];
      var paths' := if next in paths then paths else paths + [next];
      AddPathsMembers(paths', next, rest[1..], p);
      LongerPrefix(done, rest, p);
      hide AddPaths;
      assert p in paths' <==> p in paths || p == next;
    }
  }

  /** A proper extension of `done` along `rest` is one step, or goes on from there. */
  lemma LongerPrefix(done: Path, rest: Path, p: Path)
    requires rest != []
    ensures (exists k :: 0 < k <= |rest| && p == done + rest[..k]) <==>
            p == done + [rest[0]] || exists k :: 0 < k <= |rest[1..]| && p == (done + [rest[0]]) + rest[1..][..k]
  {
    assert done + rest[..1] == done + [rest[0]];
    forall k | 0 < k <= |rest[1..]| ensures (done + [rest[0]]) + rest[1..][..k] == done + rest[..k + 1] {
      assert rest[..k + 1] == [rest[0]] + rest[1..][..k];
    }
    if k :| 0 < k <= |rest[1..]| && p == (done + [rest[0]]) + rest[1..][..k] { assert p == done + rest[..k + 1]; }
    if k :| 0 < k <= |rest| && p == done + rest[..k] {
      if k > 1 { assert p == (done + [rest[0]]) + rest[1..][..k - 1]; }
    }
  }

  lemma GrowClosed(paths: seq<Path>, node: nat, branch: bool)
    requires node < |paths| && PrefixClosed(paths)
    ensures PrefixClosed(paths + [paths[node] + [branch]])
  {
    var next := paths[node] + [branch];
    var paths' := paths + [next];
    assert next[..|next| - 1] == paths[node];
    forall i | 0 <= i < |paths'| && paths'[i] != [] ensures paths'[i][..|paths'[i]| - 1] in paths' {
      if i < |paths| { assert paths[i][..|paths[i]| - 1] in paths; }
    }
  }

  lemma GrowNode(t: seq<TrieNode>, paths: seq<Path>, node: nat, branch: bool, i: nat, b: bool)
    requires |t| == |paths| && Linked(t) && node < |t| && t[node].Child(branch) < 0
    requires PrefixClosed(paths) && Distinct(paths) && paths[node] + [branch] !in paths
    requires i <= |t| && (i < |t| ==> NodeOk(t, paths, i, b))
    ensures NodeOk(Grow(t, node, branch), paths + [paths[node] + [branch]], i, b)
  {
    var next := paths[node] + [branch];
    if i == |t| {
      NoChildYet(paths, next, b);
    } else if paths[i] + [b] == next {
      AppendInjective(paths[i], b, paths[node], branch);
    }
  }

  lemma GrowRepresents(t: seq<TrieNode>, paths: seq<Path>, node: nat, branch: bool)
    requires Represents(t, paths) && Linked(t) && node < |t| && t[node].Child(branch) < 0
    ensures Represents(Grow(t, node, branch), paths + [paths[node] + [branch]])
  {
    hide PrefixClosed, Linked;
    var next := paths[node] + [branch];
    var t', paths' := Grow(t, node, branch), paths + [next];
    assert NodeOk(t, paths, node, branch);
    assert next !in paths;
    GrowClosed(paths, node, branch);
    forall i, b | 0 <= i < |t'| ensures NodeOk(t', paths', i, b) {
      assert i < |t| ==> NodeOk(t, paths, i, b);
      GrowNode(t, paths, node, branch, i, b);
    }
  }

  lemma AppendInjective(p: Path, b: bool, q: Path, c: bool)
    requires p + [b] == q + [c]
    ensures p == q && b == c
  {
    assert p == (p + [b])[..|p|] && q == (q + [c])[..|q|];
    assert (p + [b])[|p|] == b && (q + [c])[|q|] == c;
  }

  lemma NoChildYet(paths: seq<Path>, next: Path, b: bool)
    requires PrefixClosed(paths) && next !in paths
    ensures next + [b] !in paths + [next]
  {
    assert (next + [b])[..|next|] == next;
    if next + [b] in paths { ClosedUnderPrefixes(paths, next + [b], |next|); }
    assert |next + [b]| != |next|;
  }

  /** What filing `slot` under the path `full` does to the node array. */
  ghost predicate Filed(t: seq<TrieNode>, t': seq<TrieNode>, paths': seq<Path>, full: Path, slot: nat) {
    && |t| <= |t'| == |paths'|
    && forall i :: 0 <= i < |t'| ==>
         t'[i].records == (if i < |t| then t[i].records else []) + (if paths'[i] == full then [slot] else [])
  }

  lemma FileHere(t: seq<TrieNode>, paths: seq<Path>, node: nat, slot: nat)
    requires Represents(t, paths) && Linked(t) && node < |t|
    ensures Represents(Insert(t, node, [], slot), paths)
    ensures Filed(t, Insert(t, node, [], slot), paths, paths[node], slot)
  {
    var t' := Insert(t, node, [], slot);
    forall i, b | 0 <= i < |t'| ensures NodeOk(t', paths, i, b) { assert NodeOk(t, paths, i, b); }
  }

  /** Filing a slot adds the missing prefixes as nodes and touches the records of one path only. */
  lemma {:induction false} InsertRepresents(t: seq<TrieNode>, paths: seq<Path>, node: nat, rest: Path, slot: nat)
    requires Represents(t, paths) && Linked(t) && node < |t|
    ensures Represents(Insert(t, node, rest, slot), AddPaths(paths, paths[node], rest))
    ensures Filed(t, Insert(t, node, rest, slot), AddPaths(paths, paths[node], rest), paths[node] + rest, slot)
    decreases |rest|
  {
    assert |t| == |paths|;
    if rest == [] {
      assert paths[node] + rest == paths[node];
      FileHere(t, paths, node, slot);
    } else {
      var next := paths[node] + [rest[0]];
      assert next + rest[1..] == paths[node] + rest;
      assert NodeOk(t, paths, node, rest[0]);
      var c := t[node].Child(rest[0]);
      if c < 0 {
        assert next !in paths;
        GrowRepresents(t, paths, node, rest[0]);
        var t1, paths1 := Grow(t, node, rest[0]), paths + [next];
        InsertRepresents(t1, paths1, |t|, rest[1..], slot);
        GrowKeepsRecords(t, node, rest[0]);
        FiledAfterGrow(t, t1, Insert(t1, |t|, rest[1..], slot), AddPaths(paths1, next, rest[1..]), paths[node] + rest, slot);
      } else {
        assert paths[c] == next && next in paths;
        InsertRepresents(t, paths, c, rest[1..], slot);
      }
    }
  }

  lemma GrowKeepsRecords(t: seq<TrieNode>, node: nat, branch: bool)
    requires Linked(t) && node < |t|
    ensures var r := Grow(t, node, branch);
            r[|t|].records == [] && forall i :: 0 <= i < |t| ==> r[i].records == t[i].records
  {}

  lemma FiledAfterGrow(t: seq<TrieNode>, t1: seq<TrieNode>, t': seq<TrieNode>, paths': seq<Path>, full: Path, slot: nat)
    requires |t1| == |t| + 1 && t1[|t|].records == [] && forall i :: 0 <= i < |t| ==> t1[i].records == t[i].records
    requires Filed(t1, t', paths', full, slot)
    ensures Filed(t, t', paths', full, slot)
  {}

  lemma RecordsAtNode(t: seq<TrieNode>, paths: seq<Path>, i: nat)
    requires Represents(t, paths) && Linked(t) && i < |t|
    ensures RecordsAt(t, paths[i]) == t[i].records
  {
    WalkFinds(t, paths, 0, paths[i]);
    assert paths[0] + paths[i] == paths[i];
  }

  lemma RecordsAtMissing(t: seq<TrieNode>, paths: seq<Path>, q: Path)
    requires Represents(t, paths) && Linked(t) && q !in paths
    ensures RecordsAt(t, q) == []
  {
    WalkFinds(t, paths, 0, q);
    assert paths[0] + q == q;
  }

  /** Seen through lookups by path: one bucket gains the slot, no other changes. */
  lemma InsertFiles(t: seq<TrieNode>, paths: seq<Path>, path: Path, slot: nat, q: Path)
    requires Represents(t, paths) && Linked(t)
    ensures RecordsAt(Insert(t, 0, path, slot), q) == RecordsAt(t, q) + (if q == path then [slot] else [])
  {
    hide Insert, AddPaths, RecordsAt, NodeOk;
    InsertRepresents(t, paths, 0, path, slot);
    assert paths[0] + path == path;
    var t', paths' := Insert(t, 0, path, slot), AddPaths(paths, paths[0], path);
    if q in paths' {
      var i :| 0 <= i < |paths'| && paths'[i] == q;
      RecordsAtNode(t', paths', i);
      if i < |t| {
        assert paths[i] == q;
        RecordsAtNode(t, paths, i);
      } else {
        assert forall j :: 0 <= j < |paths| ==> paths[j] == paths'[j] != q;
        RecordsAtMissing(t, paths, q);
      }
    } else {
      assert q in paths ==> q in paths';
      PathIsFiled(paths, path);
      RecordsAtMissing(t, paths, q);
      RecordsAtMissing(t', paths', q);
    }
  }

  lemma PathIsFiled(paths: seq<Path>, path: Path)
    requires paths != [] && paths[0] == []
    ensures path in AddPaths(paths, [], path)
  {
    AddPathsMembers(paths, [], path, path);
    if path != [] { assert path == [] + path[..|path|]; }
  }

  /** The records along a whole address, one bucket for each prefix length. */
  function BucketsFrom(t: seq<TrieNode>, bits: Path, k: nat): seq<nat>
    requires Linked(t) && k <= |bits| + 1
    decreases |bits| + 1 - k
  {
    if k > |bits| then [] else RecordsAt(t, bits[..k]) + BucketsFrom(t, bits, k + 1)
  }

  lemma {:induction false} CollectIsBuckets(t: seq<TrieNode>, paths: seq<Path>, node: nat, bits: Path, k: nat)
    requires Represents(t, paths) && Linked(t) && node < |t| && k <= |bits| && paths[node] == bits[..k]
    ensures Collect(t, node, bits[k..]) == BucketsFrom(t, bits, k)
    decreases |bits| - k
  {
    hide Represents, PrefixClosed, Walk, RecordsAt, Linked;
    RecordsAtNode(t, paths, node);
    if k < |bits| {
      ChildStands(t, paths, node, bits[k]);
      assert bits[..k + 1] == bits[..k] + [bits[k]];
      assert bits[k..][1..] == bits[k + 1..];
      var c := t[node].Child(bits[k]);
      if c < 0 {
        NothingBelow(t, paths, bits, k + 1);
      } else {
        CollectIsBuckets(t, paths, c, bits, k + 1);
      }
    }
  }

  lemma {:induction false} NothingBelow(t: seq<TrieNode>, paths: seq<Path>, bits: Path, k: nat)
    requires Represents(t, paths) && Linked(t) && k <= |bits| + 1
    requires k <= |bits| ==> bits[..k] !in paths
    ensures BucketsFrom(t, bits, k) == []
    decreases |bits| + 1 - k
  {
    if k <= |bits| {
      WalkFinds(t, paths, 0, bits[..k]);
      assert paths[0] + bits[..k] == bits[..k];
      if k < |bits| {
        assert bits[..k + 1][..k] == bits[..k];
        if bits[..k + 1] in paths { ClosedUnderPrefixes(paths, bits[..k + 1], k); }
      }
      NothingBelow(t, paths, bits, k + 1);
    }
  }

  lemma {:induction false} DistinctCount<T>(s: seq<T>)
    requires Distinct(s)
    ensures |(set x | x in s)| == |s|
  {
    if s != [] {
      var init, last := s[..|s| - 1], s[|s| - 1];
      DistinctCount(init);
      assert s == init + [last];
      assert (set x | x in s) == (set x | x in init) + {last};
      assert last !in init;
    }
  }
}
