/** Circular doubly linked lists over addresses, their links kept in maps. */
module Rings {
  import opened Sequences

  type Links = map<nat, nat>

  ghost predicate Distinct(s: seq<nat>) {
    forall i, j :: 0 <= i < j < |s| ==> s[i] != s[j]
  }

  ghost predicate Linked(nx: Links, pv: Links, a: nat, b: nat) {
    a in nx && b in pv && nx[a] == b && pv[b] == a
  }

  /** The node behind node i, which for the last one is the first. */
  function Following(s: seq<nat>, i: nat): nat
    requires i < |s|
  {
    if i == |s| - 1 then s[0] else s[i + 1]
  }

  /** The nodes of `s` are linked in this order, the last one back to the first. */
  ghost predicate Ring(s: seq<nat>, nx: Links, pv: Links) {
    |s| > 0 && Distinct(s) && forall i :: 0 <= i < |s| ==> Linked(nx, pv, s[i], Following(s, i))
  }

  function InsertAt(s: seq<nat>, i: nat, x: nat): (r: seq<nat>)
    requires i <= |s|
    ensures |r| == |s| + 1
  {
    s[..i] + [x] + s[i..]
  }

  function RemoveAt(s: seq<nat>, i: nat): (r: seq<nat>)
    requires i < |s|
    ensures |r| == |s| - 1
  {
    s[..i] + s[i + 1..]
  }

  lemma InsertAtElements(s: seq<nat>, i: nat, x: nat)
    requires i <= |s|
    ensures |InsertAt(s, i, x)| == |s| + 1 && InsertAt(s, i, x)[i] == x
    ensures forall k :: 0 <= k < i ==> InsertAt(s, i, x)[k] == s[k]
    ensures forall k :: i < k <= |s| ==> InsertAt(s, i, x)[k] == s[k - 1]
    ensures forall y :: y in InsertAt(s, i, x) <==> y in s || y == x
  {
    var r := InsertAt(s, i, x);
    forall y
      ensures y in r <==> y in s || y == x
    {
      if y in s {
        var k :| 0 <= k < |s| && s[k] == y;
        assert r[if k < i then k else k + 1] == y;
      }
      if y == x { assert r[i] == y; }
    }
  }

  lemma RemoveAtElements(s: seq<nat>, i: nat)
    requires i < |s|
    ensures |RemoveAt(s, i)| == |s| - 1
    ensures forall k :: 0 <= k < i ==> RemoveAt(s, i)[k] == s[k]
    ensures forall k :: i <= k < |s| - 1 ==> RemoveAt(s, i)[k] == s[k + 1]
    ensures Distinct(s) ==> forall y :: y in RemoveAt(s, i) <==> y in s && y != s[i]
  {
    var r := RemoveAt(s, i);
    if Distinct(s) {
      forall y
        ensures y in r <==> y in s && y != s[i]
      {
        if y in s && y != s[i] {
          var k :| 0 <= k < |s| && s[k] == y;
          assert r[if k < i then k else k - 1] == y;
        }
      }
    }
  }

  lemma DistinctInsert(s: seq<nat>, i: nat, x: nat)
    requires Distinct(s) && i <= |s| && x !in s
    ensures Distinct(InsertAt(s, i, x))
  {
    hide InsertAt;
    InsertAtElements(s, i, x);
    var r := InsertAt(s, i, x);
    forall a, b | 0 <= a < b < |r|
      ensures r[a] != r[b]
    {
      var a', b' := if a < i then a else a - 1, if b < i then b else b - 1;
      if a != i && b != i { assert r[a] == s[a'] && r[b] == s[b']; }
    }
  }

  lemma DistinctRemove(s: seq<nat>, i: nat)
    requires Distinct(s) && i < |s|
    ensures Distinct(RemoveAt(s, i))
  {
    hide RemoveAt;
    RemoveAtElements(s, i);
    var r := RemoveAt(s, i);
    forall a, b | 0 <= a < b < |r|
      ensures r[a] != r[b]
    {
      var a', b' := if a < i then a else a + 1, if b < i then b else b + 1;
      assert r[a] == s[a'] && r[b] == s[b'];
    }
  }

  /** The neighbours of node i, and that its links are known. */
  lemma RingNext(s: seq<nat>, nx: Links, pv: Links, i: nat)
    requires Ring(s, nx, pv) && i < |s|
    ensures s[i] in nx && s[i] in pv && nx[s[i]] == Following(s, i)
    ensures Following(s, if i == 0 then |s| - 1 else i - 1) == s[i]
    ensures pv[s[i]] == s[if i == 0 then |s| - 1 else i - 1]
  {
    assert Linked(nx, pv, s[i], Following(s, i));
    var j := if i == 0 then |s| - 1 else i - 1;
    assert Linked(nx, pv, s[j], Following(s, j));
  }

  lemma FollowingOnce(s: seq<nat>, i: nat, k: nat)
    requires Distinct(s) && i < |s| && k < |s| && i != k
    ensures Following(s, i) != Following(s, k)
  {
  }

  /** Linking a new node x behind node i. */
  lemma RingInsert(s: seq<nat>, nx: Links, pv: Links, i: nat, x: nat)
    requires Ring(s, nx, pv) && i < |s| && x !in s
    ensures s[i] in nx && nx[s[i]] == Following(s, i)
    ensures Ring(InsertAt(s, i + 1, x), nx[x := nx[s[i]]][s[i] := x], pv[x := s[i]][nx[s[i]] := x])
  {
    hide InsertAt, Distinct;
    RingNext(s, nx, pv, i);
    var r, nx', pv' := InsertAt(s, i + 1, x), nx[x := nx[s[i]]][s[i] := x], pv[x := s[i]][nx[s[i]] := x];
    InsertAtElements(s, i + 1, x);
    DistinctInsert(s, i + 1, x);
    forall k | 0 <= k < |r|
      ensures Linked(nx', pv', r[k], Following(r, k))
    {
      if k < i || k > i + 1 {
        var j := if k < i then k else k - 1;
        assert r[k] == s[j] && Following(r, k) == Following(s, j);
        assert Linked(nx, pv, s[j], Following(s, j));
        FollowingOnce(s, i, j);
        DistinctAt(s, i, j);
      }
    }
  }

  lemma DistinctAt(s: seq<nat>, i: nat, j: nat)
    requires Distinct(s) && i < |s| && j < |s| && i != j
    ensures s[i] != s[j]
  {
  }

  lemma SameIndex(s: seq<nat>, i: nat, j: nat)
    requires Distinct(s) && i < |s| && j < |s| && s[i] == s[j]
    ensures i == j
  {
  }

  /** Linking node i out. */
  lemma RingRemove(s: seq<nat>, nx: Links, pv: Links, i: nat)
    requires Ring(s, nx, pv) && i < |s| && |s| >= 2
    ensures s[i] in nx && s[i] in pv && nx[s[i]] == Following(s, i) && pv[s[i]] == s[if i == 0 then |s| - 1 else i - 1]
    ensures Ring(RemoveAt(s, i), nx[pv[s[i]] := nx[s[i]]], pv[nx[s[i]] := pv[s[i]]])
  {
    hide RemoveAt, Distinct;
    RingNext(s, nx, pv, i);
    var r, nx', pv' := RemoveAt(s, i), nx[pv[s[i]] := nx[s[i]]], pv[nx[s[i]] := pv[s[i]]];
    var p := if i == 0 then |s| - 1 else i - 1;
    RemoveAtElements(s, i);
    DistinctRemove(s, i);
    forall k | 0 <= k < |r|
      ensures Linked(nx', pv', r[k], Following(r, k))
    {
      var j := if k < i then k else k + 1;
      assert r[k] == s[j];
      if j != p {
        assert Following(r, k) == Following(s, j);
        assert Linked(nx, pv, s[j], Following(s, j));
        FollowingOnce(s, i, j);
        DistinctAt(s, p, j);
      } else {
        assert Following(r, k) == Following(s, i);
      }
    }
  }
}
