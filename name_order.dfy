/** Ordering of sibling lists. The tree engine sorts a sibling list with
    `Array.prototype.sort`, which is stable, comparing names with
    `localeCompare`. Here the comparison is the lexicographic order on
    characters, a fixed total order standing in for the locale's collation. */
module NameOrder {
  import opened Types

  /** `a` sorts strictly before `b`. */
  predicate Less(a: string, b: string)
    decreases |a|
  {
    |b| > 0 && (|a| == 0 || a[0] < b[0] || (a[0] == b[0] && Less(a[1..], b[1..])))
  }

  lemma {:induction false} LessIrreflexive(a: string)
    ensures !Less(a, a)
    decreases |a|
  {
    if |a| > 0 {
      LessIrreflexive(a[1..]);
    }
  }

  lemma {:induction false} LessTransitive(a: string, b: string, c: string)
    requires Less(a, b) && Less(b, c)
    ensures Less(a, c)
    decreases |a|
  {
    if |a| > 0 && a[0] == b[0] && b[0] == c[0] {
      LessTransitive(a[1..], b[1..], c[1..]);
    }
  }

  lemma {:induction false} LessTotal(a: string, b: string)
    ensures Less(a, b) || a == b || Less(b, a)
    decreases |a|
  {
    if |a| > 0 && |b| > 0 && a[0] == b[0] {
      LessTotal(a[1..], b[1..]);
      if a[1..] == b[1..] {
        assert a == [a[0]] + a[1..] && b == [b[0]] + b[1..];
      }
    }
  }

  lemma LessAsymmetric(a: string, b: string)
    ensures !(Less(a, b) && Less(b, a))
  {
    if Less(a, b) && Less(b, a) {
      LessTransitive(a, b, a);
      LessIrreflexive(a);
    }
  }

  /** Ascending by name, ties allowed. */
  predicate Sorted(s: seq<Node>) {
    forall i, j :: 0 <= i < j < |s| ==> !Less(s[j].name, s[i].name)
  }

  /** Ascending by name with no two names equal. */
  predicate StrictlySorted(s: seq<Node>) {
    forall i, j :: 0 <= i < j < |s| ==> Less(s[i].name, s[j].name)
  }

  /** One step of a stable insertion sort: `x` goes after every element whose
      name does not sort after its own. */
  function InsertByName(x: Node, s: seq<Node>): (r: seq<Node>)
    ensures |r| == |s| + 1
    ensures multiset(r) == multiset(s) + multiset{x}
  {
    if s == [] || Less(x.name, s[0].name) then [x] + s
    else
      assert s == [s[0]] + s[1..];
      [s[0]] + InsertByName(x, s[1..])
  }

  /** `[...s].sort((a, b) => a.name.localeCompare(b.name))`: a stable sort by
      name (insertion sort, each element inserted after the earlier ones). */
  function SortByName(s: seq<Node>): (r: seq<Node>)
    ensures |r| == |s|
    ensures multiset(r) == multiset(s)
    ensures Sorted(r)
  {
    if s == [] then []
    else
      var init := s[..|s| - 1];
      assert s == init + [s[|s| - 1]];
      InsertSorted(s[|s| - 1], SortByName(init));
      InsertByName(s[|s| - 1], SortByName(init))
  }

  lemma {:induction false} InsertSorted(x: Node, s: seq<Node>)
    requires Sorted(s)
    ensures Sorted(InsertByName(x, s))
    decreases |s|
  {
    if s != [] && !Less(x.name, s[0].name) {
      var t := s[1..];
      assert Sorted(t) by {
        forall i, j | 0 <= i < j < |t| ensures !Less(t[j].name, t[i].name) {
          assert t[i] == s[i + 1] && t[j] == s[j + 1];
        }
      }
      InsertSorted(x, t);
      assert forall i :: 0 <= i < |t| ==> !Less(t[i].name, s[0].name) by {
        forall i | 0 <= i < |t| ensures !Less(t[i].name, s[0].name) {
          assert t[i] == s[i + 1];
        }
      }
      InsertKeepsLowerBound(x, t, s[0]);
      ConsSorted(s[0], InsertByName(x, t));
    } else if s != [] {
      forall j | 0 <= j < |s| ensures !Less(s[j].name, x.name) {
        if Less(s[j].name, x.name) {
          LessTransitive(s[j].name, x.name, s[0].name);
          LessIrreflexive(s[0].name);
        }
      }
      ConsSorted(x, s);
    }
  }

  /** Insertion keeps a lower bound that `x` also respects. */
  lemma InsertKeepsLowerBound(x: Node, t: seq<Node>, a: Node)
    requires !Less(x.name, a.name) && forall i :: 0 <= i < |t| ==> !Less(t[i].name, a.name)
    ensures forall j :: 0 <= j < |InsertByName(x, t)| ==> !Less(InsertByName(x, t)[j].name, a.name)
  {
    var tail := InsertByName(x, t);
    InsertSplits(x, t);
    var k := InsertionPoint(x.name, t);
    forall j | 0 <= j < |tail| ensures !Less(tail[j].name, a.name) {
      if j < k {
        assert tail[j] == t[j];
      } else if j > k {
        assert tail[j] == t[j - 1];
      }
    }
  }

  lemma ConsSorted(a: Node, s: seq<Node>)
    requires Sorted(s) && forall j :: 0 <= j < |s| ==> !Less(s[j].name, a.name)
    ensures Sorted([a] + s)
  {
    var r := [a] + s;
    forall i, j | 0 <= i < j < |r| ensures !Less(r[j].name, r[i].name) {
      assert r[j] == s[j - 1];
      if i > 0 {
        assert r[i] == s[i - 1];
      }
    }
  }

  lemma {:induction false} InsertStrictlySorted(x: Node, s: seq<Node>)
    requires StrictlySorted(s)
    requires forall i :: 0 <= i < |s| ==> s[i].name != x.name
    ensures StrictlySorted(InsertByName(x, s))
    decreases |s|
  {
    if s != [] && !Less(x.name, s[0].name) {
      var t := s[1..];
      assert StrictlySorted(t) by {
        forall i, j | 0 <= i < j < |t| ensures Less(t[i].name, t[j].name) {
          assert t[i] == s[i + 1] && t[j] == s[j + 1];
        }
      }
      assert forall i :: 0 <= i < |t| ==> t[i] == s[i + 1];
      InsertStrictlySorted(x, t);
      LessTotal(x.name, s[0].name);
      assert forall i :: 0 <= i < |t| ==> Less(s[0].name, t[i].name) by {
        forall i | 0 <= i < |t| ensures Less(s[0].name, t[i].name) {
          assert t[i] == s[i + 1];
        }
      }
      InsertKeepsStrictLowerBound(x, t, s[0]);
      ConsStrictlySorted(s[0], InsertByName(x, t));
    } else if s != [] {
      forall j | 0 <= j < |s| ensures Less(x.name, s[j].name) {
        if j > 0 {
          LessTransitive(x.name, s[0].name, s[j].name);
        }
      }
      ConsStrictlySorted(x, s);
    }
  }

  /** Insertion keeps a strict lower bound that `x` also respects. */
  lemma InsertKeepsStrictLowerBound(x: Node, t: seq<Node>, a: Node)
    requires Less(a.name, x.name) && forall i :: 0 <= i < |t| ==> Less(a.name, t[i].name)
    ensures forall j :: 0 <= j < |InsertByName(x, t)| ==> Less(a.name, InsertByName(x, t)[j].name)
  {
    var tail := InsertByName(x, t);
    InsertSplits(x, t);
    var k := InsertionPoint(x.name, t);
    forall j | 0 <= j < |tail| ensures Less(a.name, tail[j].name) {
      if j < k {
        assert tail[j] == t[j];
      } else if j > k {
        assert tail[j] == t[j - 1];
      }
    }
  }

  lemma ConsStrictlySorted(a: Node, s: seq<Node>)
    requires StrictlySorted(s) && forall j :: 0 <= j < |s| ==> Less(a.name, s[j].name)
    ensures StrictlySorted([a] + s)
  {
    var r := [a] + s;
    forall i, j | 0 <= i < j < |r| ensures Less(r[i].name, r[j].name) {
      assert r[j] == s[j - 1];
      if i > 0 {
        assert r[i] == s[i - 1];
      }
    }
  }

  /** Inserting an element that sorts no earlier than any other appends it. */
  lemma {:induction false} InsertLast(x: Node, s: seq<Node>)
    requires forall i :: 0 <= i < |s| ==> !Less(x.name, s[i].name)
    ensures InsertByName(x, s) == s + [x]
    decreases |s|
  {
    if s != [] {
      InsertLast(x, s[1..]);
      assert s == [s[0]] + s[1..];
    }
  }

  /** Sorting a sorted list changes nothing. */
  lemma {:induction false} SortSorted(s: seq<Node>)
    requires Sorted(s)
    ensures SortByName(s) == s
    decreases |s|
  {
    if s != [] {
      var init := s[..|s| - 1];
      SortSorted(init);
      InsertLast(s[|s| - 1], init);
      assert init + [s[|s| - 1]] == s;
    }
  }

  /** Sorting a sorted list with one element appended inserts that element. */
  lemma SortAppended(s: seq<Node>, x: Node)
    requires Sorted(s)
    ensures SortByName(s + [x]) == InsertByName(x, s)
  {
    assert (s + [x])[..|s|] == s;
    SortSorted(s);
  }

  /** Where `InsertByName` puts a node of the given name: after every element
      whose name does not sort after it. */
  function InsertionPoint(name: string, s: seq<Node>): (k: nat)
    ensures k <= |s|
  {
    if s == [] || Less(name, s[0].name) then 0 else 1 + InsertionPoint(name, s[1..])
  }

  /** Sorting a single node gives that node. */
  lemma SortSingleton(x: Node)
    ensures SortByName([] + [x]) == [x]
  {
    assert [] + [x] == [x];
    assert SortByName([x]) == InsertByName(x, SortByName([]));
  }

  /** Insertion keeps the other elements in their order: it splits the list
      once, at a place that depends only on the name, and puts `x` in between. */
  lemma {:induction false} InsertSplits(x: Node, s: seq<Node>)
    ensures var k := InsertionPoint(x.name, s);
      InsertByName(x, s) == s[..k] + [x] + s[k..]
    decreases |s|
  {
    if s == [] || Less(x.name, s[0].name) {
      assert s[..0] == [] && s[0..] == s;
    } else {
      var t := s[1..];
      InsertSplits(x, t);
      var k := InsertionPoint(x.name, t);
      assert InsertByName(x, s) == [s[0]] + (t[..k] + [x] + t[k..]);
      assert InsertionPoint(x.name, s) == k + 1;
      ConsSplit(s, k, x);
    }
  }

  lemma ConsSplit(s: seq<Node>, k: nat, x: Node)
    requires 0 < |s| && k < |s|
    ensures [s[0]] + (s[1..][..k] + [x] + s[1..][k..]) == s[..k + 1] + [x] + s[k + 1..]
  {
    assert s[1..][..k] == s[1..k + 1];
    assert s[1..][k..] == s[k + 1..];
    assert [s[0]] + s[1..k + 1] == s[..k + 1];
  }

  lemma StrictlySortedIsSorted(s: seq<Node>)
    requires StrictlySorted(s)
    ensures Sorted(s)
  {
    forall i, j | 0 <= i < j < |s| ensures !Less(s[j].name, s[i].name) {
      LessAsymmetric(s[i].name, s[j].name);
    }
  }

}
