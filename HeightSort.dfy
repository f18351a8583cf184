/**
 * `uniq.sort(key=lambda x: x[3] or 0, reverse=True)` (bongo_bot.py, line 64): a stable sort by
 * height, highest first. Python keeps equal keys in their original order even with
 * `reverse=True`, so the result is the one a stable insertion sort produces.
 */
module HeightSort {
  import opened Entries
  import opened Dedup

  /** Where `x` goes in `t`: after every entry at least as high as `x`, counted from the back. */
  function InsertPos(t: seq<Entry>, x: Entry): (k: nat)
    ensures k <= |t|
    ensures forall i :: k <= i < |t| ==> t[i].height < x.height
    ensures k > 0 ==> t[k - 1].height >= x.height
  {
    if t == [] || t[|t| - 1].height >= x.height then |t| else InsertPos(t[..|t| - 1], x)
  }

  function Insert(t: seq<Entry>, x: Entry): seq<Entry>
  {
    var k := InsertPos(t, x);
    t[..k] + [x] + t[k..]
  }

  /** The reference stable sort by non-increasing height. */
  function SortDesc(s: seq<Entry>): (r: seq<Entry>)
    ensures |r| == |s|
  {
    if s == [] then [] else Insert(SortDesc(s[..|s| - 1]), s[|s| - 1])
  }

  /** The entries of `s` whose height is `h`, in order. */
  function WithHeight(s: seq<Entry>, h: nat): seq<Entry>
  {
    if s == [] then []
    else WithHeight(s[..|s| - 1], h) + (if s[|s| - 1].height == h then [s[|s| - 1]] else [])
  }

  lemma InsertNonIncreasing(t: seq<Entry>, x: Entry)
    requires NonIncreasing(t)
    ensures NonIncreasing(Insert(t, x))
  {
    var k := InsertPos(t, x);
    var r := Insert(t, x);
    forall i, j | 0 <= i < j < |r| ensures r[i].height >= r[j].height {
      if i < k && j == k {
        assert r[i] == t[i] && t[i].height >= t[k - 1].height;
      }
    }
  }

  /** The sort's result is in order of non-increasing height. */
  lemma {:induction false} SortDescNonIncreasing(s: seq<Entry>)
    ensures NonIncreasing(SortDesc(s))
  {
    if s != [] {
      SortDescNonIncreasing(s[..|s| - 1]);
      InsertNonIncreasing(SortDesc(s[..|s| - 1]), s[|s| - 1]);
    }
  }

  /** The sort's result is a permutation of its input. */
  lemma {:induction false} SortDescPermutes(s: seq<Entry>)
    ensures multiset(SortDesc(s)) == multiset(s)
  {
    if s != [] {
      var p, last := s[..|s| - 1], s[|s| - 1];
      SortDescPermutes(p);
      InsertPermutes(SortDesc(p), last);
      assert s == p + [last];
    }
  }

  lemma InsertPermutes(t: seq<Entry>, x: Entry)
    ensures multiset(Insert(t, x)) == multiset(t) + multiset{x}
  {
    var k := InsertPos(t, x);
    assert t == t[..k] + t[k..];
  }

  lemma {:induction false} WithHeightConcat(a: seq<Entry>, b: seq<Entry>, h: nat)
    ensures WithHeight(a + b, h) == WithHeight(a, h) + WithHeight(b, h)
  {
    if b == [] {
      assert a + b == a;
    } else {
      WithHeightConcat(a, b[..|b| - 1], h);
      assert (a + b)[..|a + b| - 1] == a + b[..|b| - 1];
    }
  }

  lemma {:induction false} WithHeightNone(s: seq<Entry>, h: nat)
    requires forall i :: 0 <= i < |s| ==> s[i].height != h
    ensures WithHeight(s, h) == []
  {
    if s != [] {
      WithHeightNone(s[..|s| - 1], h);
    }
  }

  lemma WithHeightSnoc(t: seq<Entry>, x: Entry, h: nat)
    ensures WithHeight(t + [x], h) == WithHeight(t, h) + (if x.height == h then [x] else [])
  {
    assert (t + [x])[..|t|] == t;
  }

  /** Inserting before a lower last entry is inserting into the rest, then appending it. */
  lemma InsertBeforeLast(t: seq<Entry>, x: Entry)
    requires t != [] && t[|t| - 1].height < x.height
    ensures Insert(t, x) == Insert(t[..|t| - 1], x) + [t[|t| - 1]]
  {
    var p := t[..|t| - 1];
    var k := InsertPos(p, x);
    assert t[..k] == p[..k];
    assert t[k..] == p[k..] + [t[|t| - 1]];
  }

  lemma {:induction false} InsertWithHeight(t: seq<Entry>, x: Entry, h: nat)
    ensures WithHeight(Insert(t, x), h) == WithHeight(t + [x], h)
  {
    if t == [] || t[|t| - 1].height >= x.height {
      assert Insert(t, x) == t + [x];
    } else {
      var p, last := t[..|t| - 1], t[|t| - 1];
      InsertBeforeLast(t, x);
      InsertWithHeight(p, x, h);
      WithHeightSnoc(Insert(p, x), last, h);
      WithHeightSnoc(p, x, h);
      WithHeightSnoc(t, x, h);
    }
  }

  /** The sort is stable: the entries of each height keep their relative order. */
  lemma {:induction false} SortDescStable(s: seq<Entry>, h: nat)
    ensures WithHeight(SortDesc(s), h) == WithHeight(s, h)
  {
    if s != [] {
      var p := s[..|s| - 1];
      SortDescStable(p, h);
      InsertWithHeight(SortDesc(p), s[|s| - 1], h);
      WithHeightConcat(SortDesc(p), [s[|s| - 1]], h);
      WithHeightConcat(p, [s[|s| - 1]], h);
      assert s == p + [s[|s| - 1]];
    }
  }

  lemma InsertDistinct(t: seq<Entry>, x: Entry)
    requires DistinctLabels(t)
    requires forall i :: 0 <= i < |t| ==> t[i].lbl != x.lbl
    ensures DistinctLabels(Insert(t, x))
  {
    var k := InsertPos(t, x);
    var r := Insert(t, x);
    assert forall i :: 0 <= i < k ==> r[i] == t[i];
    assert r[k] == x;
    assert forall i :: k < i < |r| ==> r[i] == t[i - 1];
  }

  /** Sorting keeps labels pairwise distinct. */
  lemma {:induction false} SortDescDistinct(s: seq<Entry>)
    requires DistinctLabels(s)
    ensures DistinctLabels(SortDesc(s))
  {
    if s != [] {
      var p, x := s[..|s| - 1], s[|s| - 1];
      assert DistinctLabels(p);
      SortDescDistinct(p);
      SortDescPermutes(p);
      var t := SortDesc(p);
      forall i | 0 <= i < |t| ensures t[i].lbl != x.lbl {
        assert t[i] in multiset(p);
        var j :| 0 <= j < |p| && p[j] == t[i];
        assert s[j] == t[i];
      }
      InsertDistinct(t, x);
    }
  }

  /** An entry is in the sorted list exactly when it is in the input. */
  lemma SortDescMembers(s: seq<Entry>)
    ensures forall x :: x in SortDesc(s) <==> x in s
  {
    SortDescPermutes(s);
    assert forall x :: x in SortDesc(s) <==> x in multiset(SortDesc(s));
  }

  /** Entries of equal height in `s` come in increasing order of `Find(es, _)` of their labels. */
  ghost predicate EqualHeightsInOrder(s: seq<Entry>, es: seq<Entry>)
  {
    forall i, i' :: 0 <= i < i' < |s| && s[i].height == s[i'].height ==>
      Find(es, s[i].lbl) < Find(es, s[i'].lbl)
  }

  /** Where the entries of `t` and `x` sit in `Insert(t, x)`. */
  lemma InsertAt(t: seq<Entry>, x: Entry, i: nat)
    requires i <= |t|
    ensures var k, r := InsertPos(t, x), Insert(t, x);
      |r| == |t| + 1 && r[i] == if i < k then t[i] else if i == k then x else t[i - 1]
  {
  }

  lemma InsertKeepsOrder(t: seq<Entry>, x: Entry, es: seq<Entry>)
    requires EqualHeightsInOrder(t, es)
    requires forall i :: 0 <= i < |t| ==> Find(es, t[i].lbl) < Find(es, x.lbl)
    ensures EqualHeightsInOrder(Insert(t, x), es)
  {
    var k := InsertPos(t, x);
    var r := Insert(t, x);
    forall i, i' | 0 <= i < i' < |r| && r[i].height == r[i'].height
      ensures Find(es, r[i].lbl) < Find(es, r[i'].lbl)
    {
      InsertAt(t, x, i);
      InsertAt(t, x, i');
    }
  }

  /**
   * If the input lists labels in the order they first appear in `es`, then after sorting,
   * entries of equal height still do.
   */
  lemma {:induction false} SortDescKeepsOrder(s: seq<Entry>, es: seq<Entry>)
    requires forall i, i' :: 0 <= i < i' < |s| ==> Find(es, s[i].lbl) < Find(es, s[i'].lbl)
    ensures EqualHeightsInOrder(SortDesc(s), es)
  {
    if s != [] {
      var p, x := s[..|s| - 1], s[|s| - 1];
      SortDescKeepsOrder(p, es);
      SortDescMembers(p);
      var t := SortDesc(p);
      forall i | 0 <= i < |t| ensures Find(es, t[i].lbl) < Find(es, x.lbl) {
        assert t[i] in p;
        var j :| 0 <= j < |p| && p[j] == t[i];
        assert s[j] == t[i];
      }
      InsertKeepsOrder(t, x, es);
    }
  }

  /** `uniq.sort(...)`, in place: a stable insertion sort by non-increasing height. */
  method SortByHeightDesc(a: array<Entry>)
    modifies a
    ensures a[..] == SortDesc(old(a[..]))
  {
    ghost var s := a[..];
    for i := 0 to a.Length
      invariant a[..i] == SortDesc(s[..i])
      invariant a[i..] == s[i..]
    {
      assert s[..i + 1][..i] == s[..i] && a[i] == s[i];
      InsertLast(a, i);
      assert a[i + 1..] == s[i + 1..];
    }
    assert s[..a.Length] == s;
  }

  /** Moves `a[i]` back into the sorted prefix `a[..i]`, after every entry at least as high. */
  method InsertLast(a: array<Entry>, i: nat)
    requires i < a.Length
    modifies a
    ensures a[..i + 1] == Insert(old(a[..i]), old(a[i]))
    ensures a[i + 1..] == old(a[i + 1..])
  {
    ghost var s := a[..];
    var x := a[i];
    var j := i;
    while j > 0 && a[j - 1].height < x.height
      invariant 0 <= j <= i
      invariant forall k :: 0 <= k < j ==> a[k] == s[k]
      invariant forall k :: j < k <= i ==> a[k] == s[k - 1]
      invariant forall k :: i < k < a.Length ==> a[k] == s[k]
      invariant forall k :: j <= k < i ==> s[k].height < x.height
    {
      a[j] := a[j - 1];
      j := j - 1;
    }
    a[j] := x;
    assert a[i + 1..] == s[i + 1..];
    ShiftedIsInsert(s[..i], x, j, a[..i + 1]);
  }

  /** A sequence that holds `t[..j]`, then `x`, then `t[j..]`, where `j` is where `x` goes in `t`. */
  lemma ShiftedIsInsert(t: seq<Entry>, x: Entry, j: nat, r: seq<Entry>)
    requires j <= |t| && |r| == |t| + 1
    requires forall k :: 0 <= k < j ==> r[k] == t[k]
    requires r[j] == x
    requires forall k :: j < k < |r| ==> r[k] == t[k - 1]
    requires forall k :: j <= k < |t| ==> t[k].height < x.height
    requires j == 0 || t[j - 1].height >= x.height
    ensures r == Insert(t, x)
  {
    InsertPosAt(t, x, j);
    forall k | 0 <= k < |r| ensures r[k] == Insert(t, x)[k] {
      InsertAt(t, x, k);
    }
  }

  /** `j` is the insertion point of `x` when everything from `j` on is lower and `t[j - 1]` is not. */
  lemma {:induction false} InsertPosAt(t: seq<Entry>, x: Entry, j: nat)
    requires j <= |t|
    requires forall k :: j <= k < |t| ==> t[k].height < x.height
    requires j == 0 || t[j - 1].height >= x.height
    ensures InsertPos(t, x) == j
  {
    if j < |t| {
      InsertPosAt(t[..|t| - 1], x, j);
    }
  }
}
