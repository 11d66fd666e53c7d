/**
 * The handful of `Vec` library operations the bots rely on, as functions on
 * sequences: the stable sort of `sort_by`, `swap_remove`, `reverse` and
 * `position`-style searches.
 */
module VecOps {
  import opened Wrappers

  /** Every element is at least as large (by `key`) as every element after it. */
  ghost predicate SortedDesc<T>(s: seq<T>, key: T -> int)
  {
    forall i, j :: 0 <= i < j < |s| ==> key(s[i]) >= key(s[j])
  }

  /** Places `x` after every element whose key is at least `key(x)`. */
  function InsertDesc<T>(s: seq<T>, x: T, key: T -> int): (r: seq<T>)
    ensures |r| == |s| + 1
    ensures forall k :: 0 <= k < |r| ==> r[k] == x || r[k] in s
    ensures multiset(r) == multiset(s) + multiset{x}
  {
    if s == [] then [x]
    else if key(s[0]) >= key(x) then
      assert s == [s[0]] + s[1..];
      [s[0]] + InsertDesc(s[1..], x, key)
    else
      [x] + s
  }

  lemma {:induction false} InsertDescSorted<T>(s: seq<T>, x: T, key: T -> int)
    requires SortedDesc(s, key)
    ensures SortedDesc(InsertDesc(s, x, key), key)
  {
    if s != [] && key(s[0]) >= key(x) {
      var rest := InsertDesc(s[1..], x, key);
      SortedDescTail(s, key);
      InsertDescSorted(s[1..], x, key);
      forall k | 0 <= k < |rest| ensures key(s[0]) >= key(rest[k]) {
        if rest[k] != x {
          var m :| 0 <= m < |s[1..]| && s[1..][m] == rest[k];
          assert s[1..][m] == s[m + 1];
        }
      }
      SortedCons(s[0], rest, key);
    }
  }

  /** A head whose key is at least every key of a sorted tail keeps it sorted. */
  lemma SortedCons<T>(h: T, rest: seq<T>, key: T -> int)
    requires SortedDesc(rest, key) && forall k :: 0 <= k < |rest| ==> key(h) >= key(rest[k])
    ensures SortedDesc([h] + rest, key)
  {
    var r := [h] + rest;
    forall i, j | 0 <= i < j < |r| ensures key(r[i]) >= key(r[j]) {
      assert r[j] == rest[j - 1];
      if i > 0 {
        assert r[i] == rest[i - 1];
      }
    }
  }

  /**
   * `v.sort_by(|a, b| key(b).cmp(&key(a)))`: a stable sort by descending key.
   * Elements with equal keys keep their relative order, because each element is
   * inserted after all the earlier ones whose key is not smaller.
   */
  function SortDesc<T>(s: seq<T>, key: T -> int): (r: seq<T>)
    ensures |r| == |s|
    ensures forall k :: 0 <= k < |r| ==> r[k] in s
    ensures multiset(r) == multiset(s)
    ensures SortedDesc(r, key)
  {
    if s == [] then []
    else
      assert s == s[..|s| - 1] + [s[|s| - 1]];
      InsertDescSorted(SortDesc(s[..|s| - 1], key), s[|s| - 1], key);
      InsertDesc(SortDesc(s[..|s| - 1], key), s[|s| - 1], key)
  }

  lemma {:induction false} InsertDescAtEnd<T>(s: seq<T>, x: T, key: T -> int)
    requires forall e :: e in s ==> key(e) >= key(x)
    ensures InsertDesc(s, x, key) == s + [x]
  {
    if s != [] {
      InsertDescAtEnd(s[1..], x, key);
    }
  }

  lemma SortedDescTail<T>(s: seq<T>, key: T -> int)
    requires s != [] && SortedDesc(s, key)
    ensures SortedDesc(s[1..], key)
  {
    var t := s[1..];
    forall i, j | 0 <= i < j < |t| ensures key(t[i]) >= key(t[j]) {
      assert t[i] == s[i + 1] && t[j] == s[j + 1];
    }
  }

  lemma {:induction false} InsertDescKeepsLast<T>(s: seq<T>, x: T, key: T -> int)
    requires s != [] && SortedDesc(s, key) && key(s[|s| - 1]) < key(x)
    ensures InsertDesc(s, x, key)[|s|] == s[|s| - 1]
  {
    if key(s[0]) >= key(x) {
      var t := s[1..];
      assert |s| > 1 && t[|t| - 1] == s[|s| - 1];
      SortedDescTail(s, key);
      InsertDescKeepsLast(t, x, key);
      assert InsertDesc(s, x, key) == [s[0]] + InsertDesc(t, x, key);
    } else {
      assert InsertDesc(s, x, key) == [x] + s;
    }
  }

  /**
   * Element k has a minimal key, and it is the LATEST such element: every
   * element after it has a strictly larger key.
   */
  ghost predicate LatestMin<T>(s: seq<T>, key: T -> int, k: int)
  {
    && 0 <= k < |s|
    && (forall i :: 0 <= i < |s| ==> key(s[k]) <= key(s[i]))
    && (forall i :: k < i < |s| ==> key(s[k]) < key(s[i]))
  }

  /** What `sort_by` followed by `pop` selects: the latest element of minimal key. */
  ghost predicate LastOfSort<T>(s: seq<T>, key: T -> int, k: int)
  {
    LatestMin(s, key, k) && SortDesc(s, key)[|s| - 1] == s[k]
  }

  /** The latest minimum after appending x: x itself when its key is not larger, else the old one. */
  lemma LatestMinSnoc<T>(s: seq<T>, key: T -> int, k0: int)
    requires |s| >= 2 && LatestMin(s[..|s| - 1], key, k0)
    ensures LatestMin(s, key, if key(s[|s| - 1]) <= key(s[k0]) then |s| - 1 else k0)
  {
    var init := s[..|s| - 1];
    assert s[k0] == init[k0];
    forall i | 0 <= i < |init| ensures key(s[k0]) <= key(s[i]) {
      assert s[i] == init[i];
    }
    forall i | k0 < i < |init| ensures key(s[k0]) < key(s[i]) {
      assert s[i] == init[i];
    }
  }

  /** Appending an element no larger than the latest minimum makes it the one selected. */
  lemma SortLastSmaller<T>(s: seq<T>, key: T -> int, k0: int)
    requires |s| >= 2 && LatestMin(s[..|s| - 1], key, k0) && key(s[|s| - 1]) <= key(s[k0])
    ensures LastOfSort(s, key, |s| - 1)
  {
    var init, x := s[..|s| - 1], s[|s| - 1];
    var r0 := SortDesc(init, key);
    LatestMinSnoc(s, key, k0);
    assert s[k0] == init[k0];
    forall e | e in r0 ensures key(e) >= key(x) {
      var m :| 0 <= m < |init| && init[m] == e;
    }
    InsertDescAtEnd(r0, x, key);
  }

  /** The sort's last element stays last when a larger element is appended. */
  lemma SortKeepsLast<T>(s: seq<T>, key: T -> int, k0: int)
    requires |s| >= 2 && 0 <= k0 < |s| - 1 && SortDesc(s[..|s| - 1], key)[|s| - 2] == s[k0]
    requires key(s[|s| - 1]) > key(s[k0])
    ensures SortDesc(s, key)[|s| - 1] == s[k0]
  {
    var r0 := SortDesc(s[..|s| - 1], key);
    assert SortDesc(s, key) == InsertDesc(r0, s[|s| - 1], key);
    InsertDescKeepsLast(r0, s[|s| - 1], key);
  }

  /** Appending an element larger than the latest minimum leaves that minimum the one selected. */
  lemma SortLastLarger<T>(s: seq<T>, key: T -> int, k0: int)
    requires |s| >= 2 && LastOfSort(s[..|s| - 1], key, k0) && key(s[|s| - 1]) > key(s[k0])
    ensures LastOfSort(s, key, k0)
  {
    LatestMinSnoc(s, key, k0);
    assert s[..|s| - 1][k0] == s[k0];
    SortKeepsLast(s, key, k0);
  }

  lemma {:induction false} SortDescLast<T>(s: seq<T>, key: T -> int)
    requires s != []
    ensures exists k :: LastOfSort(s, key, k)
  {
    if |s| == 1 {
      assert SortDesc(s, key) == [s[0]];
      assert LastOfSort(s, key, 0);
    } else {
      SortDescLast(s[..|s| - 1], key);
      var k0 :| LastOfSort(s[..|s| - 1], key, k0);
      if key(s[|s| - 1]) <= key(s[k0]) {
        SortLastSmaller(s, key, k0);
      } else {
        SortLastLarger(s, key, k0);
      }
    }
  }

  /** An element other than the last one is in the sequence without its last element. */
  lemma InDropLast<T>(s: seq<T>, x: T)
    requires x in s && x != s[|s| - 1]
    ensures x in s[..|s| - 1]
  {
    var i :| 0 <= i < |s| && s[i] == x;
    assert s[..|s| - 1][i] == x;
  }

  /** Dropping the last element of a concatenation drops it from its second part. */
  lemma DropLastConcat<T>(a: seq<T>, b: seq<T>)
    requires b != []
    ensures (a + b)[|a + b| - 1] == b[|b| - 1]
    ensures (a + b)[..|a + b| - 1] == a + b[..|b| - 1]
  {
  }

  /** `v.swap_remove(i)`: the last element takes the place of the removed one. */
  function SwapRemove<T>(s: seq<T>, i: nat): (r: seq<T>)
    requires i < |s|
    ensures |r| == |s| - 1
    ensures forall k :: 0 <= k < |r| ==> r[k] == s[if k == i then |s| - 1 else k]
    ensures multiset(r) == multiset(s) - multiset{s[i]}
  {
    assert s == s[..i] + [s[i]] + s[i + 1..];
    if i == |s| - 1 then s[..i]
    else
      assert s[i + 1..] == s[i + 1..|s| - 1] + [s[|s| - 1]];
      s[..i] + [s[|s| - 1]] + s[i + 1..|s| - 1]
  }

  /** `v.reverse()`. */
  function Reverse<T>(s: seq<T>): (r: seq<T>)
    ensures |r| == |s|
  {
    if s == [] then [] else Reverse(s[1..]) + [s[0]]
  }

  lemma {:induction false} ReverseAt<T>(s: seq<T>, k: nat)
    requires k < |s|
    ensures Reverse(s)[k] == s[|s| - 1 - k]
  {
    if k < |s| - 1 {
      ReverseAt(s[1..], k);
    }
  }

  /** The index of the last occurrence of `c` in `s`. */
  function LastIndexOf<T(==)>(s: seq<T>, c: T): (r: Option<nat>)
    ensures r.Some? ==> r.value < |s| && s[r.value] == c && forall j :: r.value < j < |s| ==> s[j] != c
    ensures r.None? ==> c !in s
  {
    if s == [] then None
    else if s[|s| - 1] == c then Some(|s| - 1)
    else
      var r := LastIndexOf(s[..|s| - 1], c);
      assert s == s[..|s| - 1] + [s[|s| - 1]];
      r
  }

  /** Extending a sequence by one element. */
  lemma LastIndexOfStep<T>(s: seq<T>, x: nat, c: T)
    requires x < |s|
    ensures LastIndexOf(s[..x + 1], c) == if s[x] == c then Some(x) else LastIndexOf(s[..x], c)
    ensures c in s[..x + 1] <==> c in s[..x] || s[x] == c
  {
    assert s[..x + 1][..x] == s[..x] && s[..x + 1][x] == s[x];
  }

  /** `iter().position(|y| *y == x)`: the first index holding `x`. */
  function IndexOf<T(==)>(s: seq<T>, x: T): (r: Option<nat>)
    ensures r.Some? ==> r.value < |s| && s[r.value] == x && x !in s[..r.value]
    ensures r.None? ==> x !in s
  {
    if s == [] then None
    else if s[0] == x then Some(0)
    else
      match IndexOf(s[1..], x)
      case None => None
      case Some(i) =>
        assert s[..i + 1] == [s[0]] + s[1..][..i];
        Some(i + 1)
  }
}
