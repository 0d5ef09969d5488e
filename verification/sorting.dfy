/** Ordering of query results by an integer key (a timestamp), as the
    order repository's `ORDER BY changed_at` and `ORDER BY created_at DESC`
    produce it. Ties keep their original relative order. */
module Sorting {

  predicate SortedBy<T>(s: seq<T>, key: T -> int) {
    forall i, j :: 0 <= i < j < |s| ==> key(s[i]) <= key(s[j])
  }

  /** Puts `e` into the sorted `s` in front of the first element with a
      larger key. */
  function InsertBy<T>(e: T, s: seq<T>, key: T -> int): (r: seq<T>)
    requires SortedBy(s, key)
    ensures |r| == |s| + 1
    ensures SortedBy(r, key)
    ensures multiset(r) == multiset(s) + multiset{e}
    ensures key(r[0]) == if |s| == 0 || key(e) <= key(s[0]) then key(e) else key(s[0])
  {
    if |s| == 0 || key(e) <= key(s[0]) then
      PrependKeepsSorted(e, s, key);
      [e] + s
    else
      var rest := InsertBy(e, s[1..], key);
      assert s == [s[0]] + s[1..];
      assert multiset([s[0]] + rest) == multiset{s[0]} + multiset(rest);
      PrependKeepsSorted(s[0], rest, key);
      [s[0]] + rest
  }

  /** The elements after an insertion are the old ones and the new one. */
  lemma {:induction false} InsertByMembers<T>(e: T, s: seq<T>, key: T -> int)
    requires SortedBy(s, key)
    ensures var r := InsertBy(e, s, key);
      && (forall i :: 0 <= i < |r| ==> r[i] == e || r[i] in s)
      && e in r && forall x :: x in s ==> x in r
  {
    if |s| == 0 || key(e) <= key(s[0]) {
      assert InsertBy(e, s, key) == [e] + s;
    } else {
      var rest := InsertBy(e, s[1..], key);
      InsertByMembers(e, s[1..], key);
      assert InsertBy(e, s, key) == [s[0]] + rest;
      assert s == [s[0]] + s[1..];
    }
  }

  /** An insertion puts `e` at one position and keeps the others in order. */
  lemma {:induction false} InsertBySplices<T>(e: T, s: seq<T>, key: T -> int) returns (m: nat)
    requires SortedBy(s, key)
    ensures m <= |s| && InsertBy(e, s, key) == s[..m] + [e] + s[m..]
  {
    if |s| == 0 || key(e) <= key(s[0]) {
      m := 0;
      assert InsertBy(e, s, key) == [e] + s;
    } else {
      var tail := s[1..];
      var m' := InsertBySplices(e, tail, key);
      m := m' + 1;
      assert InsertBy(e, s, key) == [s[0]] + InsertBy(e, tail, key);
      assert s[..m] == [s[0]] + tail[..m'];
      assert s[m..] == tail[m'..];
      assert [s[0]] + (tail[..m'] + [e] + tail[m'..]) == ([s[0]] + tail[..m']) + [e] + tail[m'..];
    }
  }

  /** Where each element of a splice comes from. */
  lemma SpliceIndex<T>(s: seq<T>, m: nat, e: T, i: nat)
    requires m <= |s| && i <= |s|
    ensures (s[..m] + [e] + s[m..])[i] == if i < m then s[i] else if i == m then e else s[i - 1]
  {
  }

  lemma PrependKeepsSorted<T>(x: T, s: seq<T>, key: T -> int)
    requires SortedBy(s, key)
    requires |s| == 0 || key(x) <= key(s[0])
    ensures SortedBy([x] + s, key)
  {
    var r := [x] + s;
    forall i, j | 0 <= i < j < |r|
      ensures key(r[i]) <= key(r[j])
    {
      if i == 0 {
        assert r[j] == s[j - 1];
        assert key(s[0]) <= key(s[j - 1]);
      } else {
        assert r[i] == s[i - 1] && r[j] == s[j - 1];
      }
    }
  }

  /** Stable insertion sort by `key`. */
  function SortBy<T>(s: seq<T>, key: T -> int): (r: seq<T>)
    ensures |r| == |s|
    ensures SortedBy(r, key)
    ensures multiset(r) == multiset(s)
  {
    if |s| == 0 then []
    else
      assert s == [s[0]] + s[1..];
      InsertBy(s[0], SortBy(s[1..], key), key)
  }

  /** Sorting leaves an already sorted sequence as it is, so reading back a
      log that was written in key order returns it unchanged. */
  lemma {:induction false} SortBySortedIsIdentity<T>(s: seq<T>, key: T -> int)
    requires SortedBy(s, key)
    ensures SortBy(s, key) == s
  {
    if |s| > 0 {
      SortBySortedIsIdentity(s[1..], key);
      assert SortBy(s[1..], key) == s[1..];
      assert s == [s[0]] + s[1..];
    }
  }

  /** Appending an element whose key is at least every key of a sorted
      sequence keeps it sorted. */
  lemma AppendKeepsSorted<T>(s: seq<T>, e: T, key: T -> int)
    requires SortedBy(s, key)
    requires forall i :: 0 <= i < |s| ==> key(s[i]) <= key(e)
    ensures SortedBy(s + [e], key)
  {
  }

  /** Inserting below a last element whose key is the largest leaves that
      element last. */
  lemma {:induction false} InsertByBeforeLast<T>(x: T, t: seq<T>, e: T, key: T -> int)
    requires SortedBy(t, key) && SortedBy(t + [e], key)
    requires key(x) <= key(e)
    ensures InsertBy(x, t + [e], key) == InsertBy(x, t, key) + [e]
  {
    if |t| == 0 {
      assert t + [e] == [e];
    } else if key(x) <= key(t[0]) {
      assert (t + [e])[0] == t[0];
    } else {
      assert (t + [e])[0] == t[0] && (t + [e])[1..] == t[1..] + [e];
      SortedTail(t + [e], key);
      InsertByBeforeLast(x, t[1..], e, key);
    }
  }

  /** Dropping the first element keeps a sequence sorted. */
  lemma SortedTail<T>(s: seq<T>, key: T -> int)
    requires |s| > 0 && SortedBy(s, key)
    ensures SortedBy(s[1..], key)
  {
    forall i, j | 0 <= i < j < |s| - 1 ensures key(s[1..][i]) <= key(s[1..][j]) {
      assert s[1..][i] == s[i + 1] && s[1..][j] == s[j + 1];
    }
  }

  /** Sorting a sequence whose last element has the largest key sorts the
      rest and keeps that element last: an entry appended at the latest
      time reads back last. */
  lemma {:induction false} SortByAppendMax<T>(h: seq<T>, e: T, key: T -> int)
    requires forall i :: 0 <= i < |h| ==> key(h[i]) <= key(e)
    ensures SortBy(h + [e], key) == SortBy(h, key) + [e]
  {
    if |h| == 0 {
      assert h + [e] == [e];
      assert SortBy([e], key) == InsertBy(e, SortBy([], key), key);
    } else {
      assert (h + [e])[0] == h[0] && (h + [e])[1..] == h[1..] + [e];
      SortByAppendMax(h[1..], e, key);
      var t := SortBy(h[1..], key);
      SortByKeepsBound(h[1..], key, key(e));
      assert SortedBy(t + [e], key) by {
        AppendKeepsSorted(t, e, key);
      }
      InsertByBeforeLast(h[0], t, e, key);
    }
  }

  /** Sorting cannot raise the largest key. */
  lemma SortByKeepsBound<T>(s: seq<T>, key: T -> int, bound: int)
    requires forall i :: 0 <= i < |s| ==> key(s[i]) <= bound
    ensures forall i :: 0 <= i < |SortBy(s, key)| ==> key(SortBy(s, key)[i]) <= bound
  {
    var r := SortBy(s, key);
    forall i | 0 <= i < |r| ensures key(r[i]) <= bound {
      assert r[i] in multiset(s);
      var k :| 0 <= k < |s| && s[k] == r[i];
    }
  }
}
