/**
 * Shared value types: optional values, results that carry the source's
 * raised errors, table cells that may be missing, and the order-preserving
 * de-duplication that several of the source's loops perform.
 */
module Base {

  datatype Option<T> = None | Some(value: T)

  /** A computation that either returns a value or raises (ValueError, KeyError, ...). */
  datatype Result<T> = Ok(value: T) | Err(error: string)

  /** A table cell: a string, or a missing value (NaN / None in the source). */
  type Cell = Option<string>

  /** Python's `str(x)` of a cell: a missing value prints as "nan". */
  function PyStr(c: Cell): string
  {
    match c
    case None => "nan"
    case Some(s) => s
  }

  /**
   * pandas element-wise `==`: a missing value is never equal to anything,
   * itself included.  (Membership tests, `drop_duplicates` and merge keys,
   * by contrast, treat two missing values as equal; those use Dafny's `==`.)
   */
  predicate PyEq(a: Cell, b: Cell)
  {
    a.Some? && b.Some? && a.value == b.value
  }

  predicate NoDup<T(==)>(s: seq<T>)
  {
    forall i, j :: 0 <= i < j < |s| ==> s[i] != s[j]
  }

  /** Number of occurrences of x in s. */
  function Count<T(==)>(s: seq<T>, x: T): nat
  {
    if |s| == 0 then 0 else Count(s[..|s| - 1], x) + (if s[|s| - 1] == x then 1 else 0)
  }

  /**
   * The distinct elements of s in order of first occurrence: what a loop
   * builds that appends each value it has not seen yet.
   */
  function Dedup<T(==)>(s: seq<T>): (r: seq<T>)
    ensures NoDup(r)
    ensures forall i :: 0 <= i < |s| ==> s[i] in r
    ensures forall i :: 0 <= i < |r| ==> r[i] in s
    ensures |r| <= |s|
  {
    if |s| == 0 then []
    else
      var d := Dedup(s[..|s| - 1]);
      assert s == s[..|s| - 1] + [s[|s| - 1]];
      if s[|s| - 1] in d then d else d + [s[|s| - 1]]
  }

  /** Concatenation of a sequence of sequences. */
  function Flatten<T>(ss: seq<seq<T>>): seq<T>
  {
    if |ss| == 0 then [] else Flatten(ss[..|ss| - 1]) + ss[|ss| - 1]
  }

  lemma {:induction false} CountZero<T>(s: seq<T>, x: T)
    ensures Count(s, x) == 0 <==> x !in s
  {
    if |s| > 0 {
      CountZero(s[..|s| - 1], x);
      assert s == s[..|s| - 1] + [s[|s| - 1]];
    }
  }

  lemma {:induction false} CountAppend<T>(s: seq<T>, t: seq<T>, x: T)
    ensures Count(s + t, x) == Count(s, x) + Count(t, x)
  {
    if |t| > 0 {
      assert (s + t)[..|s + t| - 1] == s + t[..|t| - 1];
      CountAppend(s, t[..|t| - 1], x);
    } else {
      assert s + t == s;
    }
  }

  /** Appending a value that is already present leaves the distinct list unchanged. */
  lemma DedupAppendSeen<T>(s: seq<T>, x: T)
    requires x in s
    ensures Dedup(s + [x]) == Dedup(s)
  {
    assert (s + [x])[..|s|] == s;
  }

  /** The distinct list of a prefix is a prefix of the distinct list. */
  lemma {:induction false} DedupPrefix<T>(s: seq<T>, i: nat)
    requires i <= |s|
    ensures Dedup(s[..i]) <= Dedup(s)
  {
    if i < |s| {
      DedupPrefix(s[..|s| - 1], i);
      assert s[..|s| - 1][..i] == s[..i];
    } else {
      assert s[..i] == s;
    }
  }

  lemma {:induction false} FlattenAppend<T>(ss: seq<seq<T>>, tt: seq<seq<T>>)
    ensures Flatten(ss + tt) == Flatten(ss) + Flatten(tt)
  {
    if |tt| > 0 {
      assert (ss + tt)[..|ss + tt| - 1] == ss + tt[..|tt| - 1];
      FlattenAppend(ss, tt[..|tt| - 1]);
    } else {
      assert ss + tt == ss;
    }
  }

  /** Every member of a part is a member of the concatenation. */
  lemma {:induction false} FlattenMember<T>(ss: seq<seq<T>>, k: nat, x: T)
    requires k < |ss| && x in ss[k]
    ensures x in Flatten(ss)
  {
    if k < |ss| - 1 {
      FlattenMember(ss[..|ss| - 1], k, x);
    }
  }

  /** The elements of s satisfying p, in order (a boolean-mask selection of rows). */
  function Filter<T>(s: seq<T>, p: T -> bool): (r: seq<T>)
    ensures |r| <= |s|
    ensures forall i :: 0 <= i < |r| ==> p(r[i]) && r[i] in s
    ensures forall i :: 0 <= i < |s| && p(s[i]) ==> s[i] in r
  {
    if |s| == 0 then []
    else
      assert s == s[..|s| - 1] + [s[|s| - 1]];
      Filter(s[..|s| - 1], p) + (if p(s[|s| - 1]) then [s[|s| - 1]] else [])
  }

  lemma {:induction false} FilterAppend<T>(s: seq<T>, t: seq<T>, p: T -> bool)
    ensures Filter(s + t, p) == Filter(s, p) + Filter(t, p)
  {
    if |t| > 0 {
      assert (s + t)[..|s + t| - 1] == s + t[..|t| - 1];
      FilterAppend(s, t[..|t| - 1], p);
    } else {
      assert s + t == s;
    }
  }

  /** Selecting twice is selecting once with both conditions. */
  lemma {:induction false} FilterFilter<T>(s: seq<T>, p: T -> bool, q: T -> bool, r: T -> bool)
    requires forall x :: x in s ==> (r(x) <==> p(x) && q(x))
    ensures Filter(Filter(s, p), q) == Filter(s, r)
  {
    if |s| > 0 {
      var n := |s| - 1;
      assert forall x :: x in s[..n] ==> x in s;
      FilterFilter(s[..n], p, q, r);
      FilterAppend(Filter(s[..n], p), if p(s[n]) then [s[n]] else [], q);
      assert s[n] in s;
    }
  }

  /** Two conditions that agree on every element select the same elements. */
  lemma {:induction false} FilterSame<T>(s: seq<T>, p: T -> bool, q: T -> bool)
    requires forall x :: x in s ==> p(x) == q(x)
    ensures Filter(s, p) == Filter(s, q)
  {
    if |s| > 0 {
      var n := |s| - 1;
      assert forall x :: x in s[..n] ==> x in s;
      FilterSame(s[..n], p, q);
      assert s[n] in s;
    }
  }

  /** One more element: it is selected after the selection of the rest when it meets the condition. */
  lemma FilterLast<T>(s: seq<T>, p: T -> bool)
    requires |s| > 0
    ensures Filter(s, p) == Filter(s[..|s| - 1], p) + (if p(s[|s| - 1]) then [s[|s| - 1]] else [])
  {
  }

  /** The negation of a condition. */
  function Not<T>(p: T -> bool): T -> bool
  {
    (x: T) => !p(x)
  }

  /** A condition and its negation split a sequence: together they keep as many elements as there are. */
  lemma {:induction false} FilterSplit<T>(s: seq<T>, p: T -> bool)
    ensures |Filter(s, p)| + |Filter(s, Not(p))| == |s|
  {
    if |s| > 0 {
      FilterSplit(s[..|s| - 1], p);
      FilterLast(s, p);
      FilterLast(s, Not(p));
    }
  }

  /** Selecting with a condition that only one element meets yields that element alone. */
  lemma {:induction false} FilterUnique<T>(s: seq<T>, p: T -> bool, i: nat)
    requires i < |s| && p(s[i])
    requires forall j :: 0 <= j < |s| && j != i ==> !p(s[j])
    ensures Filter(s, p) == [s[i]]
  {
    var n := |s| - 1;
    if i == n {
      FilterNone(s[..n], p);
    } else {
      FilterUnique(s[..n], p, i);
    }
  }

  lemma {:induction false} FilterNone<T>(s: seq<T>, p: T -> bool)
    requires forall j :: 0 <= j < |s| ==> !p(s[j])
    ensures Filter(s, p) == []
  {
    if |s| > 0 {
      FilterNone(s[..|s| - 1], p);
    }
  }

  /** Selection keeps every element exactly when all of them satisfy the condition. */
  lemma {:induction false} FilterAll<T>(s: seq<T>, p: T -> bool)
    ensures |Filter(s, p)| == |s| <==> forall j :: 0 <= j < |s| ==> p(s[j])
    ensures (forall j :: 0 <= j < |s| ==> p(s[j])) ==> Filter(s, p) == s
  {
    if |s| > 0 {
      var n := |s| - 1;
      FilterAll(s[..n], p);
      assert s == s[..n] + [s[n]];
      if !p(s[n]) {
        // the selection is then no longer than the prefix
      }
    }
  }

  /** Two distinct positions meeting the condition give at least two selected elements. */
  lemma {:induction false} FilterTwo<T>(s: seq<T>, p: T -> bool, i: nat, j: nat)
    requires i < j < |s| && p(s[i]) && p(s[j])
    ensures |Filter(s, p)| >= 2
  {
    var n := |s| - 1;
    if j < n {
      FilterTwo(s[..n], p, i, j);
    } else {
      assert p(s[..n][i]);
      assert s[..n][i] in Filter(s[..n], p);
    }
  }

  /** Every member of the concatenation comes from one of the parts. */
  lemma {:induction false} FlattenMemberInv<T>(ss: seq<seq<T>>, x: T)
    requires x in Flatten(ss)
    ensures exists k :: 0 <= k < |ss| && x in ss[k]
  {
    var n := |ss| - 1;
    if x !in ss[n] {
      FlattenMemberInv(ss[..n], x);
      var k :| 0 <= k < n && x in ss[..n][k];
      assert ss[k] == ss[..n][k];
    }
  }

  /** No element before position j has the key of s[j]: s[j] is the first of its key. */
  predicate FirstOfKey<T, K(==)>(s: seq<T>, key: T -> K, j: int)
    requires 0 <= j < |s|
  {
    forall k :: 0 <= k < j ==> key(s[k]) != key(s[j])
  }

  /**
   * `drop_duplicates(subset=key, keep='first')`: for each key value the
   * first element carrying it, in order.  Two missing values count as equal.
   */
  function DistinctBy<T, K(==)>(s: seq<T>, key: T -> K): (r: seq<T>)
    ensures |r| <= |s|
    ensures forall i, j :: 0 <= i < j < |r| ==> key(r[i]) != key(r[j])
    ensures forall i :: 0 <= i < |r| ==> r[i] in s
  {
    if |s| == 0 then []
    else
      var n := |s| - 1;
      var d := DistinctBy(s[..n], key);
      if exists j :: 0 <= j < |d| && key(d[j]) == key(s[n]) then d else d + [s[n]]
  }

  /** The first element of a key in e + t + u lies in e when some element of e has that key. */
  lemma FirstOfKeyInPrefix<T, K>(e: seq<T>, t: seq<T>, u: seq<T>, key: T -> K, m: nat, a: nat)
    requires m < |e + t + u| && FirstOfKey(e + t + u, key, m)
    requires a < |e| && key(e[a]) == key((e + t + u)[m])
    ensures m < |e| && (e + t + u)[m] == e[m]
  {
    assert (e + t + u)[a] == e[a];
  }

  /** Every key of s is the key of some kept element. */
  lemma {:induction false} DistinctByCovers<T, K>(s: seq<T>, key: T -> K, i: nat)
    requires i < |s|
    ensures exists j :: 0 <= j < |DistinctBy(s, key)| && key(DistinctBy(s, key)[j]) == key(s[i])
  {
    var n := |s| - 1;
    var d := DistinctBy(s[..n], key);
    if i < n {
      DistinctByCovers(s[..n], key, i);
      var j :| 0 <= j < |d| && key(d[j]) == key(s[..n][i]);
      assert DistinctBy(s, key)[j] == d[j];
    } else if exists j :: 0 <= j < |d| && key(d[j]) == key(s[n]) {
      var j :| 0 <= j < |d| && key(d[j]) == key(s[n]);
      assert DistinctBy(s, key) == d;
    } else {
      assert DistinctBy(s, key)[|d|] == s[n];
    }
  }

  /** Every kept element is the first of its key in s. */
  lemma {:induction false} DistinctByFirst<T, K>(s: seq<T>, key: T -> K, i: nat)
    requires i < |DistinctBy(s, key)|
    ensures exists j :: 0 <= j < |s| && s[j] == DistinctBy(s, key)[i] && FirstOfKey(s, key, j)
  {
    var n := |s| - 1;
    var d := DistinctBy(s[..n], key);
    if i < |d| {
      DistinctByFirst(s[..n], key, i);
      var j :| 0 <= j < n && s[..n][j] == d[i] && FirstOfKey(s[..n], key, j);
      assert s[j] == s[..n][j];
      assert FirstOfKey(s, key, j) by {
        forall k | 0 <= k < j ensures key(s[k]) != key(s[j]) {
          assert s[k] == s[..n][k];
        }
      }
    } else {
      assert DistinctBy(s, key)[i] == s[n];
      forall k | 0 <= k < n ensures key(s[k]) != key(s[n]) {
        DistinctByCovers(s[..n], key, k);
        assert s[k] == s[..n][k];
      }
      assert FirstOfKey(s, key, n);
    }
  }
}
