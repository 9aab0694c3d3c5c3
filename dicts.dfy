/**
 * The Python dictionaries the source-summary code counts into: string keys
 * in insertion order with integer values.  Assigning to a new key appends
 * it, assigning to an existing key keeps its place, and deleting a key
 * leaves the others in order.
 */
module Dicts {
  import opened Base

  datatype Dict = Dict(keys: seq<string>, vals: map<string, int>)

  /** The key order lists each key of the entries exactly once. */
  predicate Valid(d: Dict)
  {
    NoDup(d.keys) && (forall k :: k in d.vals ==> k in d.keys) && forall k :: k in d.keys ==> k in d.vals
  }

  /** `d[k]` for a present key; an absent key reads as 0 (the source reads only present keys). */
  function Get(d: Dict, k: string): int
  {
    if k in d.vals then d.vals[k] else 0
  }

  /** `d[k] = v`. */
  function Put(d: Dict, k: string, v: int): (r: Dict)
    ensures Valid(d) ==> Valid(r)
    ensures r.vals == d.vals[k := v]
    ensures k in d.vals ==> r.keys == d.keys
    ensures k !in d.vals ==> r.keys == d.keys + [k]
  {
    if k in d.vals then Dict(d.keys, d.vals[k := v]) else Dict(d.keys + [k], d.vals[k := v])
  }

  /** `d[k] = 1` for a new key, `d[k] += 1` for a present one. */
  function Incr(d: Dict, k: string): (r: Dict)
    ensures Valid(d) ==> Valid(r)
    ensures forall x :: Get(r, x) == Get(d, x) + (if x == k then 1 else 0)
    ensures forall x :: x in r.vals <==> x in d.vals || x == k
  {
    Put(d, k, if k in d.vals then d.vals[k] + 1 else 1)
  }

  function NotKey(k: string): string -> bool
  {
    (x: string) => x != k
  }

  lemma {:induction false} FilterNoDup(s: seq<string>, p: string -> bool)
    ensures NoDup(s) ==> NoDup(Filter(s, p))
  {
    if |s| > 0 && NoDup(s) {
      var n := |s| - 1;
      var pre := s[..n];
      assert NoDup(pre) by {
        forall i, j | 0 <= i < j < n ensures pre[i] != pre[j] {
          assert pre[i] == s[i] && pre[j] == s[j];
        }
      }
      FilterNoDup(pre, p);
      FilterLast(s, p);
      if p(s[n]) {
        assert s[n] !in pre by {
          forall i | 0 <= i < n ensures pre[i] != s[n] {
            assert pre[i] == s[i];
          }
        }
        NoDupSnoc(Filter(pre, p), s[n]);
      }
    }
  }

  lemma NoDupSnoc(a: seq<string>, x: string)
    requires NoDup(a) && x !in a
    ensures NoDup(a + [x])
  {
  }

  /** `del d[k]`. */
  function Remove(d: Dict, k: string): (r: Dict)
    ensures Valid(d) ==> Valid(r)
    ensures r.vals == d.vals - {k}
  {
    FilterNoDup(d.keys, NotKey(k));
    Dict(Filter(d.keys, NotKey(k)), d.vals - {k})
  }

  /** The loop `for k in ks[:n]: if k in d: del d[k]`. */
  function RemoveAll(d: Dict, ks: seq<string>, n: nat): Dict
    requires n <= |ks|
  {
    if n == 0 then d
    else
      var e := RemoveAll(d, ks, n - 1);
      if ks[n - 1] in e.vals then Remove(e, ks[n - 1]) else e
  }

  /** Deleting the listed keys keeps exactly the other entries, with their values. */
  lemma {:induction false} RemoveAllMeaning(d: Dict, ks: seq<string>, n: nat)
    requires Valid(d) && n <= |ks|
    ensures var r := RemoveAll(d, ks, n);
      Valid(r)
      && (forall k :: k in r.vals <==> k in d.vals && k !in ks[..n])
      && forall k :: k in r.vals ==> r.vals[k] == d.vals[k]
  {
    if n > 0 {
      RemoveAllMeaning(d, ks, n - 1);
      assert ks[..n] == ks[..n - 1] + [ks[n - 1]];
    }
  }

  /** The loop deleting the listed keys that are present. */
  method RemoveKeys(d: Dict, ks: seq<string>) returns (r: Dict)
    ensures r == RemoveAll(d, ks, |ks|)
  {
    r := d;
    var k := 0;
    while k < |ks|
      invariant k <= |ks| && r == RemoveAll(d, ks, k)
    {
      if ks[k] in r.vals {
        r := Remove(r, ks[k]);
      }
      k := k + 1;
    }
  }
}
