/**
 Sequences of keys used as a recency order (most recently used first), and the
 three ways the cache rearranges them: dropping one key, keeping a set of keys,
 and moving a key to the front.
 */
module Recency {

  /** No key occurs twice in `s`. */
  ghost predicate NoDup<K>(s: seq<K>) {
    forall i, j :: 0 <= i < j < |s| ==> s[i] != s[j]
  }

  /** The keys of `s` as a set. */
  ghost function Elems<K>(s: seq<K>): set<K> {
    set x | x in s
  }

  /** `a` is `b` with some elements left out, the rest in the same relative order. */
  predicate Subseq<K(==)>(a: seq<K>, b: seq<K>)
    decreases |b|
  {
    if |a| == 0 then true
    else if |b| == 0 then false
    else if a[0] == b[0] then Subseq(a[1..], b[1..])
    else Subseq(a, b[1..])
  }

  /** Along `s`, `rank` never increases. */
  ghost predicate Antitone<K>(s: seq<K>, rank: K -> int) {
    forall i, j :: 0 <= i < j < |s| ==> rank(s[j]) <= rank(s[i])
  }

  /** The elements of `s` that belong to `keys`, in their original order. */
  function Keep<K(==)>(s: seq<K>, keys: set<K>): (r: seq<K>)
    ensures forall i :: 0 <= i < |r| ==> r[i] in s && r[i] in keys
    ensures forall i :: 0 <= i < |s| && s[i] in keys ==> s[i] in r
    ensures |r| <= |s|
    ensures NoDup(s) ==> NoDup(r)
  {
    if |s| == 0 then []
    else
      var rest := Keep(s[1..], keys);
      if s[0] in keys then
        assert NoDup(s) ==> s[0] !in s[1..];
        assert NoDup(s) ==> NoDup([s[0]] + rest) by {
          if NoDup(s) { PushNoDup(s[0], rest); }
        }
        [s[0]] + rest
      else rest
  }

  /** `s` with the key `k` taken out (the list removal of a linked-list node). */
  function Without<K(==)>(s: seq<K>, k: K): (r: seq<K>)
    ensures forall i :: 0 <= i < |r| ==> r[i] in s && r[i] != k
    ensures forall i :: 0 <= i < |s| && s[i] != k ==> s[i] in r
    ensures NoDup(s) ==> NoDup(r)
  {
    Keep(s, set x | x in s && x != k)
  }

  /** `k` moved (or pushed) to the most-recently-used end. */
  function ToFront<K(==)>(s: seq<K>, k: K): (r: seq<K>)
    ensures |r| > 0 && r[0] == k
    ensures forall i :: 0 <= i < |r| ==> r[i] in s || r[i] == k
    ensures forall i :: 0 <= i < |s| ==> s[i] in r
    ensures NoDup(s) ==> NoDup(r)
  {
    var rest := Without(s, k);
    assert NoDup(s) ==> NoDup([k] + rest) by {
      if NoDup(s) { PushNoDup(k, rest); }
    }
    [k] + rest
  }

  /** Prepending a key absent from a duplicate-free sequence keeps it duplicate-free. */
  lemma PushNoDup<K>(x: K, s: seq<K>)
    requires NoDup(s) && x !in s
    ensures NoDup([x] + s)
  {
    var t := [x] + s;
    forall i, j | 0 <= i < j < |t| ensures t[i] != t[j] {
      if i == 0 {
        assert t[j] == s[j-1];
      } else {
        assert t[i] == s[i-1] && t[j] == s[j-1];
      }
    }
  }

  /** Keeping every element changes nothing. */
  lemma {:induction false} KeepAll<K>(s: seq<K>, keys: set<K>)
    requires forall i :: 0 <= i < |s| ==> s[i] in keys
    ensures Keep(s, keys) == s
  {
    if |s| > 0 {
      KeepAll(s[1..], keys);
    }
  }

  /** Keeping every element but the one at position `i` splices that one out. */
  lemma {:induction false} KeepSplice<K>(s: seq<K>, keys: set<K>, i: nat)
    requires i < |s| && s[i] !in keys
    requires forall j :: 0 <= j < |s| && j != i ==> s[j] in keys
    ensures Keep(s, keys) == s[..i] + s[i+1..]
  {
    var t := s[1..];
    if i == 0 {
      KeepAll(t, keys);
    } else {
      assert s[0] in keys;
      assert forall j :: 0 <= j < |t| && j != i - 1 ==> t[j] in keys by {
        forall j | 0 <= j < |t| && j != i - 1 ensures t[j] in keys {
          assert t[j] == s[j+1];
        }
      }
      KeepSplice(t, keys, i - 1);
      assert Keep(s, keys) == [s[0]] + (t[..i-1] + t[i..]);
      SpliceCons(s, i);
    }
  }

  /** Splicing out position `i > 0` commutes with taking the head off. */
  lemma SpliceCons<K>(s: seq<K>, i: nat)
    requires 0 < i < |s|
    ensures [s[0]] + (s[1..][..i-1] + s[1..][i..]) == s[..i] + s[i+1..]
  {
    assert s[1..][..i-1] == s[1..i];
    assert s[1..][i..] == s[i+1..];
    assert s[..i] == [s[0]] + s[1..i];
  }

  /** `Keep` takes a subsequence. */
  lemma {:induction false} KeepSubseq<K>(s: seq<K>, keys: set<K>)
    ensures Subseq(Keep(s, keys), s)
  {
    if |s| > 0 {
      KeepSubseq(s[1..], keys);
      var r := Keep(s, keys);
      if s[0] !in keys && |r| > 0 {
        assert r[0] in keys;
      }
    }
  }

  /** Removing a key takes a subsequence. */
  lemma WithoutSubseq<K>(s: seq<K>, k: K)
    ensures Subseq(Without(s, k), s)
  {
    KeepSubseq(s, (set x | x in s && x != k));
  }

  /** Removing the key at position `i` of a duplicate-free sequence splices it out. */
  lemma WithoutSplice<K>(s: seq<K>, i: nat)
    requires NoDup(s) && i < |s|
    ensures Without(s, s[i]) == s[..i] + s[i+1..]
    ensures |Without(s, s[i])| == |s| - 1
  {
    KeepSplice(s, (set x | x in s && x != s[i]), i);
  }

  /** Moving the key at position `i` to the front leaves the other keys in order. */
  lemma ToFrontSplice<K>(s: seq<K>, i: nat)
    requires NoDup(s) && i < |s|
    ensures ToFront(s, s[i]) == [s[i]] + (s[..i] + s[i+1..])
    ensures |ToFront(s, s[i])| == |s|
  {
    WithoutSplice(s, i);
  }

  /** A duplicate-free sequence has as many distinct keys as elements. */
  lemma {:induction false} NoDupCard<K>(s: seq<K>)
    requires NoDup(s)
    ensures |Elems(s)| == |s|
  {
    if |s| > 0 {
      assert NoDup(s[1..]);
      NoDupCard(s[1..]);
      assert Elems(s) == {s[0]} + Elems(s[1..]);
      assert s[0] !in Elems(s[1..]);
    }
  }

  /** Every element of a subsequence occurs in the sequence it was taken from. */
  lemma {:induction false} SubseqElems<K>(a: seq<K>, b: seq<K>)
    requires Subseq(a, b)
    ensures forall x :: x in a ==> x in b
    decreases |b|
  {
    if |a| > 0 && |b| > 0 {
      if a[0] == b[0] {
        SubseqElems(a[1..], b[1..]);
        assert forall x :: x in a ==> x == a[0] || x in a[1..];
      } else {
        SubseqElems(a, b[1..]);
      }
    }
  }

  /** A subsequence of a sequence along which `rank` never increases inherits that property. */
  lemma {:induction false} SubseqAntitone<K>(a: seq<K>, b: seq<K>, rank: K -> int)
    requires Subseq(a, b) && Antitone(b, rank)
    ensures Antitone(a, rank)
    decreases |b|
  {
    if |a| > 0 && |b| > 0 {
      assert Antitone(b[1..], rank);
      if a[0] == b[0] {
        SubseqAntitone(a[1..], b[1..], rank);
        SubseqElems(a[1..], b[1..]);
        forall i, j | 0 <= i < j < |a|
          ensures rank(a[j]) <= rank(a[i])
        {
          if i == 0 {
            assert a[j] == a[1..][j-1];
            assert a[j] in b[1..];
            var q :| 0 <= q < |b[1..]| && b[1..][q] == a[j];
            assert b[q+1] == a[j];
          } else {
            assert a[i] == a[1..][i-1] && a[j] == a[1..][j-1];
          }
        }
      } else {
        SubseqAntitone(a, b[1..], rank);
      }
    }
  }

  /** A key ranked at least as high as everything in `s` can go in front of it. */
  lemma AntitoneCons<K>(k: K, s: seq<K>, rank: K -> int)
    requires Antitone(s, rank)
    requires forall i :: 0 <= i < |s| ==> rank(s[i]) <= rank(k)
    ensures Antitone([k] + s, rank)
  {
    var t := [k] + s;
    forall i, j | 0 <= i < j < |t| ensures rank(t[j]) <= rank(t[i]) {
      if i == 0 { assert t[j] == s[j-1]; }
      else { assert t[i] == s[i-1] && t[j] == s[j-1]; }
    }
  }

  /** Only the ranks of the keys in `s` matter to `Antitone(s, _)`. */
  lemma AntitoneAgree<K>(s: seq<K>, f: K -> int, g: K -> int)
    requires Antitone(s, f)
    requires forall i :: 0 <= i < |s| ==> f(s[i]) == g(s[i])
    ensures Antitone(s, g)
  {
  }

  /** Every sequence is a subsequence of itself. */
  lemma {:induction false} SubseqRefl<K>(s: seq<K>)
    ensures Subseq(s, s)
  {
    if |s| > 0 {
      SubseqRefl(s[1..]);
    }
  }

  /** A prefix is a subsequence. */
  lemma {:induction false} PrefixSubseq<K>(s: seq<K>, n: nat)
    requires n <= |s|
    ensures Subseq(s[..n], s)
  {
    if n > 0 {
      PrefixSubseq(s[1..], n - 1);
      assert s[..n][1..] == s[1..][..n-1];
    }
  }
}
