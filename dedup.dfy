/** De-duplication by key in first-occurrence order, as the `seen_nodes` /
    `seen_edges` loops of `get_knowledge_graph` perform it, and the
    element-wise conversion applied to what they keep. */
module Seen {

  /** The keys of the elements of `s`. */
  function KeySet<T(==)>(s: seq<T>, key: T -> int): set<int>
  {
    set x | x in s :: key(x)
  }

  /** Keeps an element only when no earlier element has its key. Defined
      from the last element backwards, the way a left-to-right loop with a
      `seen` set grows its output. */
  function Dedup<T(==)>(s: seq<T>, key: T -> int): (r: seq<T>)
    ensures |r| <= |s|
  {
    if s == [] then []
    else
      var d := Dedup(s[..|s| - 1], key);
      if key(s[|s| - 1]) in KeySet(d, key) then d else d + [s[|s| - 1]]
  }

  /** `[f(x) for x in s]`. */
  function MapSeq<T, U>(f: T -> U, s: seq<T>): (r: seq<U>)
    ensures |r| == |s|
    ensures forall i :: 0 <= i < |s| ==> r[i] == f(s[i])
  {
    if s == [] then [] else MapSeq(f, s[..|s| - 1]) + [f(s[|s| - 1])]
  }

  /** The index of the first element of `s` whose key is `k`. */
  function FirstIndex<T(==)>(s: seq<T>, key: T -> int, k: int): (j: nat)
    requires k in KeySet(s, key)
    ensures j < |s| && key(s[j]) == k
    ensures forall i :: 0 <= i < j ==> key(s[i]) != k
  {
    if key(s[0]) == k then 0
    else
      assert k in KeySet(s[1..], key) by {
        var x :| x in s && key(x) == k;
        assert x != s[0];
      }
      1 + FirstIndex(s[1..], key, k)
  }

  lemma FirstIndexIs<T>(s: seq<T>, key: T -> int, j: nat)
    requires j < |s| && forall i :: 0 <= i < j ==> key(s[i]) != key(s[j])
    ensures key(s[j]) in KeySet(s, key) && FirstIndex(s, key, key(s[j])) == j
  {
    assert s[j] in s;
  }

  lemma KeySetSnoc<T>(s: seq<T>, x: T, key: T -> int)
    ensures KeySet(s + [x], key) == KeySet(s, key) + {key(x)}
  {
    assert forall y :: y in s + [x] <==> y in s || y == x;
  }

  lemma KeyInKeySet<T>(s: seq<T>, key: T -> int, i: int)
    requires 0 <= i < |s|
    ensures key(s[i]) in KeySet(s, key)
  {
    assert s[i] in s;
  }

  /** De-duplication keeps every key and invents none. */
  lemma {:induction false} DedupKeys<T>(s: seq<T>, key: T -> int)
    ensures KeySet(Dedup(s, key), key) == KeySet(s, key)
  {
    if s != [] {
      var p, x := s[..|s| - 1], s[|s| - 1];
      assert s == p + [x];
      DedupKeys(p, key);
      KeySetSnoc(p, x, key);
      var d := Dedup(p, key);
      if key(x) !in KeySet(d, key) {
        KeySetSnoc(d, x, key);
      }
    }
  }

  /** No two elements of `r` share a key. */
  ghost predicate KeysDistinct<T>(r: seq<T>, key: T -> int)
  {
    forall i, j :: 0 <= i < j < |r| ==> key(r[i]) != key(r[j])
  }

  /** No two kept elements share a key. */
  lemma {:induction false} DedupDistinct<T>(s: seq<T>, key: T -> int)
    ensures KeysDistinct(Dedup(s, key), key)
  {
    if s != [] {
      var p, x := s[..|s| - 1], s[|s| - 1];
      DedupDistinct(p, key);
      var d := Dedup(p, key);
      if key(x) !in KeySet(d, key) {
        forall i | 0 <= i < |d| ensures key(d[i]) != key(x) {
          KeyInKeySet(d, key, i);
        }
        var r := d + [x];
        assert Dedup(s, key) == r;
        forall i, j | 0 <= i < j < |r| ensures key(r[i]) != key(r[j]) {
          assert r[i] == d[i];
          if j < |d| {
            assert r[j] == d[j];
            assert key(d[i]) != key(d[j]);
          } else {
            assert r[j] == x;
            assert key(d[i]) != key(x);
          }
        }
      } else {
        assert Dedup(s, key) == d;
      }
    }
  }

  /** Every kept element is an element of the input. */
  lemma {:induction false} DedupElements<T>(s: seq<T>, key: T -> int)
    ensures forall y :: y in Dedup(s, key) ==> y in s
  {
    if s != [] {
      var p := s[..|s| - 1];
      DedupElements(p, key);
      assert forall y :: y in p ==> y in s;
    }
  }

  /** Each kept element is the first element of the input with its key, and
      the kept elements come in the order of those first occurrences. */
  lemma {:induction false} DedupFirstOccurrence<T>(s: seq<T>, key: T -> int)
    ensures var r := Dedup(s, key);
            forall i :: 0 <= i < |r| ==> key(r[i]) in KeySet(s, key) && r[i] == s[FirstIndex(s, key, key(r[i]))]
    ensures var r := Dedup(s, key);
            forall i, j :: 0 <= i < j < |r| ==>
              && key(r[i]) in KeySet(s, key) && key(r[j]) in KeySet(s, key)
              && FirstIndex(s, key, key(r[i])) < FirstIndex(s, key, key(r[j]))
  {
    var r := Dedup(s, key);
    if s != [] {
      var n := |s| - 1;
      var p, x := s[..n], s[n];
      DedupFirstOccurrence(p, key);
      DedupKeys(p, key);
      var d := Dedup(p, key);
      // A key of the prefix has the same first index in the whole input.
      forall k | k in KeySet(p, key)
        ensures k in KeySet(s, key) && FirstIndex(s, key, k) == FirstIndex(p, key, k) < n
      {
        var j := FirstIndex(p, key, k);
        assert s[j] == p[j];
        FirstIndexIs(s, key, j);
      }
      if key(x) !in KeySet(d, key) {
        forall i | 0 <= i < n ensures key(s[i]) != key(x) {
          KeyInKeySet(p, key, i);
        }
        FirstIndexIs(s, key, n);
        forall i | 0 <= i < |d| ensures key(d[i]) in KeySet(p, key) {
          KeyInKeySet(d, key, i);
        }
      }
    }
  }

  /** One more element: kept exactly when its key is new. */
  lemma DedupSnoc<T>(s: seq<T>, x: T, key: T -> int)
    ensures Dedup(s + [x], key)
         == if key(x) in KeySet(Dedup(s, key), key) then Dedup(s, key) else Dedup(s, key) + [x]
  {
    assert (s + [x])[..|s|] == s;
  }

  /** The `seen`-guarded loop: walks `s` once, appends `f(x)` for each
      element whose key is not yet in `seen`, and adds that key to `seen`. */
  method KeepFirst<T(==), U>(s: seq<T>, key: T -> int, f: T -> U) returns (out: seq<U>)
    ensures out == MapSeq(f, Dedup(s, key))
  {
    out := [];
    var seen: set<int> := {};
    ghost var kept: seq<T> := [];
    var i := 0;
    while i < |s|
      invariant 0 <= i <= |s|
      invariant kept == Dedup(s[..i], key)
      invariant out == MapSeq(f, kept)
      invariant seen == KeySet(kept, key)
    {
      var x := s[i];
      DedupPrefixStep(s, i, key, f);
      if key(x) !in seen {
        kept := kept + [x];
        out := out + [f(x)];
        seen := seen + {key(x)};
      }
      i := i + 1;
    }
    assert s[..i] == s;
  }

  /** One step of a `seen`-guarded loop over `s`: the element at `i` is
      kept exactly when its key is not among the keys kept so far, and
      keeping it adds its key and its image. */
  lemma DedupPrefixStep<T, U>(s: seq<T>, i: int, key: T -> int, f: T -> U)
    requires 0 <= i < |s|
    ensures var d := Dedup(s[..i], key);
            && (key(s[i]) in KeySet(d, key) ==> Dedup(s[..i + 1], key) == d)
            && (key(s[i]) !in KeySet(d, key) ==>
                  && Dedup(s[..i + 1], key) == d + [s[i]]
                  && KeySet(d + [s[i]], key) == KeySet(d, key) + {key(s[i])}
                  && MapSeq(f, d + [s[i]]) == MapSeq(f, d) + [f(s[i])])
  {
    assert s[..i + 1] == s[..i] + [s[i]];
    DedupSnoc(s[..i], s[i], key);
    KeySetSnoc(Dedup(s[..i], key), s[i], key);
    MapSeqSnoc(f, Dedup(s[..i], key), s[i]);
  }

  lemma MapSeqSnoc<T, U>(f: T -> U, s: seq<T>, x: T)
    ensures MapSeq(f, s + [x]) == MapSeq(f, s) + [f(x)]
  {
  }

  /** `DedupFirstOccurrence` at one index. */
  lemma DedupFirstAt<T>(s: seq<T>, key: T -> int, i: int)
    requires 0 <= i < |Dedup(s, key)|
    ensures key(Dedup(s, key)[i]) in KeySet(s, key)
    ensures Dedup(s, key)[i] == s[FirstIndex(s, key, key(Dedup(s, key)[i]))]
  {
    DedupFirstOccurrence(s, key);
  }

  /** The order part of `DedupFirstOccurrence` for one pair of indices. */
  lemma DedupOrderAt<T>(s: seq<T>, key: T -> int, i: int, j: int)
    requires 0 <= i < j < |Dedup(s, key)|
    ensures key(Dedup(s, key)[i]) in KeySet(s, key) && key(Dedup(s, key)[j]) in KeySet(s, key)
    ensures FirstIndex(s, key, key(Dedup(s, key)[i])) < FirstIndex(s, key, key(Dedup(s, key)[j]))
  {
    DedupFirstOccurrence(s, key);
  }
}
