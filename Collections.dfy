/**
 * Duplicate-free sequences, Python's `zip`, and `dict` as an
 * insertion-ordered list of (key, value) pairs.
 */
module Collections {

  /** No element occurs twice. */
  predicate Distinct<T(==)>(s: seq<T>)
  {
    forall i, j :: 0 <= i < j < |s| ==> s[i] != s[j]
  }

  /** Python's `zip`: pairs up the two lists position by position, up to the shorter one. */
  function Zip<A, B>(a: seq<A>, b: seq<B>): seq<(A, B)>
  {
    var n := if |a| < |b| then |a| else |b|;
    seq(n, i requires 0 <= i < n => (a[i], b[i]))
  }

  /** The keys of a dictionary, in insertion order. */
  function KeysOf<K, V>(d: seq<(K, V)>): seq<K>
  {
    seq(|d|, i requires 0 <= i < |d| => d[i].0)
  }

  /**
   * Setting `d[k] = v` on an insertion-ordered dictionary: an existing key
   * keeps its place and takes the new value, a new key goes last.
   */
  function DictSet<K(==, !new), V>(d: seq<(K, V)>, k: K, v: V): (r: seq<(K, V)>)
    ensures forall j :: j in KeysOf(r) <==> j in KeysOf(d) || j == k
    ensures (k, v) in r
    ensures Distinct(KeysOf(d)) ==> Distinct(KeysOf(r))
    decreases |d|
  {
    assert d != [] ==> KeysOf(d) == [d[0].0] + KeysOf(d[1..]);
    if d == [] then
      assert KeysOf([(k, v)]) == [k];
      [(k, v)]
    else if d[0].0 == k then
      assert KeysOf([(k, v)] + d[1..]) == KeysOf(d);
      [(k, v)] + d[1..]
    else
      var rest := DictSet(d[1..], k, v);
      assert KeysOf([d[0]] + rest) == [d[0].0] + KeysOf(rest);
      assert Distinct(KeysOf(d)) ==> Distinct(KeysOf(d[1..])) && d[0].0 !in KeysOf(d[1..]) by {
        if Distinct(KeysOf(d)) {
          forall i, j | 0 <= i < j < |KeysOf(d[1..])|
            ensures KeysOf(d[1..])[i] != KeysOf(d[1..])[j]
          {
            assert KeysOf(d)[i + 1] != KeysOf(d)[j + 1];
          }
          forall i | 0 <= i < |KeysOf(d[1..])|
            ensures KeysOf(d[1..])[i] != d[0].0
          {
            assert KeysOf(d)[0] != KeysOf(d)[i + 1];
          }
        }
      }
      [d[0]] + rest
  }

  /** `dict(pairs)`: the pairs set one after another. */
  function DictOf<K(==, !new), V>(pairs: seq<(K, V)>): (r: seq<(K, V)>)
    ensures forall j :: j in KeysOf(r) <==> j in KeysOf(pairs)
    ensures Distinct(KeysOf(r))
  {
    if pairs == [] then []
    else
      var front := pairs[..|pairs| - 1];
      var last := pairs[|pairs| - 1];
      assert KeysOf(pairs) == KeysOf(front) + [last.0];
      DictSet(DictOf(front), last.0, last.1)
  }

  /** Setting a key the dictionary does not hold appends it last. */
  lemma {:induction false} DictSetNew<K(!new), V>(d: seq<(K, V)>, k: K, v: V)
    requires k !in KeysOf(d)
    ensures DictSet(d, k, v) == d + [(k, v)]
    decreases |d|
  {
    if d != [] {
      assert KeysOf(d)[0] == d[0].0;
      assert KeysOf(d[1..]) == KeysOf(d)[1..];
      DictSetNew(d[1..], k, v);
      assert d == [d[0]] + d[1..];
    }
  }

  /** With no key twice, `dict(pairs)` keeps every pair, in order. */
  lemma {:induction false} DictOfDistinct<K(!new), V>(pairs: seq<(K, V)>)
    requires Distinct(KeysOf(pairs))
    ensures DictOf(pairs) == pairs
    decreases |pairs|
  {
    if pairs != [] {
      var front := pairs[..|pairs| - 1];
      var last := pairs[|pairs| - 1];
      DistinctFront(pairs);
      DictOfDistinct(front);
      DictSetNew(front, last.0, last.1);
      assert pairs == front + [last];
    }
  }

  /** Dropping the last pair keeps the keys distinct, and the last key is not among the others. */
  lemma DistinctFront<K, V>(pairs: seq<(K, V)>)
    requires pairs != [] && Distinct(KeysOf(pairs))
    ensures Distinct(KeysOf(pairs[..|pairs| - 1]))
    ensures pairs[|pairs| - 1].0 !in KeysOf(pairs[..|pairs| - 1])
  {
    var front := pairs[..|pairs| - 1];
    assert KeysOf(front) == KeysOf(pairs)[..|pairs| - 1];
    forall i | 0 <= i < |front|
      ensures KeysOf(front)[i] != pairs[|pairs| - 1].0
    {
      assert KeysOf(pairs)[i] != KeysOf(pairs)[|pairs| - 1];
    }
  }
}
