/** The end of a sequence, as bounded logs and windows keep it, and orders of the keys of a map. */
module Sequences {

  lemma Assoc<T>(a: seq<T>, b: seq<T>, c: seq<T>)
    ensures (a + b) + c == a + (b + c)
  {
  }

  /** The last `n` elements of `s`, or all of them. */
  function LastN<T>(s: seq<T>, n: nat): (r: seq<T>)
    ensures |r| == if |s| <= n then |s| else n
  {
    if |s| <= n then s else s[|s| - n..]
  }

  /** A window can be cut before or after more arrives: older elements never come back. */
  lemma LastNAbsorbs<T>(s: seq<T>, more: seq<T>, n: nat)
    ensures LastN(LastN(s, n) + more, n) == LastN(s + more, n)
  {
    if |s| > n {
      assert s + more == s[..|s| - n] + (LastN(s, n) + more);
    }
  }

  /** Cutting to a larger window first loses nothing a smaller window keeps. */
  lemma LastNShrinks<T>(s: seq<T>, n: nat, m: nat)
    requires m <= n
    ensures LastN(LastN(s, n), m) == LastN(s, m)
  {
  }

  lemma OneMore<T>(s: seq<T>, i: nat)
    requires i < |s|
    ensures s[..i] + [s[i]] == s[..i + 1] && s[..i + 1][..i] == s[..i]
  {
  }

  predicate Distinct<T(==)>(s: seq<T>) {
    forall i, j :: 0 <= i < j < |s| ==> s[i] != s[j]
  }

  lemma DistinctOneMore<T>(s: seq<T>, x: T)
    requires Distinct(s) && x !in s
    ensures Distinct(s + [x])
  {
  }

  /** An order in which Go's range might give the keys of a map. */
  ghost predicate Lists(order: seq<string>, keys: set<string>) {
    (forall key :: key in keys <==> key in order) && Distinct(order)
  }

  lemma ListsOneMore(order: seq<string>, keys: set<string>, key: string)
    requires Lists(order, keys) && key !in keys
    ensures Lists(order + [key], keys + {key})
  {
  }

  /** The keys of a map, in the order a range over it happens to take. */
  method KeysOf<V>(m: map<string, V>) returns (order: seq<string>)
    ensures Lists(order, m.Keys)
  {
    var left := m.Keys;
    order := [];
    while left != {}
      invariant left <= m.Keys && Lists(order, m.Keys - left)
      decreases |left|
    {
      var key :| key in left;
      ListsOneMore(order, m.Keys - left, key);
      assert m.Keys - left + {key} == m.Keys - (left - {key});
      order := order + [key];
      left := left - {key};
    }
    assert m.Keys - {} == m.Keys;
  }
}
