/**
 * Python's dict as the checkpoint helper uses it: keys in insertion order,
 * a value per key, assignment that appends a new key and keeps an existing
 * key's place, and `pop`.
 */
module PyDict {

  /** No item occurs twice. */
  predicate Distinct<K(==)>(s: seq<K>) {
    forall i, j :: 0 <= i < j < |s| ==> s[i] != s[j]
  }

  /** s with k taken out, the rest in order. */
  function Without<K(==,!new)>(s: seq<K>, k: K): (r: seq<K>)
    ensures forall x :: x in r <==> x in s && x != k
    ensures Distinct(s) ==> Distinct(r)
    ensures k !in s ==> r == s
  {
    if |s| == 0 then []
    else if s[0] == k then Without(s[1..], k)
    else
      var rest := Without(s[1..], k);
      assert Distinct(s) ==> s[0] !in s[1..];
      [s[0]] + rest
  }

  /** Taking out the item at index i of a sequence without repeats leaves the items before and after it, in order. */
  lemma {:induction false} WithoutAt<K(!new)>(s: seq<K>, k: K, i: nat)
    requires Distinct(s) && i < |s| && s[i] == k
    ensures Without(s, k) == s[..i] + s[i + 1..]
    decreases i
  {
    if i == 0 {
      assert k !in s[1..] by {
        forall j | 0 <= j < |s| - 1 ensures s[1..][j] != k {
          assert s[1..][j] == s[j + 1];
        }
      }
    } else {
      assert s[0] != s[i];
      assert Distinct(s[1..]) by {
        forall a, b | 0 <= a < b < |s| - 1 ensures s[1..][a] != s[1..][b] {
          assert s[1..][a] == s[a + 1] && s[1..][b] == s[b + 1];
        }
      }
      WithoutAt(s[1..], k, i - 1);
      assert s[..i] + s[i + 1..] == [s[0]] + (s[1..][..i - 1] + s[1..][i..]);
    }
  }

  /** The empty dict `{}`. */
  const Empty: Dict<string, string> := Dict([], map[])

  /** A dict: its keys in insertion order and the value of each. */
  datatype Dict<K(==,!new), V> = Dict(keys: seq<K>, entries: map<K, V>) {

    /** The keys are distinct and are exactly the keys of the map. */
    ghost predicate Valid() {
      && Distinct(keys)
      && forall k :: k in entries <==> k in keys
    }

    /** `d[k] = v`: a new key goes last, an existing key keeps its place. */
    function Put(k: K, v: V): (r: Dict<K, V>)
      requires Valid()
      ensures r.Valid() && r.entries == entries[k := v]
      ensures r.keys == if k in entries then keys else keys + [k]
    {
      if k in entries then Dict(keys, entries[k := v]) else Dict(keys + [k], entries[k := v])
    }

    /** `d.pop(k)` on a present key: its value, and the dict without it. */
    function Pop(k: K): (r: (Dict<K, V>, V))
      requires Valid() && k in entries
      ensures r.0.Valid() && r.1 == entries[k]
      ensures r.0.entries == entries - {k} && r.0.keys == Without(keys, k)
    {
      (Dict(Without(keys, k), entries - {k}), entries[k])
    }
  }
}
