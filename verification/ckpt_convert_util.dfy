/**
 * MsCkptRefactorHelper: renames the tensors of a checkpoint by rewriting each
 * name with the substring map read from JSON, then optionally transposes the
 * two-dimensional tensors.  Tensors are opaque values of type T; loading the
 * checkpoint, reading the JSON file, `dim()` and `ops.transpose` are inputs.
 */
module CkptConvertUtil {
  import opened PyDict

  // ---------------------------------------------------------------------------
  // str.replace

  /** `pattern` occurs in s: at its start or further on. */
  predicate Occurs(pattern: string, s: string)
    decreases |s|
  {
    |pattern| <= |s| && (s[..|pattern|] == pattern || (|s| > 0 && Occurs(pattern, s[1..])))
  }

  /** `s.replace("", replacement)`: the replacement before every character and at the end. */
  function InsertEverywhere(s: string, replacement: string): (r: string)
    ensures |r| == |s| + (|s| + 1) * |replacement|
  {
    if |s| == 0 then replacement
    else replacement + [s[0]] + InsertEverywhere(s[1..], replacement)
  }

  /** Where block i of `s.replace("", replacement)` starts, when the replacement has m characters. */
  function BlockStart(i: nat, m: nat): (b: nat)
    ensures b == i * (m + 1)
  {
    if i == 0 then 0 else BlockStart(i - 1, m) + m + 1
  }

  /** Character i of s closes block i, right after a copy of the replacement. */
  lemma {:induction false} InsertedCharAt(s: string, replacement: string, i: nat)
    requires i < |s|
    ensures var r, m := InsertEverywhere(s, replacement), |replacement|;
      BlockStart(i, m) + m < |r| && r[BlockStart(i, m) + m] == s[i]
    decreases i
  {
    var m, rest := |replacement|, InsertEverywhere(s[1..], replacement);
    var r := replacement + [s[0]] + rest;
    assert InsertEverywhere(s, replacement) == r;
    if i > 0 {
      InsertedCharAt(s[1..], replacement, i - 1);
      assert r[m + 1 + BlockStart(i - 1, m) + m] == rest[BlockStart(i - 1, m) + m];
    }
  }

  /** Block i (for every i up to |s|) starts with a copy of the replacement. */
  lemma {:induction false} InsertedBlockAt(s: string, replacement: string, i: nat)
    requires i <= |s|
    ensures var r, m := InsertEverywhere(s, replacement), |replacement|;
      BlockStart(i, m) + m <= |r| && r[BlockStart(i, m)..BlockStart(i, m) + m] == replacement
    decreases i
  {
    var m := |replacement|;
    if |s| > 0 {
      var rest := InsertEverywhere(s[1..], replacement);
      var r := replacement + [s[0]] + rest;
      assert InsertEverywhere(s, replacement) == r;
      if i > 0 {
        var b := BlockStart(i - 1, m);
        InsertedBlockAt(s[1..], replacement, i - 1);
        assert r[m + 1 + b..m + 1 + b + m] == rest[b..b + m];
      } else {
        assert r[..m] == replacement;
      }
    }
  }

  /**
   * Where the characters go: block i of |replacement| + 1 characters is the
   * replacement followed by s[i], and the last block is the replacement alone.
   */
  lemma InsertEverywhereAt(s: string, replacement: string)
    ensures var r, m := InsertEverywhere(s, replacement), |replacement|;
      && (forall i :: 0 <= i < |s| ==> BlockStart(i, m) + m < |r| && r[BlockStart(i, m) + m] == s[i])
      && (forall i :: 0 <= i <= |s| ==>
            BlockStart(i, m) + m <= |r| && r[BlockStart(i, m)..BlockStart(i, m) + m] == replacement)
  {
    forall i | 0 <= i < |s| {
      InsertedCharAt(s, replacement, i);
    }
    forall i | 0 <= i <= |s| {
      InsertedBlockAt(s, replacement, i);
    }
  }

  /**
   * `s.replace(pattern, replacement)`: every occurrence of a non-empty pattern,
   * found left to right without overlapping, is replaced.
   */
  function Replace(s: string, pattern: string, replacement: string): string
    decreases |s|
  {
    if |pattern| == 0 then InsertEverywhere(s, replacement)
    else if |s| < |pattern| then s
    else if s[..|pattern|] == pattern then replacement + Replace(s[|pattern|..], pattern, replacement)
    else [s[0]] + Replace(s[1..], pattern, replacement)
  }

  /** A string without the (non-empty) pattern is left as it is. */
  lemma {:induction false} ReplaceAbsent(s: string, pattern: string, replacement: string)
    requires |pattern| > 0 && !Occurs(pattern, s)
    ensures Replace(s, pattern, replacement) == s
    decreases |s|
  {
    if |s| >= |pattern| {
      ReplaceAbsent(s[1..], pattern, replacement);
      assert [s[0]] + s[1..] == s;
    }
  }

  /** Inserting the empty string everywhere changes nothing: `s.replace("", "") == s`. */
  lemma {:induction false} InsertNothing(s: string)
    ensures InsertEverywhere(s, "") == s
    decreases |s|
  {
    if |s| > 0 {
      InsertNothing(s[1..]);
      assert [s[0]] + s[1..] == s;
    }
  }

  /** Replacing a pattern by itself changes nothing. */
  lemma {:induction false} ReplaceSelf(s: string, pattern: string)
    ensures Replace(s, pattern, pattern) == s
    decreases |s|
  {
    if |pattern| == 0 {
      InsertNothing(s);
    } else if |s| >= |pattern| {
      if s[..|pattern|] == pattern {
        ReplaceSelf(s[|pattern|..], pattern);
        assert pattern + s[|pattern|..] == s;
      } else {
        ReplaceSelf(s[1..], pattern);
        assert [s[0]] + s[1..] == s;
      }
    }
  }

  // ---------------------------------------------------------------------------
  // The new name of a layer

  /** The name after the replacements of the first n keys of the map, each acting on the previous result. */
  function RenameWith(name: string, nameMap: Dict<string, string>, n: nat): string
    requires nameMap.Valid() && n <= |nameMap.keys|
  {
    if n == 0 then name
    else
      var key := nameMap.keys[n - 1];
      Replace(RenameWith(name, nameMap, n - 1), key, nameMap.entries[key])
  }

  /** The new name of a layer: `str.replace(k, v)` folded over the map in its order. */
  function Rename(name: string, nameMap: Dict<string, string>): string
    requires nameMap.Valid()
  {
    RenameWith(name, nameMap, |nameMap.keys|)
  }

  /** A name in which no key of the map occurs, at any step, maps to itself. */
  lemma {:induction false} RenameUntouched(name: string, nameMap: Dict<string, string>)
    requires nameMap.Valid()
    requires forall k :: k in nameMap.keys ==> |k| > 0 && !Occurs(k, name)
    ensures Rename(name, nameMap) == name
  {
    var n := 0;
    while n < |nameMap.keys|
      invariant n <= |nameMap.keys| && RenameWith(name, nameMap, n) == name
    {
      ReplaceAbsent(name, nameMap.keys[n], nameMap.entries[nameMap.keys[n]]);
      n := n + 1;
    }
  }

  /** A map whose every value is its own key renames nothing. */
  lemma {:induction false} RenameByIdentity(name: string, nameMap: Dict<string, string>)
    requires nameMap.Valid()
    requires forall k :: k in nameMap.keys ==> nameMap.entries[k] == k
    ensures Rename(name, nameMap) == name
  {
    var n := 0;
    while n < |nameMap.keys|
      invariant n <= |nameMap.keys| && RenameWith(name, nameMap, n) == name
    {
      ReplaceSelf(name, nameMap.keys[n]);
      n := n + 1;
    }
  }

  // ---------------------------------------------------------------------------
  // Moving the tensors to their new names

  /** `d[to] = d.pop(from)`: the pop happens first, then the assignment. */
  function Move<V>(d: Dict<string, V>, from: string, to: string): (r: Dict<string, V>)
    requires d.Valid() && from in d.entries
    ensures r.Valid()
  {
    var popped := d.Pop(from);
    popped.0.Put(to, popped.1)
  }

  /** A layer renamed to itself keeps its tensor: the pop and the assignment cancel out. */
  lemma MoveToSelf<V>(d: Dict<string, V>, name: string)
    requires d.Valid() && name in d.entries
    ensures Move(d, name, name).entries == d.entries
  {
  }

  /** A move leaves every other name's entry as it was. */
  lemma MoveKeeps<V>(d: Dict<string, V>, from: string, to: string, x: string)
    requires d.Valid() && from in d.entries && x in d.entries && x != from && x != to
    ensures x in Move(d, from, to).entries && Move(d, from, to).entries[x] == d.entries[x]
  {
  }

  /** The move loop of `_layer_rename` over the first originals, in order. */
  function MoveAll<V>(d: Dict<string, V>, originals: seq<string>, renames: map<string, string>)
    : (r: Dict<string, V>)
    requires d.Valid() && Distinct(originals)
    requires forall x :: x in originals ==> x in d.entries && x in renames
    ensures r.Valid()
    ensures forall x :: x in d.entries && x !in originals ==> x in r.entries
    decreases |originals|
  {
    if |originals| == 0 then d
    else
      var n := |originals| - 1;
      Move(MoveAll(d, originals[..n], renames), originals[n], renames[originals[n]])
  }

  /** The first k + 1 moves are the first k followed by one more. */
  lemma MoveAllPrefix<V>(d: Dict<string, V>, originals: seq<string>, renames: map<string, string>, k: nat)
    requires d.Valid() && Distinct(originals)
    requires forall x :: x in originals ==> x in d.entries && x in renames
    requires k < |originals|
    ensures Distinct(originals[..k]) && forall x :: x in originals[..k] ==> x in d.entries && x in renames
    ensures Distinct(originals[..k + 1]) && forall x :: x in originals[..k + 1] ==> x in d.entries && x in renames
    ensures MoveAll(d, originals[..k], renames).Valid() && originals[k] in MoveAll(d, originals[..k], renames).entries
    ensures MoveAll(d, originals[..k + 1], renames)
         == Move(MoveAll(d, originals[..k], renames), originals[k], renames[originals[k]])
  {
    PrefixKeeps(originals, k);
    PrefixKeeps(originals, k + 1);
    var before := MoveAll(d, originals[..k], renames);
    NotBefore(originals, k);
    assert originals[k] in before.entries;
    var upTo := originals[..k + 1];
    assert upTo[..k] == originals[..k] && upTo[k] == originals[k];
  }

  /** In a sequence without repeats, no item occurs before its own place. */
  lemma NotBefore<T>(s: seq<T>, i: nat)
    requires Distinct(s) && i < |s|
    ensures s[i] !in s[..i]
  {
    forall j | 0 <= j < i ensures s[..i][j] != s[i] {
      assert s[..i][j] == s[j];
    }
  }

  /** A prefix of a sequence keeps its distinctness, and its items are items of the sequence. */
  lemma PrefixKeeps<T>(s: seq<T>, k: nat)
    requires k <= |s|
    ensures Distinct(s) ==> Distinct(s[..k])
    ensures forall x :: x in s[..k] ==> x in s
  {
    forall x | x in s[..k] ensures x in s {
      var i :| 0 <= i < k && s[..k][i] == x;
      assert s[i] == x;
    }
  }

  /**
   * Without collisions — no new name is another original name, and no two
   * originals get the same new name — every new name holds the tensor of its
   * original, every original not yet moved keeps its own, and nothing else is
   * in the dict.
   */
  lemma {:induction false} MoveAllWithoutCollision<V>(d: Dict<string, V>, originals: seq<string>, renames: map<string, string>)
    requires d.Valid() && Distinct(originals)
    requires forall x :: x in originals ==> x in d.entries && x in renames
    requires forall a, b :: a in originals && b in d.entries && a != b ==> renames[a] != b
    requires forall a, b :: a in originals && b in originals && a != b ==> renames[a] != renames[b]
    ensures var r := MoveAll(d, originals, renames);
      && (forall a :: a in originals ==> renames[a] in r.entries && r.entries[renames[a]] == d.entries[a])
      && (forall b :: b in d.entries && b !in originals ==> b in r.entries && r.entries[b] == d.entries[b])
      && (forall k :: k in r.entries ==>
            (k in d.entries && k !in originals) || exists a :: a in originals && renames[a] == k)
    decreases |originals|
  {
    if |originals| > 0 {
      var n := |originals| - 1;
      var prefix, last := originals[..n], originals[n];
      assert originals == prefix + [last];
      assert last !in prefix;
      MoveAllWithoutCollision(d, prefix, renames);
      var before := MoveAll(d, prefix, renames);
      var after := Move(before, last, renames[last]);
      assert after.entries == (before.entries - {last})[renames[last] := d.entries[last]];
      forall a | a in originals
        ensures renames[a] in after.entries && after.entries[renames[a]] == d.entries[a]
      {
        if a != last {
          assert a in prefix;
        }
      }
      forall b | b in d.entries && b !in originals
        ensures b in after.entries && after.entries[b] == d.entries[b]
      {
        assert b !in prefix && b != renames[last];
      }
      forall k | k in after.entries
        ensures (k in d.entries && k !in originals) || exists a :: a in originals && renames[a] == k
      {
        if k == renames[last] {
          assert last in originals;
        } else if !(k in d.entries && k !in prefix) {
          var a :| a in prefix && renames[a] == k;
          assert a in originals;
        }
      }
    }
  }

  /** When every original is moved without collisions, the keys are exactly the new names. */
  lemma RenamedKeys<V>(d: Dict<string, V>, renames: map<string, string>)
    requires d.Valid() && forall x :: x in d.keys ==> x in renames
    requires forall a, b :: a in d.keys && b in d.keys && a != b ==> renames[a] != b && renames[a] != renames[b]
    ensures var r := MoveAll(d, d.keys, renames);
      && (forall k :: k in r.entries <==> exists a :: a in d.keys && renames[a] == k)
      && forall a :: a in d.keys ==> r.entries[renames[a]] == d.entries[a]
  {
    MoveAllWithoutCollision(d, d.keys, renames);
  }

  /** A name that move k neither takes from nor puts to keeps its tensor over that move. */
  lemma MoveAllKeepsStep<V>(d: Dict<string, V>, originals: seq<string>, renames: map<string, string>, k: nat, x: string)
    requires d.Valid() && Distinct(originals)
    requires forall y :: y in originals ==> y in d.entries && y in renames
    requires k < |originals| && originals[k] != x && renames[originals[k]] != x
    ensures Distinct(originals[..k]) && forall y :: y in originals[..k] ==> y in d.entries && y in renames
    ensures Distinct(originals[..k + 1]) && forall y :: y in originals[..k + 1] ==> y in d.entries && y in renames
    ensures var before, after := MoveAll(d, originals[..k], renames), MoveAll(d, originals[..k + 1], renames);
      x in before.entries ==> x in after.entries && after.entries[x] == before.entries[x]
  {
    MoveAllPrefix(d, originals, renames, k);
    var before := MoveAll(d, originals[..k], renames);
    if x in before.entries {
      MoveKeeps(before, originals[k], renames[originals[k]], x);
    }
  }

  /** A name that no move between step lo and step hi takes from or puts to keeps its tensor over those steps. */
  lemma {:induction false} MoveAllKeeps<V>(d: Dict<string, V>, originals: seq<string>, renames: map<string, string>,
                                           lo: nat, hi: nat, x: string)
    requires d.Valid() && Distinct(originals)
    requires forall y :: y in originals ==> y in d.entries && y in renames
    requires lo <= hi <= |originals|
    requires forall k :: lo <= k < hi ==> originals[k] != x && renames[originals[k]] != x
    ensures Distinct(originals[..lo]) && forall y :: y in originals[..lo] ==> y in d.entries && y in renames
    ensures Distinct(originals[..hi]) && forall y :: y in originals[..hi] ==> y in d.entries && y in renames
    ensures var before, after := MoveAll(d, originals[..lo], renames), MoveAll(d, originals[..hi], renames);
      x in before.entries ==> x in after.entries && after.entries[x] == before.entries[x]
    decreases hi - lo
  {
    PrefixKeeps(originals, lo);
    PrefixKeeps(originals, hi);
    if lo < hi {
      MoveAllKeeps(d, originals, renames, lo, hi - 1, x);
      MoveAllKeepsStep(d, originals, renames, hi - 1, x);
    } else {
      assert originals[..lo] == originals[..hi];
    }
  }

  /**
   * The hazard in general: when original i is renamed onto original j, a later
   * layer that has not moved yet, and nothing in between takes that name, then
   * just before j moves its entry holds the tensor of i, and j carries that
   * tensor to its own new name.  j's own tensor has been overwritten.
   */
  lemma CollisionOverwrites<V>(d: Dict<string, V>, originals: seq<string>, renames: map<string, string>, i: nat, j: nat)
    requires d.Valid() && Distinct(originals)
    requires forall y :: y in originals ==> y in d.entries && y in renames
    requires i < j < |originals| && renames[originals[i]] == originals[j]
    requires forall k :: 0 <= k < i ==> renames[originals[k]] != originals[i]
    requires forall k :: i < k < j ==> renames[originals[k]] != originals[j]
    ensures Distinct(originals[..j]) && forall y :: y in originals[..j] ==> y in d.entries && y in renames
    ensures Distinct(originals[..j + 1]) && forall y :: y in originals[..j + 1] ==> y in d.entries && y in renames
    ensures var before := MoveAll(d, originals[..j], renames);
      originals[j] in before.entries && before.entries[originals[j]] == d.entries[originals[i]]
    ensures var after := MoveAll(d, originals[..j + 1], renames);
      renames[originals[j]] in after.entries && after.entries[renames[originals[j]]] == d.entries[originals[i]]
  {
    var a, b := originals[i], originals[j];
    assert originals[..0] == [];
    MoveAllKeeps(d, originals, renames, 0, i, a);
    MoveAllPrefix(d, originals, renames, i);
    MoveAllKeeps(d, originals, renames, i + 1, j, b);
    MoveAllPrefix(d, originals, renames, j);
  }

  /**
   * The hazard: with the map {"a": "b"}, layer "a" is renamed onto layer "b",
   * which has not moved yet.  The assignment overwrites b's tensor, and b
   * then moves onto itself carrying a's tensor: b's own tensor is lost.
   */
  lemma CollisionLosesTensor()
    ensures var nameMap := Dict(["a"], map["a" := "b"]);
      var ckpt := Dict(["a", "b"], map["a" := 1, "b" := 2]);
      && Rename("a", nameMap) == "b" && Rename("b", nameMap) == "b"
      && MoveAll(ckpt, ckpt.keys, map["a" := "b", "b" := "b"]) == Dict(["b"], map["b" := 1])
  {
    var nameMap := Dict(["a"], map["a" := "b"]);
    assert "a"[..1] == "a";
    assert Replace("a", "a", "b") == "b" + Replace("", "a", "b");
    assert "b"[..1] == "b";
    assert Replace("b", "a", "b") == "b" + Replace("", "a", "b");
    var ckpt := Dict(["a", "b"], map["a" := 1, "b" := 2]);
    var renames := map["a" := "b", "b" := "b"];
    assert ["a", "b"][..1] == ["a"];
    assert ["a", "b"][..1][..0] == [];
    var afterA := MoveAll(ckpt, ["a"], renames);
    assert afterA == Move(ckpt, "a", "b");
    assert Without(["a", "b"], "a") == ["b"];
    assert afterA == Dict(["b"], map["b" := 1]);
    assert Without(["b"], "b") == [];
    assert Move(afterA, "b", "b") == Dict(["b"], map["b" := 1]);
  }

  // ---------------------------------------------------------------------------
  // Transposition

  /** Every two-dimensional tensor transposed, the others and the key order unchanged. */
  function Transposed<T>(d: Dict<string, T>, dim: T -> nat, transpose: T -> T): (r: Dict<string, T>)
  {
    Dict(d.keys, map k | k in d.entries :: if dim(d.entries[k]) == 2 then transpose(d.entries[k]) else d.entries[k])
  }

  /**
   * The dict after the first i iterations of the transpose loop: layer after
   * layer, in the dict's order, replaced by its transpose when two-dimensional.
   */
  function TransposedUpTo<T>(d: Dict<string, T>, dim: T -> nat, transpose: T -> T, i: nat): (r: Dict<string, T>)
    requires d.Valid() && i <= |d.keys|
    ensures r.Valid() && r.keys == d.keys
    decreases i
  {
    if i == 0 then d
    else
      var c := TransposedUpTo(d, dim, transpose, i - 1);
      var layer := d.keys[i - 1];
      if dim(c.entries[layer]) == 2 then c.Put(layer, transpose(c.entries[layer])) else c
  }

  /** The first i items are the first i - 1 and item i - 1, which (without repeats) is not among them. */
  lemma PrefixGrows<K>(s: seq<K>, i: nat, k: K)
    requires Distinct(s) && 0 < i <= |s|
    ensures k in s[..i] <==> k in s[..i - 1] || k == s[i - 1]
    ensures k == s[i - 1] ==> k !in s[..i - 1]
  {
    assert s[..i] == s[..i - 1] + [s[i - 1]];
    if k == s[i - 1] {
      NotBefore(s, i - 1);
    }
  }

  /** Iteration i treats layer i - 1 alone: every other layer keeps its value. */
  lemma TransposedUpToStep<T>(d: Dict<string, T>, dim: T -> nat, transpose: T -> T, i: nat, k: string)
    requires d.Valid() && 0 < i <= |d.keys| && k in d.entries
    ensures var c := TransposedUpTo(d, dim, transpose, i - 1);
      TransposedUpTo(d, dim, transpose, i).entries[k]
      == if k == d.keys[i - 1] && dim(c.entries[k]) == 2 then transpose(c.entries[k]) else c.entries[k]
  {
  }

  /** Part way through the loop, exactly the two-dimensional layers among the first i are transposed. */
  lemma {:induction false} TransposedUpToAt<T>(d: Dict<string, T>, dim: T -> nat, transpose: T -> T, i: nat, k: string)
    requires d.Valid() && i <= |d.keys| && k in d.entries
    ensures TransposedUpTo(d, dim, transpose, i).entries[k]
      == if k in d.keys[..i] && dim(d.entries[k]) == 2 then transpose(d.entries[k]) else d.entries[k]
    decreases i
  {
    if i > 0 {
      TransposedUpToAt(d, dim, transpose, i - 1, k);
      TransposedUpToStep(d, dim, transpose, i, k);
      PrefixGrows(d.keys, i, k);
    }
  }

  /** After the loop every layer is treated. */
  lemma TransposedUpToAll<T>(d: Dict<string, T>, dim: T -> nat, transpose: T -> T)
    requires d.Valid()
    ensures TransposedUpTo(d, dim, transpose, |d.keys|) == Transposed(d, dim, transpose)
  {
    var c := TransposedUpTo(d, dim, transpose, |d.keys|);
    assert d.keys[..|d.keys|] == d.keys;
    forall k | k in d.entries
      ensures k in c.entries && c.entries[k] == Transposed(d, dim, transpose).entries[k]
    {
      TransposedUpToAt(d, dim, transpose, |d.keys|, k);
    }
    assert c.entries == Transposed(d, dim, transpose).entries;
  }

  // ---------------------------------------------------------------------------
  // The helper object

  class MsCkptRefactorHelper<T> {
    var ckptDict: Dict<string, T>
    var msToGgufMap: Dict<string, string>
    var fullNameMsToGgufMap: Dict<string, string>
    const needTranspose: bool

    ghost predicate Valid()
      reads this
    {
      ckptDict.Valid() && msToGgufMap.Valid() && fullNameMsToGgufMap.Valid()
    }

    /** `__init__`: `ms.load_checkpoint` is given as the checkpoint it returns. */
    constructor (checkpoint: Dict<string, T>, transpose: bool)
      requires checkpoint.Valid()
      ensures Valid() && ckptDict == checkpoint && needTranspose == transpose
      ensures msToGgufMap == Empty && fullNameMsToGgufMap == Empty
    {
      ckptDict := checkpoint;
      msToGgufMap := Empty;
      fullNameMsToGgufMap := Empty;
      needTranspose := transpose;
    }

    /** `_read_name_map_json`: `json.load` is given as the dict it returns. */
    method ReadNameMapJson(nameMap: Dict<string, string>)
      requires Valid() && nameMap.Valid()
      modifies this`msToGgufMap
      ensures Valid() && msToGgufMap == nameMap
    {
      msToGgufMap := nameMap;
    }

    /** The inner loop of `_layer_rename`: every map entry applied, in order, to names[i]. */
    method RenameOne(names: seq<string>, i: nat) returns (renamed: seq<string>)
      requires Valid() && i < |names|
      ensures |renamed| == |names| && renamed[i] == Rename(names[i], msToGgufMap)
      ensures forall j :: 0 <= j < |names| && j != i ==> renamed[j] == names[j]
    {
      renamed := names;
      var j := 0;
      while j < |msToGgufMap.keys|
        invariant j <= |msToGgufMap.keys| && |renamed| == |names|
        invariant renamed[i] == RenameWith(names[i], msToGgufMap, j)
        invariant forall k :: 0 <= k < |names| && k != i ==> renamed[k] == names[k]
      {
        var mapKey := msToGgufMap.keys[j];
        if mapKey in msToGgufMap.entries {
          renamed := renamed[i := Replace(renamed[i], mapKey, msToGgufMap.entries[mapKey])];
        }
        j := j + 1;
      }
    }

    /**
     * The first loop of `_layer_rename`: the new name of every layer, keyed by
     * its original name in the checkpoint's order, added to the full-name map.
     */
    method RecordNewNames()
      requires Valid() && fullNameMsToGgufMap == Empty
      modifies this`fullNameMsToGgufMap
      ensures Valid()
      ensures fullNameMsToGgufMap.keys == ckptDict.keys
      ensures forall k :: k in fullNameMsToGgufMap.entries ==>
        fullNameMsToGgufMap.entries[k] == Rename(k, msToGgufMap)
    {
      var names := ckptDict.keys;
      var i := 0;
      while i < |names|
        invariant Valid() && i <= |names| == |ckptDict.keys|
        invariant forall j :: i <= j < |names| ==> names[j] == ckptDict.keys[j]
        invariant fullNameMsToGgufMap.keys == ckptDict.keys[..i]
        invariant forall k :: k in fullNameMsToGgufMap.entries ==>
          fullNameMsToGgufMap.entries[k] == Rename(k, msToGgufMap)
      {
        names := RenameOne(names, i);
        NotBefore(ckptDict.keys, i);
        fullNameMsToGgufMap := fullNameMsToGgufMap.Put(ckptDict.keys[i], names[i]);
        assert ckptDict.keys[..i] + [ckptDict.keys[i]] == ckptDict.keys[..i + 1];
        i := i + 1;
      }
      assert ckptDict.keys[..i] == ckptDict.keys;
    }

    /** The second loop of `_layer_rename`: every layer popped and stored under its new name, in order. */
    method MoveLayers()
      requires Valid() && fullNameMsToGgufMap.keys == ckptDict.keys
      modifies this`ckptDict
      ensures Valid()
      ensures ckptDict == MoveAll(old(ckptDict), old(ckptDict.keys), fullNameMsToGgufMap.entries)
    {
      var originals := ckptDict.keys;
      var k := 0;
      while k < |fullNameMsToGgufMap.keys|
        invariant Valid() && k <= |originals| == |fullNameMsToGgufMap.keys|
        invariant ckptDict == MoveAll(old(ckptDict), originals[..k], fullNameMsToGgufMap.entries)
      {
        var renameLayer := fullNameMsToGgufMap.keys[k];
        MoveAllPrefix(old(ckptDict), originals, fullNameMsToGgufMap.entries, k);
        var popped := ckptDict.Pop(renameLayer);
        ckptDict := popped.0.Put(fullNameMsToGgufMap.entries[renameLayer], popped.1);
        k := k + 1;
      }
      assert originals[..k] == originals;
    }

    /**
     * `_layer_rename` on a helper whose full-name map is still empty: records
     * each original name's new name, in the checkpoint's order, then moves
     * every tensor to its new name.
     */
    method LayerRename()
      requires Valid() && fullNameMsToGgufMap == Empty
      modifies this`ckptDict, this`fullNameMsToGgufMap
      ensures Valid()
      ensures fullNameMsToGgufMap.keys == old(ckptDict.keys)
      ensures forall k :: k in fullNameMsToGgufMap.entries ==>
        fullNameMsToGgufMap.entries[k] == Rename(k, msToGgufMap)
      ensures ckptDict == MoveAll(old(ckptDict), old(ckptDict.keys), fullNameMsToGgufMap.entries)
    {
      RecordNewNames();
      MoveLayers();
    }

    /** `_layer_tensor_transpose`: only when need_transpose, every 2-D tensor is transposed in place. */
    method LayerTensorTranspose(dim: T -> nat, transpose: T -> T)
      requires Valid()
      modifies this`ckptDict
      ensures Valid()
      ensures ckptDict == if needTranspose then Transposed(old(ckptDict), dim, transpose) else old(ckptDict)
    {
      if needTranspose {
        ghost var d := ckptDict;
        var i := 0;
        while i < |ckptDict.keys|
          invariant i <= |d.keys| && ckptDict == TransposedUpTo(d, dim, transpose, i)
          invariant Valid()
        {
          var layer := ckptDict.keys[i];
          if dim(ckptDict.entries[layer]) == 2 {
            ckptDict := ckptDict.Put(layer, transpose(ckptDict.entries[layer]));
          }
          i := i + 1;
        }
        TransposedUpToAll(d, dim, transpose);
      }
    }

    /** `do_refactor`: read the map, rename, transpose. */
    method DoRefactor(nameMap: Dict<string, string>, dim: T -> nat, transpose: T -> T)
      requires Valid() && nameMap.Valid() && fullNameMsToGgufMap == Empty
      modifies this`ckptDict, this`msToGgufMap, this`fullNameMsToGgufMap
      ensures Valid() && msToGgufMap == nameMap
      ensures fullNameMsToGgufMap.keys == old(ckptDict.keys)
      ensures forall k :: k in fullNameMsToGgufMap.entries ==> fullNameMsToGgufMap.entries[k] == Rename(k, nameMap)
      ensures var moved := MoveAll(old(ckptDict), old(ckptDict.keys), fullNameMsToGgufMap.entries);
        ckptDict == if needTranspose then Transposed(moved, dim, transpose) else moved
    {
      ReadNameMapJson(nameMap);
      LayerRename();
      LayerTensorTranspose(dim, transpose);
    }
  }
}
