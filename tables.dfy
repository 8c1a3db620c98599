/**
 * Python dicts of lists keyed by name, as the pass builds them
 * (`updates_by_field`, `groups`): the keys in insertion order and a map from
 * key to list. `Total` is everything the lists hold.
 */
module Tables {
  predicate Distinct<T(==)>(s: seq<T>) {
    forall i, j :: 0 <= i < j < |s| ==> s[i] != s[j]
  }

  /** The elements held by the lists of `names`. */
  function Total<T>(names: seq<string>, m: map<string, seq<T>>): multiset<T> {
    if names == [] then multiset{}
    else (if names[0] in m then multiset(m[names[0]]) else multiset{}) + Total(names[1..], m)
  }

  /** A list that is not among `names` does not count. */
  lemma {:induction false} TotalFrame<T>(names: seq<string>, m: map<string, seq<T>>, n: string, b: seq<T>)
    requires n !in names
    ensures Total(names, m[n := b]) == Total(names, m)
    decreases |names|
  {
    if names != [] {
      TotalFrame(names[1..], m, n, b);
    }
  }

  /** Replacing one list changes the total by exactly what that list gains or loses. */
  lemma {:induction false} TotalUpdate<T>(names: seq<string>, m: map<string, seq<T>>, n: string, b: seq<T>, u: T)
    requires Distinct(names) && n in names && n in m
    ensures Total(names, m[n := b])[u] + multiset(m[n])[u] == Total(names, m)[u] + multiset(b)[u]
    decreases |names|
  {
    var m' := m[n := b];
    if names[0] != n {
      assert n in names[1..];
      TotalUpdate(names[1..], m, n, b, u);
      assert (names[0] in m') == (names[0] in m);
      assert names[0] in m ==> m'[names[0]] == m[names[0]];
    } else {
      assert n !in names[1..];
      TotalFrame(names[1..], m, n, b);
    }
  }

  /** A new key at the end adds its list to the total. */
  lemma {:induction false} TotalAppend<T>(names: seq<string>, m: map<string, seq<T>>, n: string, b: seq<T>)
    requires n !in names
    ensures Total(names + [n], m[n := b]) == Total(names, m) + multiset(b)
    decreases |names|
  {
    if names == [] {
      var single: seq<string> := [n];
      assert single[1..] == [];
    } else {
      assert (names + [n])[1..] == names[1..] + [n];
      TotalAppend(names[1..], m, n, b);
    }
  }

  /** The lists hold nothing exactly when each of them is empty. */
  lemma {:induction false} TotalEmpty<T>(names: seq<string>, m: map<string, seq<T>>)
    ensures Total(names, m) == multiset{} <==> forall n :: n in names && n in m ==> m[n] == []
    decreases |names|
  {
    if names != [] {
      TotalEmpty(names[1..], m);
      if names[0] in m && m[names[0]] != [] {
        assert m[names[0]][0] in multiset(m[names[0]]);
      }
    }
  }
}
