/** The order of `sort.Strings`, and sorting a set of keys. */
module Strings {

  /** Lexicographic order by code unit. */
  predicate Less(a: string, b: string) {
    b != "" && (a == "" || a[0] < b[0] || (a[0] == b[0] && Less(a[1..], b[1..])))
  }

  /** `a` and `b` agree on their first `n` characters; then `a` ends, or has the smaller one. */
  ghost predicate DifferAt(a: string, b: string, n: nat) {
    n <= |a| && n < |b| && a[..n] == b[..n] && (n == |a| || a[n] < b[n])
  }

  lemma SameStart(a: string, b: string, n: nat)
    requires DifferAt(a, b, n)
    ensures n > 0 ==> a[0] == b[0]
  {
    if n > 0 { assert a[..n][0] == b[..n][0]; }
  }

  lemma {:induction false} LessExactly(a: string, b: string)
    ensures Less(a, b) <==> exists n: nat :: DifferAt(a, b, n)
  {
    if a == "" || b == "" || a[0] != b[0] {
      if b != "" && (a == "" || a[0] < b[0]) { assert DifferAt(a, b, 0); }
      if n: nat :| DifferAt(a, b, n) { SameStart(a, b, n); }
    } else {
      LessExactly(a[1..], b[1..]);
      if n: nat :| DifferAt(a[1..], b[1..], n) {
        assert a[..n + 1] == [a[0]] + a[1..][..n] && b[..n + 1] == [b[0]] + b[1..][..n];
        assert DifferAt(a, b, n + 1);
      }
      if n: nat :| DifferAt(a, b, n) {
        assert n > 0 && a[1..][..n - 1] == a[..n][1..] && b[1..][..n - 1] == b[..n][1..];
        assert DifferAt(a[1..], b[1..], n - 1);
      }
    }
  }

  lemma {:induction false} LessTransitive(a: string, b: string, c: string)
    requires Less(a, b) && Less(b, c)
    ensures Less(a, c)
  {
    if a != "" && a[0] == b[0] == c[0] { LessTransitive(a[1..], b[1..], c[1..]); }
  }

  lemma {:induction false} LessTotal(a: string, b: string)
    ensures a == b || Less(a, b) || Less(b, a)
  {
    if a != "" && b != "" && a[0] == b[0] {
      LessTotal(a[1..], b[1..]);
      assert a == [a[0]] + a[1..] && b == [b[0]] + b[1..];
    }
  }

  lemma {:induction false} LessIrreflexive(a: string)
    ensures !Less(a, a)
  {
    if a != "" { LessIrreflexive(a[1..]); }
  }

  ghost predicate StrictlySorted(s: seq<string>) {
    forall i, j :: 0 <= i < j < |s| ==> Less(s[i], s[j])
  }

  ghost predicate SortedKeys(s: seq<string>, keys: set<string>) {
    StrictlySorted(s) && forall k :: k in s <==> k in keys
  }

  /** There is only one strictly sorted list of a set of keys, so the order of enumeration is lost. */
  lemma {:induction false} SortedKeysUnique(s: seq<string>, t: seq<string>, keys: set<string>)
    requires SortedKeys(s, keys) && SortedKeys(t, keys)
    ensures s == t
    decreases |s|
  {
    assert s != [] ==> s[0] in t;
    assert t != [] ==> t[0] in s;
    if s != [] && t != [] {
      FirstKeyLeast(s, t, keys);
      FirstKeyLeast(t, s, keys);
      LessIrreflexive(s[0]);
      if Less(s[0], t[0]) { LessTransitive(s[0], t[0], s[0]); }
      RestSorted(s, keys);
      RestSorted(t, keys);
      SortedKeysUnique(s[1..], t[1..], keys - {s[0]});
      assert s == [s[0]] + s[1..] && t == [t[0]] + t[1..];
    }
  }

  lemma FirstKeyLeast(s: seq<string>, t: seq<string>, keys: set<string>)
    requires SortedKeys(s, keys) && SortedKeys(t, keys) && s != [] && t != []
    ensures s[0] == t[0] || Less(s[0], t[0])
  {
    assert t[0] in keys;
    var i :| 0 <= i < |s| && s[i] == t[0];
  }

  lemma RestSorted(s: seq<string>, keys: set<string>)
    requires SortedKeys(s, keys) && s != []
    ensures SortedKeys(s[1..], keys - {s[0]})
  {
    LessIrreflexive(s[0]);
    assert forall i :: 1 <= i < |s| ==> Less(s[0], s[i]);
    forall k ensures k in s[1..] <==> k in keys - {s[0]} {
      assert k in s <==> k == s[0] || k in s[1..];
    }
  }

  /** Insert a new key into a sorted list. */
  method Insert(sorted: seq<string>, key: string, ghost keys: set<string>) returns (r: seq<string>)
    requires SortedKeys(sorted, keys) && key !in keys
    ensures SortedKeys(r, keys + {key})
  {
    var i := 0;
    while i < |sorted| && Less(sorted[i], key)
      invariant i <= |sorted| && forall j :: 0 <= j < i ==> Less(sorted[j], key)
    {
      i := i + 1;
    }
    r := sorted[..i] + [key] + sorted[i..];
    if i < |sorted| {
      assert sorted[i] in keys;
      LessTotal(key, sorted[i]);
      forall j | i < j < |sorted| ensures Less(key, sorted[j]) { LessTransitive(key, sorted[i], sorted[j]); }
    }
    forall k ensures k in r <==> k in keys + {key} {
      assert k in sorted <==> k in sorted[..i] || k in sorted[i..];
    }
  }

  /** Collect the keys in whatever order the map yields them, and sort them. */
  method SortKeys(keys: set<string>) returns (sorted: seq<string>)
    ensures SortedKeys(sorted, keys)
  {
    sorted := [];
    var todo, done: set<string> := keys, {};
    while todo != {}
      invariant todo !! done && todo + done == keys
      invariant SortedKeys(sorted, done)
    {
      var key :| key in todo;
      sorted := Insert(sorted, key, done);
      todo, done := todo - {key}, done + {key};
    }
  }
}
