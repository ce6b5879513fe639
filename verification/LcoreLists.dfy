/** The RX port lists of the lcores, and what filling them greedily, one lcore after the other, yields. */
module LcoreLists {
  import opened PortMask

  type PortLists = seq<seq<Port>>

  /** All listed ports, lcore by lcore. */
  ghost function Flatten(lists: PortLists): seq<Port> {
    if lists == [] then [] else Flatten(lists[..|lists| - 1]) + lists[|lists| - 1]
  }

  ghost function EnabledCount(lcoreEnabled: seq<bool>): nat {
    if lcoreEnabled == [] then 0
    else EnabledCount(lcoreEnabled[..|lcoreEnabled| - 1]) + if lcoreEnabled[|lcoreEnabled| - 1] then 1 else 0
  }

  /** Enabled lcores before `current` are full, those after it are empty, disabled ones are never used. */
  ghost predicate Greedy(lists: PortLists, current: nat, quota: nat, lcoreEnabled: seq<bool>) {
    && |lists| == |lcoreEnabled| && current < |lists|
    && (forall l :: 0 <= l < current ==> |lists[l]| == if lcoreEnabled[l] then quota else 0)
    && |lists[current]| <= (if lcoreEnabled[current] then quota else 0)
    && (forall l :: current < l < |lists| ==> lists[l] == [])
  }

  lemma {:induction false} FlattenAppend(lists: PortLists, current: nat, port: Port)
    requires current < |lists| && forall l :: current < l < |lists| ==> lists[l] == []
    ensures Flatten(lists[current := lists[current] + [port]]) == Flatten(lists) + [port]
  {
    var last := |lists| - 1;
    var longer := lists[current := lists[current] + [port]];
    if current == last {
      assert longer[..last] == lists[..last];
    } else {
      FlattenAppend(lists[..last], current, port);
      assert longer[..last] == lists[..last][current := lists[current] + [port]];
      assert longer[last] == [];
    }
  }

  lemma {:induction false} FlattenEmpty(lists: PortLists)
    requires forall l :: 0 <= l < |lists| ==> lists[l] == []
    ensures Flatten(lists) == []
  {
    if lists != [] { FlattenEmpty(lists[..|lists| - 1]); }
  }

  /** The number of ports in greedily filled lists. */
  lemma {:induction false} GreedyLength(lists: PortLists, current: nat, quota: nat, lcoreEnabled: seq<bool>)
    requires Greedy(lists, current, quota, lcoreEnabled)
    ensures |Flatten(lists)| == quota * EnabledCount(lcoreEnabled[..current]) + |lists[current]|
  {
    var last := |lists| - 1;
    var front, flags := lists[..last], lcoreEnabled[..last];
    if current < last {
      GreedyLength(front, current, quota, flags);
      assert flags[..current] == lcoreEnabled[..current];
    } else if current > 0 {
      FullLength(front, quota, flags);
    } else {
      FlattenEmpty(front);
      assert lcoreEnabled[..0] == [];
    }
  }

  lemma {:induction false} FullLength(lists: PortLists, quota: nat, lcoreEnabled: seq<bool>)
    requires |lists| == |lcoreEnabled|
    requires forall l :: 0 <= l < |lists| ==> |lists[l]| == if lcoreEnabled[l] then quota else 0
    ensures |Flatten(lists)| == quota * EnabledCount(lcoreEnabled)
  {
    if lists != [] {
      var front := lcoreEnabled[..|lists| - 1];
      FullLength(lists[..|lists| - 1], quota, front);
      assert quota * (EnabledCount(front) + 1) == quota * EnabledCount(front) + quota;
    }
  }

  lemma {:induction false} EnabledCountPrefix(lcoreEnabled: seq<bool>, n: nat)
    requires n < |lcoreEnabled|
    ensures EnabledCount(lcoreEnabled[..n + 1]) == EnabledCount(lcoreEnabled[..n]) + (if lcoreEnabled[n] then 1 else 0)
    ensures EnabledCount(lcoreEnabled[..n + 1]) <= EnabledCount(lcoreEnabled)
    decreases |lcoreEnabled| - n
  {
    assert lcoreEnabled[..n + 1][..n] == lcoreEnabled[..n];
    if n + 1 == |lcoreEnabled| {
      assert lcoreEnabled[..n + 1] == lcoreEnabled;
    } else {
      EnabledCountPrefix(lcoreEnabled, n + 1);
    }
  }

  /** Every listed port comes from some list, and every list entry is listed. */
  lemma {:induction false} FlattenMembers(lists: PortLists, port: Port)
    ensures port in Flatten(lists) <==> exists l :: 0 <= l < |lists| && port in lists[l]
  {
    if lists != [] {
      var last := |lists| - 1;
      FlattenMembers(lists[..last], port);
      if l :| 0 <= l < |lists| && port in lists[l] {
        if l < last { assert port in lists[..last][l]; }
      }
      if port in Flatten(lists[..last]) {
        var l :| 0 <= l < last && port in lists[..last][l];
        assert port in lists[l];
      }
    }
  }

  ghost predicate NoDuplicates(s: seq<Port>) {
    forall i, j :: 0 <= i < j < |s| ==> s[i] != s[j]
  }

  /** When no port is listed twice, no two lcores list the same port and no lcore lists one twice. */
  lemma {:induction false} FlattenApart(lists: PortLists)
    requires NoDuplicates(Flatten(lists))
    ensures forall l, m, p :: 0 <= l < |lists| && 0 <= m < |lists| && p in lists[l] && p in lists[m] ==> l == m
    ensures forall l :: 0 <= l < |lists| ==> NoDuplicates(lists[l])
  {
    if lists != [] {
      var last := |lists| - 1;
      var front := lists[..last];
      var all := Flatten(lists);
      assert forall i :: 0 <= i < |Flatten(front)| ==> all[i] == Flatten(front)[i];
      assert forall i :: 0 <= i < |lists[last]| ==> all[|Flatten(front)| + i] == lists[last][i];
      FlattenApart(front);
      forall l, p | 0 <= l < last && p in lists[l] ensures p !in lists[last] {
        FlattenMembers(front, p);
        assert p in front[l];
      }
    }
  }
}