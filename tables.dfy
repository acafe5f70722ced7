/** `Model.find(filter)` over a collection addressed by id: the documents that match,
    each once, paired with their ids. */
module Tables {
  import opened Common

  ghost function KeysWhere<D>(table: map<Id, D>, keep: D -> bool): set<Id> {
    set k | k in table && keep(table[k])
  }

  method Select<D>(table: map<Id, D>, keep: D -> bool) returns (r: seq<(Id, D)>)
    ensures forall p :: p in r <==> p.0 in table && p.1 == table[p.0] && keep(p.1)
    ensures |r| == |KeysWhere(table, keep)|
  {
    var pending := table.Keys;
    ghost var taken: set<Id> := {};
    r := [];
    while pending != {}
      invariant pending <= table.Keys
      invariant taken == set k | k in table && k !in pending && keep(table[k])
      invariant forall p :: p in r <==> p.0 in table && p.0 !in pending && p.1 == table[p.0] && keep(p.1)
      invariant |r| == |taken|
      decreases |pending|
    {
      var k :| k in pending;
      if keep(table[k]) {
        assert (k, table[k]) !in r;
        r := r + [(k, table[k])];
        assert k !in taken;
        taken := taken + {k};
      }
      pending := pending - {k};
    }
    assert taken == KeysWhere(table, keep);
  }

  /** `Model.find(filter)` over a collection kept in insertion order: the matching
      documents, in order. */
  function Filter<T(!new)>(s: seq<T>, keep: T -> bool): (r: seq<T>)
    ensures |r| <= |s|
    ensures forall x :: x in r <==> x in s && keep(x)
  {
    if s == [] then []
    else
      var rest := Filter(s[..|s| - 1], keep);
      assert forall x :: x in s <==> x in s[..|s| - 1] || x == s[|s| - 1];
      if keep(s[|s| - 1]) then rest + [s[|s| - 1]] else rest
  }

  lemma {:induction false} FilterAppend<T(!new)>(a: seq<T>, b: seq<T>, keep: T -> bool)
    ensures Filter(a + b, keep) == Filter(a, keep) + Filter(b, keep)
    decreases |b|
  {
    if b == [] {
      assert a + b == a;
    } else {
      var b' := b[..|b| - 1];
      assert (a + b)[..|a + b| - 1] == a + b';
      assert (a + b)[|a + b| - 1] == b[|b| - 1];
      FilterAppend(a, b', keep);
    }
  }

  /** A filter that every document passes returns the collection unchanged. */
  lemma {:induction false} FilterKeepsAll<T(!new)>(s: seq<T>, keep: T -> bool)
    requires forall x :: x in s ==> keep(x)
    ensures Filter(s, keep) == s
  {
    if s != [] {
      FilterKeepsAll(s[..|s| - 1], keep);
      assert s[..|s| - 1] + [s[|s| - 1]] == s;
    }
  }

  /** A filter that no document passes returns nothing. */
  lemma FilterDropsAll<T(!new)>(s: seq<T>, keep: T -> bool)
    requires forall x :: x in s ==> !keep(x)
    ensures Filter(s, keep) == []
  {
    if Filter(s, keep) != [] {
      assert Filter(s, keep)[0] in Filter(s, keep);
    }
  }
}
