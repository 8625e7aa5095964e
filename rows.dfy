/** Tables keyed by a primary key, as the two database services keep them, and the
    `SELECT ... ORDER BY` listing of such a table: every row once, in order of a sort key.
    Rows with equal sort keys may come in any order, as SQLite promises nothing for them. */
module Rows {
  /** `le` compares any two values and is transitive. */
  ghost predicate TotalPreorder<T(!new)>(le: (T, T) -> bool) {
    && (forall a, b :: le(a, b) || le(b, a))
    && (forall a, b, c :: le(a, b) && le(b, c) ==> le(a, c))
  }

  predicate SortedBy<T>(s: seq<T>, le: (T, T) -> bool) {
    forall i, j :: 0 <= i < j < |s| ==> le(s[i], s[j])
  }

  /** `x` placed into the sorted `s` just before the first element it is not above. */
  function Insert<T(!new)>(x: T, s: seq<T>, le: (T, T) -> bool): (r: seq<T>)
    requires TotalPreorder(le) && SortedBy(s, le)
    ensures |r| == |s| + 1
    ensures forall y :: y in r <==> y in s || y == x
    ensures SortedBy(r, le)
  {
    if s == [] then [x]
    else if le(x, s[0]) then
      assert forall j :: 0 < j < |s| ==> le(s[0], s[j]);
      [x] + s
    else
      assert s == [s[0]] + s[1..];
      var rest := Insert(x, s[1..], le);
      assert forall y :: y in rest ==> le(s[0], y);
      [s[0]] + rest
  }

  /** The order on rows lifted to (key, row) pairs. */
  function ByRow<K(!new), V(!new)>(le: (V, V) -> bool): (r: ((K, V), (K, V)) -> bool)
    ensures forall p, q :: r(p, q) == le(p.1, q.1)
  {
    (p: (K, V), q: (K, V)) => le(p.1, q.1)
  }

  lemma ByRowTotal<K(!new), V(!new)>(le: (V, V) -> bool)
    requires TotalPreorder(le)
    ensures TotalPreorder(ByRow<K, V>(le))
  {
  }

  /** `pairs` lists the rows of `table` under the keys in `done`, each once. */
  ghost predicate Listed<K, V>(table: map<K, V>, pairs: seq<(K, V)>, done: set<K>) {
    && done <= table.Keys
    && |pairs| == |done|
    && (forall p :: p in pairs ==> p.0 in done && p.1 == table[p.0])
    && (forall k :: k in done ==> (k, table[k]) in pairs)
  }

  lemma ListedStep<K(!new), V(!new)>(table: map<K, V>, pairs: seq<(K, V)>, done: set<K>, k: K, ple: ((K, V), (K, V)) -> bool)
    requires Listed(table, pairs, done) && k in table && k !in done
    requires TotalPreorder(ple) && SortedBy(pairs, ple)
    ensures Listed(table, Insert((k, table[k]), pairs, ple), done + {k})
  {
  }

  /** The listing of `table` in `le` order: `keys[i]` is the key of `rows[i]`, every key of
      the table comes up, and there are as many rows as keys, so each comes up once. */
  method SortedRows<K(!new), V(!new)>(table: map<K, V>, le: (V, V) -> bool) returns (keys: seq<K>, rows: seq<V>)
    requires TotalPreorder(le)
    ensures |keys| == |rows| == |table|
    ensures forall i :: 0 <= i < |keys| ==> keys[i] in table && rows[i] == table[keys[i]]
    ensures forall k :: k in table ==> k in keys
    ensures forall i, j :: 0 <= i < j < |keys| ==> keys[i] != keys[j]
    ensures SortedBy(rows, le)
  {
    var ple := ByRow<K, V>(le);
    ByRowTotal<K, V>(le);
    var pairs: seq<(K, V)> := [];
    var remaining := table.Keys;
    ghost var done: set<K> := {};
    while remaining != {}
      invariant remaining + done == table.Keys && remaining !! done
      invariant Listed(table, pairs, done) && SortedBy(pairs, ple)
      decreases remaining
    {
      var k :| k in remaining;
      ListedStep(table, pairs, done, k, ple);
      pairs := Insert((k, table[k]), pairs, ple);
      remaining := remaining - {k};
      done := done + {k};
    }
    keys, rows := Unzip(table, pairs, le);
    CoverDistinct(keys, table.Keys);
  }

  /** A set whose every element occurs in `s` has no more elements than `s` has. */
  lemma {:induction false} CoverCard<K>(s: seq<K>, keys: set<K>)
    requires forall k :: k in keys ==> k in s
    ensures |keys| <= |s|
  {
    if s != [] {
      var last := s[|s| - 1];
      var init := s[..|s| - 1];
      forall k | k in keys - {last} ensures k in init {
        var i :| 0 <= i < |s| && s[i] == k;
        assert i < |s| - 1;
        assert init[i] == k;
      }
      CoverCard(init, keys - {last});
    }
  }

  /** A sequence as long as the set it covers and drawn from it repeats no element. */
  lemma {:induction false} CoverDistinct<K>(s: seq<K>, keys: set<K>)
    requires |s| == |keys|
    requires forall k :: k in keys ==> k in s
    requires forall i :: 0 <= i < |s| ==> s[i] in keys
    ensures forall i, j :: 0 <= i < j < |s| ==> s[i] != s[j]
  {
    if s != [] {
      var last := s[|s| - 1];
      var init := s[..|s| - 1];
      if last in init {
        forall k | k in keys ensures k in init {
          var i :| 0 <= i < |s| && s[i] == k;
          if i == |s| - 1 {
            assert k == last;
          } else {
            assert init[i] == k;
          }
        }
        CoverCard(init, keys);
        assert false;
      }
      forall k | k in keys - {last} ensures k in init {
        var i :| 0 <= i < |s| && s[i] == k;
        assert i < |s| - 1;
        assert init[i] == k;
      }
      forall i | 0 <= i < |init| ensures init[i] in keys - {last} {
        assert init[i] == s[i];
        assert init[i] in init;
      }
      CoverDistinct(init, keys - {last});
      forall i, j | 0 <= i < j < |s| ensures s[i] != s[j] {
        if j == |s| - 1 {
          assert s[i] == init[i] && init[i] in init;
        } else {
          assert s[i] == init[i] && s[j] == init[j];
        }
      }
    }
  }

  method Unzip<K(!new), V(!new)>(table: map<K, V>, pairs: seq<(K, V)>, le: (V, V) -> bool) returns (keys: seq<K>, rows: seq<V>)
    requires Listed(table, pairs, table.Keys) && SortedBy(pairs, ByRow<K, V>(le))
    ensures |keys| == |rows| == |table|
    ensures forall i :: 0 <= i < |keys| ==> keys[i] in table && rows[i] == table[keys[i]]
    ensures forall k :: k in table ==> k in keys
    ensures SortedBy(rows, le)
  {
    keys := seq(|pairs|, i requires 0 <= i < |pairs| => pairs[i].0);
    rows := seq(|pairs|, i requires 0 <= i < |pairs| => pairs[i].1);
    forall k | k in table ensures k in keys {
      var i :| 0 <= i < |pairs| && pairs[i] == (k, table[k]);
      assert keys[i] == k;
    }
    forall i | 0 <= i < |keys| ensures keys[i] in table && rows[i] == table[keys[i]] {
      assert pairs[i] in pairs;
    }
  }
}
