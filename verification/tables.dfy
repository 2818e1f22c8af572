/** Generic facts about a table keyed by rowid: scanning it in rowid order
    (the order SQLite's full scan of a rowid table yields; a `SELECT` without
    `ORDER BY` is assumed to follow it, which SQL itself does not promise), and
    the "nothing else changes" relation used by every write. */
module Tables {

  /** Strictly increasing, hence also free of duplicates. */
  ghost predicate Increasing(ks: seq<nat>) {
    forall i, j :: 0 <= i < j < |ks| ==> ks[i] < ks[j]
  }

  /** The keys below `n` of the rows satisfying `keep`, in increasing order. */
  function Select<R>(m: map<nat, R>, n: nat, keep: R -> bool): (ks: seq<nat>)
    ensures forall k :: k in ks <==> k in m && k < n && keep(m[k])
    ensures Increasing(ks)
  {
    if n == 0 then []
    else
      var prefix := Select(m, n - 1, keep);
      assert forall i :: 0 <= i < |prefix| ==> prefix[i] < n - 1 by {
        forall i | 0 <= i < |prefix| ensures prefix[i] < n - 1 {
          assert prefix[i] in prefix;
        }
      }
      if n - 1 in m && keep(m[n - 1]) then prefix + [n - 1] else prefix
  }

  /** The rows whose keys `ks` lists, in that order. */
  function RowsAt<R>(m: map<nat, R>, ks: seq<nat>): (rows: seq<R>)
    requires forall k :: k in ks ==> k in m
    ensures |rows| == |ks|
    ensures forall i :: 0 <= i < |ks| ==> rows[i] == m[ks[i]]
  {
    seq(|ks|, i requires 0 <= i < |ks| => m[ks[i]])
  }

  /** `m'` agrees with `m` on every key other than `k`. */
  ghost predicate SameExcept<K, V>(m: map<K, V>, m': map<K, V>, k: K) {
    && (forall j :: j in m && j != k ==> j in m' && m'[j] == m[j])
    && (forall j :: j in m' && j != k ==> j in m)
  }
}
