/** In-memory stand-in for a database table: rows keyed by auto-increment id. */
module Tables {

  /** The keys of `rows` below `bound`, in ascending order. */
  function KeysBelow<V>(rows: map<nat, V>, bound: nat): (ks: seq<nat>)
    ensures forall i :: 0 <= i < |ks| ==> ks[i] in rows && ks[i] < bound
    ensures forall i, j :: 0 <= i < j < |ks| ==> ks[i] < ks[j]
    ensures forall k :: k in rows && k < bound ==> k in ks
  {
    if bound == 0 then []
    else
      var ks := KeysBelow(rows, bound - 1);
      if bound - 1 in rows then ks + [bound - 1] else ks
  }

  /** The rows with keys below `bound`, in ascending key order (a scan of the table). */
  function Scan<V(==)>(rows: map<nat, V>, bound: nat): (r: seq<V>)
    ensures |r| == |KeysBelow(rows, bound)|
    ensures forall i :: 0 <= i < |r| ==> r[i] == rows[KeysBelow(rows, bound)[i]]
    ensures forall i :: 0 <= i < |r| ==> r[i] in rows.Values
    ensures forall k :: k in rows && k < bound ==> rows[k] in r
  {
    var ks := KeysBelow(rows, bound);
    var r := seq(|ks|, i requires 0 <= i < |ks| => rows[ks[i]]);
    assert forall k :: k in rows && k < bound ==> rows[k] in r by {
      forall k | k in rows && k < bound
        ensures rows[k] in r
      {
        var i :| 0 <= i < |ks| && ks[i] == k;
        assert r[i] == rows[k];
      }
    }
    r
  }

  /** No element occurs twice. */
  predicate Distinct<T(==)>(s: seq<T>) {
    forall i, j :: 0 <= i < j < |s| ==> s[i] != s[j]
  }
}
