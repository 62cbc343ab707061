/** Scans over a table held as a map from auto-increment id to row. Only ids
    below the table's next id `n` can hold rows, so a scan visits `0 .. n-1`. */
module Tables {
  import opened Wrappers

  /** The smallest id below `n` whose row satisfies `p`: the row that
      `fetchone` returns for a single-table SELECT read in primary-key order. */
  function FirstMatch<T>(m: map<nat, T>, n: nat, p: T -> bool): (r: Option<nat>)
    ensures r.Some? ==> r.value < n && r.value in m && p(m[r.value])
    ensures r.Some? ==> forall k :: k < r.value && k in m ==> !p(m[k])
    ensures r.None? <==> forall k :: k < n && k in m ==> !p(m[k])
  {
    if n == 0 then None
    else
      match FirstMatch(m, n - 1, p)
      case Some(k) => Some(k)
      case None => if n - 1 in m && p(m[n - 1]) then Some(n - 1) else None
  }

  /** The ids below `n` whose rows satisfy `keep`, largest id first. */
  function NewestFirst<T>(m: map<nat, T>, n: nat, keep: T -> bool): (r: seq<nat>)
    ensures forall i :: 0 <= i < |r| ==> r[i] < n && r[i] in m && keep(m[r[i]])
    ensures forall k :: k < n && k in m && keep(m[k]) ==> k in r
    ensures forall i, j :: 0 <= i < j < |r| ==> r[i] > r[j]
  {
    if n == 0 then []
    else
      var rest := NewestFirst(m, n - 1, keep);
      if n - 1 in m && keep(m[n - 1]) then [n - 1] + rest else rest
  }
}
