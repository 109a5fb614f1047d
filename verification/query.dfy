/** The two LINQ query shapes the repositories use, over rows in database order. */
module Query {
  import opened Wrappers

  /** `FirstOrDefaultAsync(p)`: the first row satisfying `p`, or null. */
  function First<V>(rows: seq<V>, p: V -> bool): (r: Option<V>)
    ensures r.None? <==> forall i :: 0 <= i < |rows| ==> !p(rows[i])
    ensures r.Some? ==> r.value in rows && p(r.value)
    ensures r.Some? ==> exists i :: 0 <= i < |rows| && rows[i] == r.value && forall j :: 0 <= j < i ==> !p(rows[j])
    decreases |rows|
  {
    if |rows| == 0 then None
    else if p(rows[0]) then Some(rows[0])
    else
      var r := First(rows[1..], p);
      assert r.Some? ==> exists i :: 1 <= i < |rows| && rows[i] == r.value && forall j :: 0 <= j < i ==> !p(rows[j]) by {
        if r.Some? {
          var i :| 0 <= i < |rows[1..]| && rows[1..][i] == r.value && forall j :: 0 <= j < i ==> !p(rows[1..][j]);
          assert rows[i + 1] == r.value;
          assert forall j :: 0 <= j < i + 1 ==> !p(rows[j]) by {
            forall j | 0 <= j < i + 1 ensures !p(rows[j]) {
              if j > 0 { assert rows[j] == rows[1..][j - 1]; }
            }
          }
        }
      }
      r
  }

  /** `Where(p).ToListAsync()`: the rows satisfying `p`, in their original order. */
  function Where<V>(rows: seq<V>, p: V -> bool): (r: seq<V>)
    ensures |r| <= |rows|
    ensures forall i :: 0 <= i < |r| ==> r[i] in rows && p(r[i])
    ensures forall i :: 0 <= i < |rows| && p(rows[i]) ==> rows[i] in r
    decreases |rows|
  {
    if |rows| == 0 then []
    else
      var rest := Where(rows[1..], p);
      assert forall i :: 1 <= i < |rows| ==> rows[i] == rows[1..][i - 1];
      if p(rows[0]) then [rows[0]] + rest else rest
  }

  /** Filtering distributes over concatenation, so order is kept. */
  lemma {:induction false} WhereAppend<V>(a: seq<V>, b: seq<V>, p: V -> bool)
    ensures Where(a + b, p) == Where(a, p) + Where(b, p)
    decreases |a|
  {
    if |a| > 0 {
      assert (a + b)[1..] == a[1..] + b;
      WhereAppend(a[1..], b, p);
    } else {
      assert a + b == b;
    }
  }
}
