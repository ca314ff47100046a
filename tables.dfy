/**
 * The SQL statements the server issues, on one table at a time. A SQLite table is
 * modelled as the sequence of its rows in rowid order: an insert appends, a delete
 * keeps the other rows in their order, an update rewrites rows where they stand.
 * A uniqueness constraint (a primary key, a UNIQUE column) is a "clash" relation
 * between an existing row and a new one.
 */
module Tables {
  import opened Wrappers

  /** Every two rows, taken in table order, are related by `rel`. */
  ghost predicate Pairwise<T>(s: seq<T>, rel: (T, T) -> bool) {
    forall i, j :: 0 <= i < j < |s| ==> rel(s[i], s[j])
  }

  /** The rows that satisfy `p`, in table order: what `SELECT ... WHERE p` scans,
      and what `DELETE ... WHERE NOT p` leaves behind. */
  function Where<T(!new)>(s: seq<T>, p: T -> bool): (r: seq<T>)
    ensures |r| <= |s|
    ensures forall x :: x in r <==> x in s && p(x)
  {
    if s == [] then []
    else if p(s[0]) then [s[0]] + Where(s[1..], p)
    else Where(s[1..], p)
  }

  /** `UPDATE ... SET f WHERE p`: each row that satisfies `p` is rewritten in place. */
  function Update<T>(s: seq<T>, p: T -> bool, f: T -> T): (r: seq<T>)
    ensures |r| == |s|
    ensures forall i :: 0 <= i < |s| ==> r[i] == (if p(s[i]) then f(s[i]) else s[i])
  {
    if s == [] then []
    else [if p(s[0]) then f(s[0]) else s[0]] + Update(s[1..], p, f)
  }

  /** `SELECT * ... WHERE p` read with a single-row get: the first row that satisfies `p`. */
  function FirstWhere<T(!new)>(s: seq<T>, p: T -> bool): (r: Option<T>)
    ensures r.Some? ==> r.value in s && p(r.value)
    ensures r.None? <==> forall x :: x in s ==> !p(x)
  {
    if s == [] then None
    else if p(s[0]) then Some(s[0])
    else FirstWhere(s[1..], p)
  }

  /** Plain `INSERT`: refused when an existing row clashes with the new one on a
      uniqueness constraint, otherwise the row is appended. */
  function Insert<T(!new)>(s: seq<T>, row: T, clash: (T, T) -> bool): (r: Option<seq<T>>)
    ensures r.None? <==> exists x :: x in s && clash(x, row)
    ensures r.Some? ==> r.value == s + [row]
  {
    if FirstWhere(s, x => clash(x, row)).Some? then None else Some(s + [row])
  }

  /** `INSERT OR IGNORE`: a clashing insert leaves the table as it was. */
  function InsertOrIgnore<T(!new)>(s: seq<T>, row: T, clash: (T, T) -> bool): (r: seq<T>)
    ensures (exists x :: x in s && clash(x, row)) ==> r == s
    ensures (forall x :: x in s ==> !clash(x, row)) ==> r == s + [row]
  {
    match Insert(s, row, clash)
    case None => s
    case Some(t) => t
  }

  /** `INSERT OR REPLACE`: SQLite deletes every row that clashes with the new one on
      any uniqueness constraint, then appends the new row. */
  function InsertOrReplace<T(!new)>(s: seq<T>, row: T, clash: (T, T) -> bool): (r: seq<T>)
    ensures |r| > 0 && r[|r| - 1] == row
    ensures forall i :: 0 <= i < |r| - 1 ==> !clash(r[i], row)
    ensures forall x :: x in r ==> x == row || (x in s && !clash(x, row))
    ensures forall x :: x in s && !clash(x, row) ==> x in r
  {
    var kept := Where(s, x => !clash(x, row));
    assert forall i :: 0 <= i < |kept| ==> kept[i] in kept;
    kept + [row]
  }

  lemma PairwiseTail<T(!new)>(s: seq<T>, rel: (T, T) -> bool)
    requires s != [] && Pairwise(s, rel)
    ensures Pairwise(s[1..], rel)
    ensures forall x :: x in s[1..] ==> rel(s[0], x)
  {
  }

  /** Deleting rows keeps every relation the remaining rows had in table order. */
  lemma {:induction false} WherePairwise<T(!new)>(s: seq<T>, p: T -> bool, rel: (T, T) -> bool)
    requires Pairwise(s, rel)
    ensures Pairwise(Where(s, p), rel)
  {
    if s != [] {
      PairwiseTail(s, rel);
      WherePairwise(s[1..], p, rel);
      if p(s[0]) {
        var t := Where(s[1..], p);
        var r := [s[0]] + t;
        assert Where(s, p) == r;
        forall i, j | 0 <= i < j < |r|
          ensures rel(r[i], r[j])
        {
          assert r[j] == t[j - 1] && t[j - 1] in t;
          if i > 0 {
            assert r[i] == t[i - 1];
          }
        }
      }
    }
  }

  /** Appending a row related to every earlier row keeps the relation. */
  lemma AppendPairwise<T(!new)>(s: seq<T>, row: T, rel: (T, T) -> bool)
    requires Pairwise(s, rel)
    requires forall x :: x in s ==> rel(x, row)
    ensures Pairwise(s + [row], rel)
  {
  }

  /** `INSERT OR REPLACE` keeps a relation when the new row is related to every
      row that it does not clash with. */
  lemma InsertOrReplacePairwise<T(!new)>(s: seq<T>, row: T, clash: (T, T) -> bool, rel: (T, T) -> bool)
    requires Pairwise(s, rel)
    requires forall x :: x in s && !clash(x, row) ==> rel(x, row)
    ensures Pairwise(InsertOrReplace(s, row, clash), rel)
  {
    var kept := Where(s, x => !clash(x, row));
    WherePairwise(s, x => !clash(x, row), rel);
    AppendPairwise(kept, row, rel);
  }
}
