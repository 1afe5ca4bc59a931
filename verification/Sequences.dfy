/** Sequences of sequences laid end to end. */
module Sequences {

  function Flat<T>(rows: seq<seq<T>>): seq<T> {
    if rows == [] then [] else Flat(rows[..|rows| - 1]) + rows[|rows| - 1]
  }

  lemma FlatNext<T>(rows: seq<seq<T>>, k: nat)
    requires k < |rows|
    ensures Flat(rows[..k + 1]) == Flat(rows[..k]) + rows[k]
  {
    assert rows[..k + 1][..k] == rows[..k];
  }

  lemma {:induction false} FlatSplit<T>(a: seq<seq<T>>, b: seq<seq<T>>)
    ensures Flat(a + b) == Flat(a) + Flat(b)
  {
    if b == [] {
      assert a + b == a;
    } else {
      FlatSplit(a, b[..|b| - 1]);
      assert (a + b)[..|a + b| - 1] == a + b[..|b| - 1];
    }
  }

  lemma FlatOne<T>(row: seq<T>)
    ensures Flat([row]) == row
  {
    assert [row][..0] == [];
  }

  /** Where row k starts when the rows are laid end to end. */
  function Start<T>(rows: seq<seq<T>>, k: nat): nat
    requires k <= |rows|
  {
    |Flat(rows[..k])|
  }

  lemma StartNext<T>(rows: seq<seq<T>>, k: nat)
    requires k < |rows|
    ensures Start(rows, k + 1) == Start(rows, k) + |rows[k]| <= |Flat(rows)|
  {
    FlatNext(rows, k);
    FlatSplit(rows[..k + 1], rows[k + 1..]);
    assert rows[..k + 1] + rows[k + 1..] == rows;
  }

  function WithRow<T>(rows: seq<seq<T>>, k: nat, row: seq<T>): (more: seq<seq<T>>)
    requires k <= |rows|
    ensures |more| == |rows| + 1
  {
    rows[..k] + [row] + rows[k..]
  }

  /** One row more in place k: the rows behind it move up. */
  lemma FlatWith<T>(rows: seq<seq<T>>, k: nat, row: seq<T>)
    requires k <= |rows|
    ensures Flat(rows) == Flat(rows[..k]) + Flat(rows[k..])
    ensures Flat(WithRow(rows, k, row)) == Flat(rows[..k]) + row + Flat(rows[k..])
  {
    assert rows == rows[..k] + rows[k..];
    FlatSplit(rows[..k], rows[k..]);
    FlatSplit(rows[..k] + [row], rows[k..]);
    FlatSplit(rows[..k], [row]);
    FlatOne(row);
  }

  lemma {:induction false} StartWith<T>(rows: seq<seq<T>>, k: nat, row: seq<T>, j: nat)
    requires k <= |rows| && j <= |rows| + 1
    ensures Start(WithRow(rows, k, row), j) == if j <= k then Start(rows, j) else Start(rows, j - 1) + |row|
  {
    if j <= k {
      assert WithRow(rows, k, row)[..j] == rows[..j];
    } else {
      assert WithRow(rows, k, row)[..j] == WithRow(rows[..j - 1], k, row);
      FlatWith(rows[..j - 1], k, row);
    }
  }

  lemma TwoPieces<T>(s: seq<T>, i: nat, j: nat)
    requires i <= j <= |s|
    ensures s[i..] == s[i..j] + s[j..]
  {
  }

  lemma Regroup<T>(a: seq<T>, b: seq<T>, c: seq<T>)
    ensures a + (b + c) == a + b + c
  {
  }
}
