// Square matrix with in-place transpose (net8/sqmatrix.hh).
//
// The header leaves storage to the reader ("YOUR CODE HERE"); the model backs
// the matrix by a `size * size` two-dimensional array, which is what `at`
// is meant to index. The element type is generic: `transpose` only moves
// elements, so nothing depends on them being `double`.
module SqMatrix {

  /** The matrix as a sequence of rows, the value `transpose` is specified on. */
  ghost predicate IsSquare<T>(m: seq<seq<T>>, n: nat)
  {
    |m| == n && forall i :: 0 <= i < n ==> |m[i]| == n
  }

  /** The transpose of an `n * n` matrix: element (i,j) is the old (j,i). */
  ghost function Transposed<T>(m: seq<seq<T>>, n: nat): (t: seq<seq<T>>)
    requires IsSquare(m, n)
    ensures IsSquare(t, n)
    ensures forall i, j :: 0 <= i < n && 0 <= j < n ==> t[i][j] == m[j][i]
  {
    seq(n, i requires 0 <= i < n => seq(n, j requires 0 <= j < n => m[j][i]))
  }

  /** Transposing twice gives the matrix back. */
  lemma {:induction false} TransposeTwice<T>(m: seq<seq<T>>, n: nat)
    requires IsSquare(m, n)
    ensures Transposed(Transposed(m, n), n) == m
  {
    var t := Transposed(Transposed(m, n), n);
    forall i | 0 <= i < n
      ensures t[i] == m[i]
    {
      assert forall j :: 0 <= j < n ==> t[i][j] == m[i][j];
    }
  }

  class Matrix<T> {
    var sz: nat
    var elems: array2<T>

    ghost predicate Valid()
      reads this
    {
      elems.Length0 == sz && elems.Length1 == sz
    }

    /** The current elements, row by row. */
    ghost function Rows(): (m: seq<seq<T>>)
      reads this, elems
      requires Valid()
      ensures IsSquare(m, sz)
      ensures forall i, j :: 0 <= i < sz && 0 <= j < sz ==> m[i][j] == elems[i, j]
    {
      var a := elems;
      seq(sz, i requires 0 <= i < a.Length0 reads a =>
        seq(a.Length1, j requires 0 <= j < a.Length1 reads a => a[i, j]))
    }

    /** A `size * size` matrix, every element `init`. */
    constructor (size: nat, init: T)
      ensures Valid() && sz == size && fresh(elems)
      ensures forall i, j :: 0 <= i < size && 0 <= j < size ==> elems[i, j] == init
    {
      sz := size;
      elems := new T[size, size]((_, _) => init);
    }

    /** The matrix dimension. */
    function Size(): (n: nat)
      reads this
      requires Valid()
      ensures n == elems.Length0 && n == elems.Length1
    {
      sz
    }

    /** Element (i, j). */
    function At(i: nat, j: nat): (x: T)
      reads this, elems
      requires Valid() && i < sz && j < sz
      ensures x == Rows()[i][j]
    {
      elems[i, j]
    }

    /**
     * Transposes in place by swapping (i,j) with (j,i) for every j < i, so
     * each off-diagonal pair is exchanged once and the diagonal is never
     * touched.
     */
    method Transpose()
      requires Valid()
      modifies elems
      ensures Valid() && sz == old(sz) && elems == old(elems)
      ensures forall i, j :: 0 <= i < sz && 0 <= j < sz ==> elems[i, j] == old(elems[j, i])
      ensures Rows() == Transposed(old(Rows()), sz)
    {
      ghost var m := Rows();
      var i := 0;
      while i != sz
        invariant 0 <= i <= sz
        invariant forall p, q :: 0 <= p < sz && 0 <= q < sz ==>
          elems[p, q] == (if p < i && q < i then m[q][p] else m[p][q])
      {
        var j := 0;
        while j != i
          invariant 0 <= j <= i
          invariant forall p, q :: 0 <= p < sz && 0 <= q < sz ==>
            elems[p, q] ==
              (if (p < i && q < i) || (p == i && q < j) || (q == i && p < j) then m[q][p]
               else m[p][q])
        {
          var t := elems[i, j];
          elems[i, j] := elems[j, i];
          elems[j, i] := t;
          j := j + 1;
        }
        i := i + 1;
      }
      assert forall p, q :: 0 <= p < sz && 0 <= q < sz ==> elems[p, q] == m[q][p];
      assert Rows() == Transposed(m, sz) by {
        var r := Rows();
        var t := Transposed(m, sz);
        forall p | 0 <= p < sz
          ensures r[p] == t[p]
        {
          assert forall q :: 0 <= q < sz ==> r[p][q] == t[p][q];
        }
      }
    }
  }

  /** Two transposes in a row restore every element. */
  method TransposeTwiceRestores<T>(a: Matrix<T>)
    requires a.Valid()
    modifies a.elems
    ensures a.Valid() && a.sz == old(a.sz)
    ensures a.Rows() == old(a.Rows())
  {
    a.Transpose();
    a.Transpose();
    TransposeTwice(old(a.Rows()), a.sz);
  }
}
