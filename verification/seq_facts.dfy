/** Generic facts about sequences and the arithmetic of their layout, stated
    once so that proofs about log entries can cite them instead of re-deriving
    them for a concrete type. */
module SeqFacts {
  lemma AppendAssoc<T>(a: seq<T>, b: seq<T>, c: seq<T>)
    ensures (a + b) + c == a + (b + c)
  {
  }

  lemma DropAppend<T>(a: seq<T>, b: seq<T>)
    requires |a| > 0
    ensures (a + b)[0] == a[0] && (a + b)[1..] == a[1..] + b
  {
  }

  lemma IndexLeft<T>(a: seq<T>, b: seq<T>, i: nat)
    requires i < |a|
    ensures (a + b)[i] == a[i]
  {
  }

  lemma IndexRight<T>(a: seq<T>, b: seq<T>, k: nat)
    requires k < |b|
    ensures |a| + k < |a + b| && (a + b)[|a| + k] == b[k]
  {
  }

  /** A three-element display is its elements appended one by one. */
  lemma Triple<T>(x: T, y: T, z: T)
    ensures [x, y, z] == ([x] + [y]) + [z]
  {
  }

  /** One more row of c elements: the product grows by c. */
  lemma MulSucc(m: nat, c: nat)
    ensures (m + 1) * c == c + m * c
  {
  }

  /** Where the m-th of a run of rows of length n starts. */
  function RowStart(m: nat, n: nat): nat
    decreases m
  {
    if m == 0 then 0 else n + RowStart(m - 1, n)
  }

  /** The rows laid end to end. */
  function Concat<T>(rows: seq<seq<T>>): seq<T>
    decreases |rows|
  {
    if |rows| == 0 then [] else rows[0] + Concat(rows[1..])
  }

  /** In rows all of length n, element q of row m sits at RowStart(m, n) + q. */
  lemma {:induction false} ConcatAt<T>(rows: seq<seq<T>>, n: nat, m: nat, q: nat)
    requires forall i :: 0 <= i < |rows| ==> |rows[i]| == n
    requires m < |rows| && q < n
    ensures RowStart(m, n) + q < |Concat(rows)|
    ensures Concat(rows)[RowStart(m, n) + q] == rows[m][q]
    decreases m
  {
    if m == 0 {
      IndexLeft(rows[0], Concat(rows[1..]), q);
    } else {
      ConcatAt(rows[1..], n, m - 1, q);
      IndexRight(rows[0], Concat(rows[1..]), RowStart(m - 1, n) + q);
    }
  }
}
