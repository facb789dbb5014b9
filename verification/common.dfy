/** A value that may be missing. */
module Wrappers {
  datatype Option<T> = None | Some(value: T)
}

/** Sequences that repeat nothing. */
module Sequences {
  ghost predicate Distinct<T>(q: seq<T>) {
    forall i, j :: 0 <= i < j < |q| ==> q[i] != q[j]
  }
}

/** Unsigned numbers of 32 bits. */
module Words {
  const WORD := 0x1_0000_0000

  type word = x: int | 0 <= x < WORD
}

/** Stretches of equal length, one behind the other. */
module Stretches {
  /** Where the n-th stretch begins. */
  function Offset(n: nat, length: nat): nat {
    if n == 0 then 0 else Offset(n - 1, length) + length
  }

  lemma {:induction false} OffsetIsProduct(n: nat, length: nat)
    ensures Offset(n, length) == n * length
  {
    if 0 < n {
      OffsetIsProduct(n - 1, length);
      assert n * length == (n - 1) * length + length;
    }
  }

  lemma {:induction false} OffsetGrows(n: nat, m: nat, length: nat)
    requires n <= m
    ensures Offset(n, length) <= Offset(m, length)
    ensures n < m ==> Offset(n, length) + length <= Offset(m, length)
    decreases m
  {
    if n < m { OffsetGrows(n, m - 1, length); }
  }
}
