/** Levenshtein edit distance over strings.

    The parking logic calls a C library for the distance between a read plate
    and a registered one. Here the distance is given as a recursive definition
    over prefixes (the last characters are aligned by a deletion, an insertion
    or a substitution), together with the facts the exit lookup relies on and a
    row-by-row dynamic-programming implementation proved equal to it.
 */
module Levenshtein {

  /** Smallest of three naturals. */
  function Min3(x: nat, y: nat, z: nat): (m: nat)
    ensures m <= x && m <= y && m <= z
    ensures m == x || m == y || m == z
  {
    if x <= y && x <= z then x else if y <= z then y else z
  }

  /** Cost of aligning character `c` with character `d`: free when equal, one substitution otherwise. */
  function Cost(c: char, d: char): nat
  {
    if c == d then 0 else 1
  }

  /** Minimum number of single-character insertions, deletions and
      substitutions that turn `a` into `b`. */
  function EditDistance(a: string, b: string): nat
    decreases |a| + |b|
  {
    if |a| == 0 then |b|
    else if |b| == 0 then |a|
    else
      Min3(EditDistance(a[..|a| - 1], b) + 1,
           EditDistance(a, b[..|b| - 1]) + 1,
           EditDistance(a[..|a| - 1], b[..|b| - 1]) + Cost(a[|a| - 1], b[|b| - 1]))
  }

  /** Number of positions at which two equally long strings differ. */
  function Mismatches(a: string, b: string): nat
    requires |a| == |b|
  {
    if |a| == 0 then 0
    else Mismatches(a[..|a| - 1], b[..|b| - 1]) + Cost(a[|a| - 1], b[|b| - 1])
  }

  /** A string is at distance zero from itself. */
  lemma {:induction false} EditDistanceSelf(a: string)
    ensures EditDistance(a, a) == 0
  {
    if |a| > 0 {
      EditDistanceSelf(a[..|a| - 1]);
    }
  }

  /** The distance is at least the difference of the lengths and at most the longer length. */
  lemma {:induction false} EditDistanceLengthBounds(a: string, b: string)
    ensures EditDistance(a, b) >= |a| - |b|
    ensures EditDistance(a, b) >= |b| - |a|
    ensures EditDistance(a, b) <= if |a| <= |b| then |b| else |a|
    decreases |a| + |b|
  {
    if |a| > 0 && |b| > 0 {
      EditDistanceLengthBounds(a[..|a| - 1], b);
      EditDistanceLengthBounds(a, b[..|b| - 1]);
      EditDistanceLengthBounds(a[..|a| - 1], b[..|b| - 1]);
    }
  }

  /** Distance zero means the strings are identical, and conversely. */
  lemma {:induction false} EditDistanceZeroIff(a: string, b: string)
    ensures EditDistance(a, b) == 0 <==> a == b
    decreases |a| + |b|
  {
    if a == b {
      EditDistanceSelf(a);
    }
    if |a| > 0 && |b| > 0 && EditDistance(a, b) == 0 {
      var a', b' := a[..|a| - 1], b[..|b| - 1];
      EditDistanceZeroIff(a', b');
      assert a == a' + [a[|a| - 1]];
      assert b == b' + [b[|b| - 1]];
    }
  }

  /** The distance does not depend on the order of its arguments. */
  lemma {:induction false} EditDistanceSymmetric(a: string, b: string)
    ensures EditDistance(a, b) == EditDistance(b, a)
    decreases |a| + |b|
  {
    if |a| > 0 && |b| > 0 {
      EditDistanceSymmetric(a[..|a| - 1], b);
      EditDistanceSymmetric(a, b[..|b| - 1]);
      EditDistanceSymmetric(a[..|a| - 1], b[..|b| - 1]);
    }
  }

  /** Substitutions alone can turn one string into another of the same length,
      so the distance never exceeds the number of differing positions. */
  lemma {:induction false} EditDistanceAtMostMismatches(a: string, b: string)
    requires |a| == |b|
    ensures EditDistance(a, b) <= Mismatches(a, b)
  {
    if |a| > 0 {
      EditDistanceAtMostMismatches(a[..|a| - 1], b[..|b| - 1]);
    }
  }

  /** A string has no mismatches with itself. */
  lemma {:induction false} MismatchesSelf(a: string)
    ensures Mismatches(a, a) == 0
  {
    if |a| > 0 {
      MismatchesSelf(a[..|a| - 1]);
    }
  }

  /** Replacing one character creates at most one mismatch. */
  lemma {:induction false} MismatchesUpdate(a: string, k: nat, c: char)
    requires k < |a|
    ensures Mismatches(a, a[k := c]) <= 1
  {
    var n := |a| - 1;
    if k == n {
      assert a[k := c][..n] == a[..n];
      MismatchesSelf(a[..n]);
    } else {
      assert a[k := c][..n] == a[..n][k := c];
      MismatchesUpdate(a[..n], k, c);
    }
  }

  /** A single substitution is within distance one. */
  lemma SingleSubstitution(a: string, k: nat, c: char)
    requires k < |a|
    ensures EditDistance(a, a[k := c]) <= 1
  {
    MismatchesUpdate(a, k, c);
    EditDistanceAtMostMismatches(a, a[k := c]);
  }

  /** One cell of the table from its upper, left and upper-left neighbours. */
  lemma NextCell(a: string, b: string, i: nat, k: nat, up: nat, left: nat, diag: nat)
    requires i < |a| && 0 < k <= |b|
    requires up == EditDistance(a[..i], b[..k])
    requires left == EditDistance(a[..i + 1], b[..k - 1])
    requires diag == EditDistance(a[..i], b[..k - 1])
    ensures EditDistance(a[..i + 1], b[..k]) == Min3(up + 1, left + 1, diag + Cost(a[i], b[k - 1]))
  {
    assert a[..i + 1][..i] == a[..i];
    assert b[..k][..k - 1] == b[..k - 1];
  }

  /** First row of the table: the distance from the empty prefix of `a` to each prefix of `b`. */
  method FirstRow(a: string, b: string) returns (row: seq<nat>)
    ensures |row| == |b| + 1
    ensures forall m :: 0 <= m <= |b| ==> row[m] == EditDistance(a[..0], b[..m])
  {
    row := [];
    var k := 0;
    while k <= |b|
      invariant 0 <= k <= |b| + 1
      invariant |row| == k
      invariant forall m :: 0 <= m < k ==> row[m] == EditDistance(a[..0], b[..m])
    {
      row := row + [k];
      k := k + 1;
    }
  }

  /** Given the row for prefix a[..i], computes the row for a[..i + 1]. */
  method NextRow(a: string, b: string, i: nat, row: seq<nat>) returns (cur: seq<nat>)
    requires i < |a|
    requires |row| == |b| + 1
    requires forall m :: 0 <= m <= |b| ==> row[m] == EditDistance(a[..i], b[..m])
    ensures |cur| == |b| + 1
    ensures forall m :: 0 <= m <= |b| ==> cur[m] == EditDistance(a[..i + 1], b[..m])
  {
    assert EditDistance(a[..i + 1], b[..0]) == i + 1;
    cur := [i + 1];
    var k := 1;
    while k <= |b|
      invariant 1 <= k <= |b| + 1
      invariant |cur| == k
      invariant forall m :: 0 <= m < k ==> cur[m] == EditDistance(a[..i + 1], b[..m])
    {
      NextCell(a, b, i, k, row[k], cur[k - 1], row[k - 1]);
      cur := cur + [Min3(row[k] + 1, cur[k - 1] + 1, row[k - 1] + Cost(a[i], b[k - 1]))];
      k := k + 1;
    }
  }

  /** Computes the edit distance with the classic table, one row per prefix of `a`. */
  method ComputeEditDistance(a: string, b: string) returns (d: nat)
    ensures d == EditDistance(a, b)
    ensures d == 0 <==> a == b
  {
    var row := FirstRow(a, b);
    var i := 0;
    while i < |a|
      invariant 0 <= i <= |a|
      invariant |row| == |b| + 1
      invariant forall m :: 0 <= m <= |b| ==> row[m] == EditDistance(a[..i], b[..m])
    {
      row := NextRow(a, b, i, row);
      i := i + 1;
    }
    assert a[..|a|] == a && b[..|b|] == b;
    d := row[|b|];
    EditDistanceZeroIff(a, b);
  }
}
