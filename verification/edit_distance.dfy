/** Levenshtein edit distance: the reference recurrence, its algebraic properties, and the
    component's dynamic-programming table computed in an array. */
module EditDistance {

  function Min3(x: nat, y: nat, z: nat): (m: nat)
    ensures m <= x && m <= y && m <= z
    ensures m == x || m == y || m == z
  {
    if x <= y && x <= z then x else if y <= z then y else z
  }

  /** The textbook (Wagner-Fischer) edit distance: the fewest single-character insertions,
      deletions and substitutions turning `a` into `b`, by recursion on the last characters. */
  function Distance(a: string, b: string): nat
    decreases |a| + |b|
  {
    if |a| == 0 then |b|
    else if |b| == 0 then |a|
    else
      var a', b' := a[..|a| - 1], b[..|b| - 1];
      Min3(Distance(a', b') + (if a[|a| - 1] == b[|b| - 1] then 0 else 1),
           Distance(a', b) + 1,
           Distance(a, b') + 1)
  }

  /** The distance to or from the empty string is the other string's length; in general it
      lies between the difference of the lengths and the longer length. */
  lemma {:induction false} DistanceBounds(a: string, b: string)
    ensures |b| == 0 ==> Distance(a, b) == |a|
    ensures |a| == 0 ==> Distance(a, b) == |b|
    ensures Distance(a, b) <= if |a| <= |b| then |b| else |a|
    ensures Distance(a, b) >= if |a| <= |b| then |b| - |a| else |a| - |b|
    decreases |a| + |b|
  {
    if |a| > 0 && |b| > 0 {
      var a', b' := a[..|a| - 1], b[..|b| - 1];
      DistanceBounds(a', b');
      DistanceBounds(a', b);
      DistanceBounds(a, b');
    }
  }

  /** Edit distance is symmetric. */
  lemma {:induction false} DistanceSymmetric(a: string, b: string)
    ensures Distance(a, b) == Distance(b, a)
    decreases |a| + |b|
  {
    if |a| > 0 && |b| > 0 {
      var a', b' := a[..|a| - 1], b[..|b| - 1];
      DistanceSymmetric(a', b');
      DistanceSymmetric(a', b);
      DistanceSymmetric(a, b');
    }
  }

  /** A string is at distance zero from itself and from nothing else. */
  lemma {:induction false} DistanceZeroIffEqual(a: string, b: string)
    ensures Distance(a, b) == 0 <==> a == b
    decreases |a| + |b|
  {
    if |a| > 0 && |b| > 0 {
      var a', b' := a[..|a| - 1], b[..|b| - 1];
      DistanceZeroIffEqual(a', b');
      assert a == a' + [a[|a| - 1]];
      assert b == b' + [b[|b| - 1]];
      if a == b {
        assert a' == b';
      }
    }
  }

  /** Appending one character to the second string costs at most one edit. */
  lemma AppendSecondBound(a: string, b: string)
    requires |b| > 0
    ensures Distance(a, b) <= Distance(a, b[..|b| - 1]) + 1
  {
  }

  /** Dropping the last character of the first string changes the distance by at most one. */
  lemma {:induction false} DropLastFirstBound(a: string, b: string)
    requires |a| > 0
    ensures Distance(a[..|a| - 1], b) <= Distance(a, b) + 1
    decreases |b|
  {
    if |b| > 0 {
      var a', b' := a[..|a| - 1], b[..|b| - 1];
      DropLastFirstBound(a, b');
      AppendSecondBound(a', b);
    }
  }

  lemma DropLastSecondBound(a: string, b: string)
    requires |b| > 0
    ensures Distance(a, b[..|b| - 1]) <= Distance(a, b) + 1
  {
    DistanceSymmetric(a, b[..|b| - 1]);
    DropLastFirstBound(b, a);
    DistanceSymmetric(b, a);
  }

  /** When the last characters agree, the distance is that of the two prefixes: the
      diagonal entry already beats both neighbours plus one. This is the shortcut the
      component's table takes on matching characters. */
  lemma MatchingLastCharacters(a: string, b: string)
    requires |a| > 0 && |b| > 0 && a[|a| - 1] == b[|b| - 1]
    ensures Distance(a, b) == Distance(a[..|a| - 1], b[..|b| - 1])
  {
    var a', b' := a[..|a| - 1], b[..|b| - 1];
    DropLastSecondBound(a', b);
    DropLastFirstBound(a, b');
  }

  /** The value of table cell (i, j) in terms of its three neighbours, as the component
      computes it. */
  lemma CellRecurrence(a: string, b: string, i: nat, j: nat)
    requires 1 <= i <= |b| && 1 <= j <= |a|
    ensures Distance(a[..j], b[..i]) ==
              if b[i - 1] == a[j - 1] then Distance(a[..j - 1], b[..i - 1])
              else Min3(Distance(a[..j - 1], b[..i - 1]) + 1, Distance(a[..j - 1], b[..i]) + 1,
                        Distance(a[..j], b[..i - 1]) + 1)
  {
    assert a[..j][..j - 1] == a[..j - 1];
    assert b[..i][..i - 1] == b[..i - 1];
    if b[i - 1] == a[j - 1] {
      MatchingLastCharacters(a[..j], b[..i]);
    }
  }

  /** One row of the component's table: fills cells (i, 1) .. (i, |a|) from row i - 1 and
      cell (i, 0), leaving every other row as it was. */
  method FillRow(matrix: array2<nat>, a: string, b: string, i: nat)
    requires matrix.Length0 == |b| + 1 && matrix.Length1 == |a| + 1
    requires 1 <= i <= |b|
    requires forall j' :: 0 <= j' <= |a| ==> matrix[i - 1, j'] == Distance(a[..j'], b[..i - 1])
    requires matrix[i, 0] == Distance(a[..0], b[..i])
    modifies matrix
    ensures forall j' :: 0 <= j' <= |a| ==> matrix[i, j'] == Distance(a[..j'], b[..i])
    ensures forall i', j' :: 0 <= i' <= |b| && i' != i && 0 <= j' <= |a| ==> matrix[i', j'] == old(matrix[i', j'])
  {
    var j := 1;
    while j <= |a|
      invariant 1 <= j <= |a| + 1
      invariant forall j' :: 0 <= j' < j ==> matrix[i, j'] == Distance(a[..j'], b[..i])
      invariant forall i', j' :: 0 <= i' <= |b| && i' != i && 0 <= j' <= |a| ==> matrix[i', j'] == old(matrix[i', j'])
    {
      var diagonal, left, up := matrix[i - 1, j - 1], matrix[i, j - 1], matrix[i - 1, j];
      var cell := if b[i - 1] == a[j - 1] then diagonal else Min3(diagonal + 1, left + 1, up + 1);
      assert cell == Distance(a[..j], b[..i]) by {
        CellRecurrence(a, b, i, j);
      }
      matrix[i, j] := cell;
      j := j + 1;
    }
  }

  /** The component's `levenshtein(a, b)`. Row `i` of the table belongs to the prefix of
      length `i` of `b` and column `j` to the prefix of length `j` of `a`; the borders hold
      their index; an inner cell copies its diagonal neighbour when the characters match and
      otherwise takes one more than the least of its three neighbours. The result, the
      bottom-right cell, is the edit distance. */
  method Levenshtein(a: string, b: string) returns (d: nat)
    ensures d == Distance(a, b)
  {
    var matrix := new nat[|b| + 1, |a| + 1];
    var i := 0;
    while i <= |b|
      invariant 0 <= i <= |b| + 1
      invariant forall i' :: 0 <= i' < i ==> matrix[i', 0] == i'
    {
      matrix[i, 0] := i;
      i := i + 1;
    }
    var j := 0;
    while j <= |a|
      invariant 0 <= j <= |a| + 1
      invariant forall i' :: 0 <= i' <= |b| ==> matrix[i', 0] == i'
      invariant forall j' :: 0 <= j' < j ==> matrix[0, j'] == j'
    {
      matrix[0, j] := j;
      j := j + 1;
    }
    assert forall j' :: 0 <= j' <= |a| ==> matrix[0, j'] == Distance(a[..j'], b[..0]);
    i := 1;
    while i <= |b|
      invariant 1 <= i <= |b| + 1
      invariant forall j' :: 0 <= j' <= |a| ==> matrix[i - 1, j'] == Distance(a[..j'], b[..i - 1])
      invariant forall i' :: i <= i' <= |b| ==> matrix[i', 0] == i'
    {
      assert matrix[i, 0] == Distance(a[..0], b[..i]);
      FillRow(matrix, a, b, i);
      i := i + 1;
    }
    assert a[..|a|] == a && b[..|b|] == b;
    d := matrix[|b|, |a|];
  }
}
