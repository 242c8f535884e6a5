/**
 * `levenshteinDistance`: the classic Levenshtein recurrence, as a recursive
 * specification over prefixes and as the source's table-filling method.
 */
module EditDistance {

  function Min(x: nat, y: nat): nat { if x <= y then x else y }

  /** The edit distance between `a` and `b` by the recurrence the table uses:
      a matching last character carries the diagonal value, otherwise one
      substitution, insertion or deletion is added to the cheapest neighbour. */
  function Distance(a: string, b: string): (r: nat)
    ensures r <= |a| + |b|
    decreases |a| + |b|
  {
    if |a| == 0 then |b|
    else if |b| == 0 then |a|
    else if a[|a| - 1] == b[|b| - 1] then Distance(a[..|a| - 1], b[..|b| - 1])
    else Min(Distance(a[..|a| - 1], b[..|b| - 1]) + 1,
             Min(Distance(a, b[..|b| - 1]) + 1, Distance(a[..|a| - 1], b) + 1))
  }

  /** The value of `levenshteinDistance(first, second)`: the last cell of a
      `(|second|+1) x (|first|+1)` table whose cell `[i, j]` holds the
      distance between `second[..i]` and `first[..j]`. */
  method LevenshteinDistance(first: string, second: string) returns (d: nat)
    ensures d == Distance(second, first) && d == Distance(first, second)
    ensures |first| == 0 ==> d == |second|
    ensures |second| == 0 ==> d == |first|
  {
    if |first| == 0 || |second| == 0 {
      DistanceSymmetric(first, second);
      return if |first| >= |second| then |first| - |second| else |second| - |first|;
    }
    var m := new nat[|second| + 1, |first| + 1];
    var i := 0;
    while i <= |second|
      invariant 0 <= i <= |second| + 1
      invariant forall r :: 0 <= r < i ==> m[r, 0] == r
    {
      m[i, 0] := i;
      i := i + 1;
    }
    var j := 0;
    while j <= |first|
      invariant 0 <= j <= |first| + 1
      invariant forall c :: 0 <= c < j ==> m[0, c] == c
      invariant forall r :: 1 <= r <= |second| ==> m[r, 0] == r
    {
      m[0, j] := j;
      j := j + 1;
    }
    i := 1;
    while i <= |second|
      invariant 1 <= i <= |second| + 1
      invariant forall c :: 0 <= c <= |first| ==> m[i - 1, c] == Distance(second[..i - 1], first[..c])
      invariant forall r :: i <= r <= |second| ==> m[r, 0] == r
    {
      FillRow(m, first, second, i);
      i := i + 1;
    }
    assert second[..|second|] == second && first[..|first|] == first;
    d := m[|second|, |first|];
    DistanceSymmetric(first, second);
  }

  /** One row of the table: cell `[i, j]` from its left, upper and diagonal neighbours. */
  method FillRow(m: array2<nat>, first: string, second: string, i: nat)
    requires m.Length0 == |second| + 1 && m.Length1 == |first| + 1 && 1 <= i <= |second|
    requires forall c :: 0 <= c <= |first| ==> m[i - 1, c] == Distance(second[..i - 1], first[..c])
    requires m[i, 0] == i
    modifies m
    ensures forall c :: 0 <= c <= |first| ==> m[i, c] == Distance(second[..i], first[..c])
    ensures forall r, c :: 0 <= r < m.Length0 && 0 <= c < m.Length1 && r != i ==> m[r, c] == old(m[r, c])
  {
    assert m[i, 0] == Distance(second[..i], first[..0]);
    var j := 1;
    while j <= |first|
      invariant 1 <= j <= |first| + 1
      invariant forall c :: 0 <= c < j ==> m[i, c] == Distance(second[..i], first[..c])
      invariant forall r, c :: 0 <= r < m.Length0 && 0 <= c < m.Length1 && r != i ==> m[r, c] == old(m[r, c])
    {
      DistanceAt(second, first, i, j);
      if second[i - 1] == first[j - 1] {
        m[i, j] := m[i - 1, j - 1];
      } else {
        m[i, j] := Min(m[i - 1, j - 1] + 1, Min(m[i, j - 1] + 1, m[i - 1, j] + 1));
      }
      j := j + 1;
    }
  }

  /** The recurrence read on prefixes, as the table indexes it. */
  lemma DistanceAt(x: string, y: string, i: nat, j: nat)
    requires 1 <= i <= |x| && 1 <= j <= |y|
    ensures Distance(x[..i], y[..j]) ==
      if x[i - 1] == y[j - 1] then Distance(x[..i - 1], y[..j - 1])
      else Min(Distance(x[..i - 1], y[..j - 1]) + 1,
               Min(Distance(x[..i], y[..j - 1]) + 1, Distance(x[..i - 1], y[..j]) + 1))
  {
    assert x[..i][..i - 1] == x[..i - 1];
    assert y[..j][..j - 1] == y[..j - 1];
  }

  /** A string is at distance zero from itself. */
  lemma {:induction false} DistanceSelf(s: string)
    ensures Distance(s, s) == 0
    decreases |s|
  {
    if |s| > 0 {
      DistanceSelf(s[..|s| - 1]);
    }
  }

  /** The recurrence is symmetric: swapping the two strings does not change the distance. */
  lemma {:induction false} DistanceSymmetric(a: string, b: string)
    ensures Distance(a, b) == Distance(b, a)
    decreases |a| + |b|
  {
    if |a| > 0 && |b| > 0 {
      var a', b' := a[..|a| - 1], b[..|b| - 1];
      DistanceSymmetric(a', b');
      if a[|a| - 1] != b[|b| - 1] {
        DistanceSymmetric(a, b');
        DistanceSymmetric(a', b);
      }
    }
  }

  /** The distance lies between the difference of the lengths and the longer length. */
  lemma {:induction false} DistanceBounds(a: string, b: string)
    ensures |a| - |b| <= Distance(a, b) && |b| - |a| <= Distance(a, b)
    ensures Distance(a, b) <= if |a| >= |b| then |a| else |b|
    decreases |a| + |b|
  {
    if |a| > 0 && |b| > 0 {
      var a', b' := a[..|a| - 1], b[..|b| - 1];
      DistanceBounds(a', b');
      if a[|a| - 1] != b[|b| - 1] {
        DistanceBounds(a, b');
        DistanceBounds(a', b);
      }
    }
  }

  /** Distance zero means the strings are equal, and only then. */
  lemma {:induction false} DistanceZeroIff(a: string, b: string)
    ensures Distance(a, b) == 0 <==> a == b
    decreases |a| + |b|
  {
    if a == b {
      DistanceSelf(a);
    } else if |a| > 0 && |b| > 0 && a[|a| - 1] == b[|b| - 1] {
      var a', b' := a[..|a| - 1], b[..|b| - 1];
      assert a == a' + [a[|a| - 1]] && b == b' + [b[|b| - 1]];
      DistanceZeroIff(a', b');
    }
  }
}
