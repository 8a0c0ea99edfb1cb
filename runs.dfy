/**
 * Maximal runs of equal neighbours in a sequence, and the count of the
 * positions where the value changes: the grouping behind the reverse
 * zone-file writers' `$ORIGIN` lines.
 */
module Runs {
  import opened Wrappers

  function Flatten<T>(rs: seq<seq<T>>): seq<T> {
    if |rs| == 0 then [] else rs[0] + Flatten(rs[1..])
  }

  predicate Constant<T(==)>(r: seq<T>) {
    forall i :: 0 <= i < |r| ==> r[i] == r[0]
  }

  /**
   * The maximal runs of `s`: non-empty blocks of one repeated value that,
   * put back together, give `s`, where neighbouring blocks hold different values.
   */
  function Runs<T(==)>(s: seq<T>): (rs: seq<seq<T>>)
    ensures Flatten(rs) == s
    ensures forall i :: 0 <= i < |rs| ==> |rs[i]| >= 1 && Constant(rs[i])
    ensures forall i :: 0 < i < |rs| ==> rs[i - 1][0] != rs[i][0]
    decreases |s|
  {
    if |s| <= 1 then
      (if |s| == 0 then [] else [s])
    else
      var rest := Runs(s[1..]);
      assert s[1..] == rest[0] + Flatten(rest[1..]);
      if s[0] == s[1] then
        var rs := [[s[0]] + rest[0]] + rest[1..];
        assert rs[1..] == rest[1..];
        rs
      else
        var rs := [[s[0]]] + rest;
        assert rs[1..] == rest;
        rs
  }

  /**
   * The number of positions of `s` whose value differs from the value before
   * it, where the value before the first position is `prev`.
   */
  function Changes<T(==)>(prev: Option<T>, s: seq<T>): nat
    decreases |s|
  {
    if |s| == 0 then 0
    else (if prev == Some(s[0]) then 0 else 1) + Changes(Some(s[0]), s[1..])
  }

  lemma {:induction false} RunCountFrom<T>(s: seq<T>)
    requires |s| >= 1
    ensures |Runs(s)| == 1 + Changes(Some(s[0]), s[1..])
    decreases |s|
  {
    if |s| >= 2 {
      RunCountFrom(s[1..]);
      assert s[1..][0] == s[1] && s[1..][1..] == s[2..];
    }
  }

  /** A sequence has one maximal run per position where its value changes. */
  lemma {:induction false} RunCount<T>(s: seq<T>)
    ensures |Runs(s)| == Changes(None, s)
  {
    if |s| >= 1 {
      RunCountFrom(s);
    }
  }

  /** Two sequences that change value at the same positions have equally many changes. */
  lemma {:induction false} ChangesAlike<T, U>(x: T, s: seq<T>, y: U, t: seq<U>)
    requires |s| == |t|
    requires |s| >= 1 ==> (x == s[0] <==> y == t[0])
    requires forall k :: 0 < k < |s| ==> (s[k - 1] == s[k] <==> t[k - 1] == t[k])
    ensures Changes(Some(x), s) == Changes(Some(y), t)
    decreases |s|
  {
    if |s| >= 1 {
      forall k | 0 < k < |s| - 1
        ensures s[1..][k - 1] == s[1..][k] <==> t[1..][k - 1] == t[1..][k]
      {
        assert s[1..][k - 1] == s[k] && s[1..][k] == s[k + 1];
        assert t[1..][k - 1] == t[k] && t[1..][k] == t[k + 1];
      }
      if |s| >= 2 {
        assert s[1..][0] == s[1] && t[1..][0] == t[1];
      }
      ChangesAlike(s[0], s[1..], t[0], t[1..]);
    }
  }

  /** Two sequences that change value at the same positions have equally many maximal runs. */
  lemma {:induction false} SameRunCount<T, U>(s: seq<T>, t: seq<U>)
    requires |s| == |t|
    requires forall k :: 0 < k < |s| ==> (s[k - 1] == s[k] <==> t[k - 1] == t[k])
    ensures |Runs(s)| == |Runs(t)|
  {
    if |s| >= 1 {
      RunCountFrom(s);
      RunCountFrom(t);
      forall k | 0 < k < |s| - 1
        ensures s[1..][k - 1] == s[1..][k] <==> t[1..][k - 1] == t[1..][k]
      {
        assert s[1..][k - 1] == s[k] && s[1..][k] == s[k + 1];
        assert t[1..][k - 1] == t[k] && t[1..][k] == t[k + 1];
      }
      if |s| >= 2 {
        assert s[1] == s[1..][0] && t[1] == t[1..][0];
      }
      ChangesAlike(s[0], s[1..], t[0], t[1..]);
    }
  }
}
