/**
 * The string operations the zone-file writer is built from: Python's
 * `str.endswith`, `str.find`, slicing with possibly negative bounds, and
 * `'.'.join` of domain-name labels, together with the facts about dotted
 * names that the reverse-zone writers rely on.
 */
module Labels {

  /** `s.endswith(suffix)` */
  predicate EndsWith(s: string, suffix: string) {
    |suffix| <= |s| && s[|s| - |suffix|..] == suffix
  }

  /** `s` ends with `suffix` exactly when it is some text followed by `suffix`. */
  lemma EndsWithConcat(s: string, suffix: string)
    ensures EndsWith(s, suffix) <==> exists p :: s == p + suffix
  {
    if EndsWith(s, suffix) {
      assert s == s[..|s| - |suffix|] + suffix;
    }
    forall p | s == p + suffix
      ensures EndsWith(s, suffix)
    {
      assert s[|p|..] == suffix;
    }
  }

  /** A label of a domain name in presentation form: it holds no dot. */
  predicate DotFree(s: string) {
    forall i :: 0 <= i < |s| ==> s[i] != '.'
  }

  predicate AllDotFree(ls: seq<string>) {
    forall i :: 0 <= i < |ls| ==> DotFree(ls[i])
  }

  /** `'.'.join(ls)`: the labels separated by single dots. */
  function JoinLabels(ls: seq<string>): string {
    if |ls| == 0 then ""
    else if |ls| == 1 then ls[0]
    else JoinLabels(ls[..|ls| - 1]) + "." + ls[|ls| - 1]
  }

  /** `s.find(c)`: the index of the first `c` in `s`, or -1 when there is none. */
  function Find(s: string, c: char): (r: int)
    ensures -1 <= r < |s|
    ensures r == -1 <==> forall i :: 0 <= i < |s| ==> s[i] != c
    ensures r >= 0 ==> s[r] == c && forall i :: 0 <= i < r ==> s[i] != c
  {
    if |s| == 0 then -1
    else if s[0] == c then 0
    else
      var r := Find(s[1..], c);
      if r == -1 then -1 else r + 1
  }

  /** Python's normalisation of a slice bound `i` against a length `n`. */
  function SliceBound(n: nat, i: int): (k: nat)
    ensures k <= n
  {
    if i < 0 then (if n + i < 0 then 0 else n + i)
    else if i > n then n
    else i
  }

  /**
   * `s[i:]`: the last `|s| - i` characters for `0 <= i <= |s|`, the last
   * `-i` characters for a negative `i` (all of `s` when `-i >= |s|`), and
   * nothing when `i > |s|`.
   */
  function SliceFrom(s: string, i: int): (r: string)
    ensures |r| <= |s| && r == s[|s| - |r|..]
    ensures 0 <= i <= |s| ==> |r| == |s| - i
    ensures i > |s| ==> r == []
    ensures i < 0 ==> |r| == if -i < |s| then -i else |s|
  {
    s[SliceBound(|s|, i)..]
  }

  /**
   * `s[:i]`: the first `i` characters for `0 <= i <= |s|`, all but the last
   * `-i` for a negative `i` (nothing when `-i >= |s|`), and all of `s` when
   * `i > |s|`.
   */
  function SliceTo(s: string, i: int): (r: string)
    ensures |r| <= |s| && r == s[..|r|]
    ensures 0 <= i <= |s| ==> |r| == i
    ensures i > |s| ==> r == s
    ensures i < 0 ==> |r| == if -i < |s| then |s| + i else 0
  {
    s[..SliceBound(|s|, i)]
  }

  /** `s[:i] + s[i:] == s` for every `i`. */
  lemma SliceSplit(s: string, i: int)
    ensures SliceTo(s, i) + SliceFrom(s, i) == s
  {
    assert s == s[..SliceBound(|s|, i)] + s[SliceBound(|s|, i)..];
  }

  /** Joining two non-empty label lists puts one dot between their joins. */
  lemma {:induction false} JoinAppend(a: seq<string>, b: seq<string>)
    requires |a| >= 1 && |b| >= 1
    ensures JoinLabels(a + b) == JoinLabels(a) + "." + JoinLabels(b)
    decreases |b|
  {
    if |b| == 1 {
      assert (a + b)[..|a + b| - 1] == a;
    } else {
      var b0 := b[..|b| - 1];
      assert (a + b)[..|a + b| - 1] == a + b0;
      JoinAppend(a, b0);
    }
  }

  /** `u.(v.w)` ends with `.w`. */
  lemma EndsWithLastPart(u: string, v: string, w: string)
    ensures EndsWith(u + "." + (v + "." + w), "." + w)
  {
    var s, t := u + "." + (v + "." + w), "." + w;
    assert s == (u + "." + v) + t;
    assert s[|u + "." + v|..] == t;
  }

  /** The join of labels of one character each is two characters per label, less one. */
  lemma {:induction false} JoinSingleCharLength(ls: seq<string>)
    requires |ls| >= 1
    requires forall i :: 0 <= i < |ls| ==> |ls[i]| == 1
    ensures |JoinLabels(ls)| == 2 * |ls| - 1
    decreases |ls|
  {
    if |ls| > 1 {
      JoinSingleCharLength(ls[..|ls| - 1]);
    }
  }

  /** A join whose last label is non-empty ends with that label's last character. */
  lemma JoinLastChar(ls: seq<string>)
    requires |ls| >= 1 && |ls[|ls| - 1]| >= 1
    ensures |JoinLabels(ls)| >= 1
    ensures JoinLabels(ls)[|JoinLabels(ls)| - 1] == ls[|ls| - 1][|ls[|ls| - 1]| - 1]
  {
  }

  /** The first dot of `u.t` is right after a dot-free `u`. */
  lemma FindAfterLabel(u: string, t: string)
    requires DotFree(u)
    ensures Find(u + "." + t, '.') == |u|
  {
    var s := u + "." + t;
    assert s[|u|] == '.';
    assert forall i :: 0 <= i < |u| ==> s[i] == u[i];
  }

  /**
   * Peeling one label off both ends: with dot-free last labels `u` and `v`,
   * `p.u` ends with `q.v` exactly when the labels agree and `p` ends with `q`.
   */
  lemma DotSuffix(p: string, u: string, q: string, v: string)
    requires DotFree(u) && DotFree(v)
    ensures EndsWith(p + "." + u, q + "." + v) <==> u == v && EndsWith(p, q)
  {
    var s := p + "." + u;
    var t := q + "." + v;
    if EndsWith(s, t) {
      var off := |s| - |t|;
      assert forall i :: 0 <= i < |t| ==> s[off + i] == t[i];
      if |v| < |u| {
        DotLandsInSuffix(q, v, p, u);
        assert false;
      } else if |v| > |u| {
        DotLandsInLabel(p, u, q, v);
        assert false;
      }
      assert u == s[|s| - |u|..] == t[|t| - |v|..] == v;
      assert p[|p| - |q|..] == s[off..|p|] == t[..|q|] == q;
    }
    if u == v && EndsWith(p, q) {
      assert s[|s| - |t|..] == p[|p| - |q|..] + "." + u;
    }
  }

  /** When `p.u` ends with `q.v` and `v` is the shorter label, the dot in front of `v` lies inside `u`. */
  lemma DotLandsInSuffix(q: string, v: string, p: string, u: string)
    requires EndsWith(p + "." + u, q + "." + v) && |v| < |u|
    ensures u[|u| - |v| - 1] == '.'
  {
    var s := p + "." + u;
    var t := q + "." + v;
    assert s[|s| - |v| - 1] == t[|t| - |v| - 1] == '.';
    assert s[|s| - |v| - 1] == u[|u| - |v| - 1];
  }

  /** When `p.u` ends with `q.v` and `u` is the shorter label, the dot in front of `u` lies inside `v`. */
  lemma DotLandsInLabel(p: string, u: string, q: string, v: string)
    requires EndsWith(p + "." + u, q + "." + v) && |v| > |u|
    ensures v[|v| - |u| - 1] == '.'
  {
    var s := p + "." + u;
    var t := q + "." + v;
    assert t[|t| - |u| - 1] == s[|s| - |u| - 1] == '.';
    assert t[|t| - |u| - 1] == v[|v| - |u| - 1];
  }

  /** A dot-free string cannot end with anything that holds a dot. */
  lemma DotFreeSuffix(u: string, t: string)
    requires DotFree(u) && |t| >= 1 && t[0] == '.'
    ensures !EndsWith(u, t)
  {
    if EndsWith(u, t) {
      assert false;
    }
  }

  /**
   * For names made of dot-free labels, `name(ls)` ends with `.name(ms)` exactly
   * when `ms` is a proper tail of the label list `ls`: a suffix test on text
   * that starts at a dot is a test on whole labels.
   */
  lemma {:induction false} LabelSuffix(ls: seq<string>, ms: seq<string>)
    requires AllDotFree(ls) && AllDotFree(ms)
    requires |ls| >= 1 && |ms| >= 1
    ensures EndsWith(JoinLabels(ls), "." + JoinLabels(ms))
            <==> |ls| > |ms| && ls[|ls| - |ms|..] == ms
    decreases |ms|
  {
    var u := ls[|ls| - 1];
    var v := ms[|ms| - 1];
    if |ls| == 1 {
      DotFreeSuffix(u, "." + JoinLabels(ms));
    } else {
      var l0 := ls[..|ls| - 1];
      assert JoinLabels(ls) == JoinLabels(l0) + "." + u;
      if |ms| == 1 {
        assert "." + JoinLabels(ms) == "" + "." + v;
        DotSuffix(JoinLabels(l0), u, "", v);
        assert ls[|ls| - 1..] == [u];
      } else {
        var m0 := ms[..|ms| - 1];
        assert "." + JoinLabels(ms) == ("." + JoinLabels(m0)) + "." + v;
        DotSuffix(JoinLabels(l0), u, "." + JoinLabels(m0), v);
        LabelSuffix(l0, m0);
        if |ls| > |ms| {
          assert ls[|ls| - |ms|..] == l0[|l0| - |m0|..] + [u];
          assert ms == m0 + [v];
        }
      }
    }
  }

  /** Distinct lists of dot-free labels have distinct joins. */
  lemma JoinInjective(ls: seq<string>, ms: seq<string>)
    requires AllDotFree(ls) && AllDotFree(ms)
    requires |ls| >= 1 && |ms| >= 1
    requires JoinLabels(ls) == JoinLabels(ms)
    ensures ls == ms
  {
    JoinAppend([""], ls);
    JoinAppend([""], ms);
    assert JoinLabels([""] + ls) == "." + JoinLabels(ms);
    assert JoinLabels([""] + ms) == "." + JoinLabels(ls);
    LabelSuffix([""] + ls, ms);
    LabelSuffix([""] + ms, ls);
    assert ([""] + ls)[1..] == ls;
  }
}
