/** The column pairs the pairwise pass of `analyze_missing_patterns` visits:
    the nested loop runs `col1` and then `col2` over the columns in frame order
    and keeps a pair only when `col1 < col2` (Python string order). Pairs are
    named by column positions. */
module PairOrder {
  import opened StringOrder

  /** The pairs the nested loop keeps from outer position `i` and inner
      position `j` onwards, in the order it visits them. */
  function Rest(names: seq<string>, i: nat, j: nat): (r: seq<(nat, nat)>)
    requires i <= |names| && j <= |names|
    ensures forall k :: 0 <= k < |r| ==> r[k].0 < |names| && r[k].1 < |names|
    decreases |names| - i, |names| - j
  {
    if i == |names| then []
    else if j == |names| then Rest(names, i + 1, 0)
    else (if LexLess(names[i], names[j]) then [(i, j)] else []) + Rest(names, i, j + 1)
  }

  /** Every pair the nested loop keeps, in loop order. */
  function Pairs(names: seq<string>): seq<(nat, nat)> {
    Rest(names, 0, 0)
  }

  /** The nested-loop order on position pairs: by first position, then by
      second. */
  predicate Before(a: (nat, nat), b: (nat, nat)) {
    a.0 < b.0 || (a.0 == b.0 && a.1 < b.1)
  }

  /** Each pair still to visit has its names in order and does not come
      before the current loop position. */
  lemma {:induction false} RestSound(names: seq<string>, i: nat, j: nat)
    requires i <= |names| && j <= |names|
    ensures forall k :: 0 <= k < |Rest(names, i, j)| ==>
      && LexLess(names[Rest(names, i, j)[k].0], names[Rest(names, i, j)[k].1])
      && !Before(Rest(names, i, j)[k], (i, j))
    decreases |names| - i, |names| - j
  {
    if i < |names| {
      if j == |names| {
        RestSound(names, i + 1, 0);
      } else {
        RestSound(names, i, j + 1);
        var here: seq<(nat, nat)> := if LexLess(names[i], names[j]) then [(i, j)] else [];
        var rest := Rest(names, i, j + 1);
        assert Rest(names, i, j) == here + rest;
        forall k | 0 <= k < |here + rest|
          ensures LexLess(names[(here + rest)[k].0], names[(here + rest)[k].1]) && !Before((here + rest)[k], (i, j))
        {
          if k >= |here| {
            assert (here + rest)[k] == rest[k - |here|];
          }
        }
      }
    }
  }

  /** A pair whose names are in order and which does not come before the
      current loop position is still to be visited. */
  lemma {:induction false} RestComplete(names: seq<string>, i: nat, j: nat, p: (nat, nat))
    requires i <= |names| && j <= |names|
    requires p.0 < |names| && p.1 < |names| && LexLess(names[p.0], names[p.1]) && !Before(p, (i, j))
    ensures p in Rest(names, i, j)
    decreases |names| - i, |names| - j
  {
    if j == |names| {
      RestComplete(names, i + 1, 0, p);
    } else if p == (i, j) {
      assert Rest(names, i, j) == [p] + Rest(names, i, j + 1);
    } else {
      RestComplete(names, i, j + 1, p);
      var here: seq<(nat, nat)> := if LexLess(names[i], names[j]) then [(i, j)] else [];
      assert Rest(names, i, j) == here + Rest(names, i, j + 1);
    }
  }

  /** The pairs still to visit come in nested-loop order. */
  lemma {:induction false} RestOrdered(names: seq<string>, i: nat, j: nat)
    requires i <= |names| && j <= |names|
    ensures forall a, b :: 0 <= a < b < |Rest(names, i, j)| ==> Before(Rest(names, i, j)[a], Rest(names, i, j)[b])
    decreases |names| - i, |names| - j
  {
    if i < |names| {
      if j == |names| {
        RestOrdered(names, i + 1, 0);
      } else {
        RestOrdered(names, i, j + 1);
        RestSound(names, i, j + 1);
        var here: seq<(nat, nat)> := if LexLess(names[i], names[j]) then [(i, j)] else [];
        var rest := Rest(names, i, j + 1);
        assert Rest(names, i, j) == here + rest;
        forall a, b | 0 <= a < b < |here + rest|
          ensures Before((here + rest)[a], (here + rest)[b])
        {
          assert (here + rest)[b] == rest[b - |here|];
          if a >= |here| {
            assert (here + rest)[a] == rest[a - |here|];
          }
        }
      }
    }
  }

  /** The pairwise pass emits a pair of columns exactly when the first name
      sorts before the second, never a column with itself, each pair once
      and in nested-loop order. */
  lemma PairsSpec(names: seq<string>)
    ensures forall p :: p in Pairs(names) <==>
      p.0 < |names| && p.1 < |names| && LexLess(names[p.0], names[p.1])
    ensures forall k :: 0 <= k < |Pairs(names)| ==> names[Pairs(names)[k].0] != names[Pairs(names)[k].1]
    ensures forall a, b :: 0 <= a < b < |Pairs(names)| ==> Before(Pairs(names)[a], Pairs(names)[b])
  {
    RestSound(names, 0, 0);
    RestOrdered(names, 0, 0);
    forall p: (nat, nat) | p.0 < |names| && p.1 < |names| && LexLess(names[p.0], names[p.1])
      ensures p in Pairs(names)
    {
      RestComplete(names, 0, 0, p);
    }
    forall k | 0 <= k < |Pairs(names)|
      ensures names[Pairs(names)[k].0] != names[Pairs(names)[k].1]
    {
      LexLessIrreflexive(names[Pairs(names)[k].0]);
    }
  }

  /** Number of entries of `u` that `x` sorts before. */
  function GreaterIn(u: seq<string>, x: string): nat {
    if |u| == 0 then 0
    else GreaterIn(u[..|u| - 1], x) + (if LexLess(x, u[|u| - 1]) then 1 else 0)
  }

  /** Number of entries of `ts` that sort before `y`. */
  function LessIn(ts: seq<string>, y: string): nat {
    if |ts| == 0 then 0
    else LessIn(ts[..|ts| - 1], y) + (if LexLess(ts[|ts| - 1], y) then 1 else 0)
  }

  /** The number of ordered pairs `(x, y)`, `x` from `ts` and `y` from `u`,
      with `x < y`. */
  function PairCount(ts: seq<string>, u: seq<string>): nat {
    if |ts| == 0 then 0
    else PairCount(ts[..|ts| - 1], u) + GreaterIn(u, ts[|ts| - 1])
  }

  /** Adding `y` to the right-hand side adds the entries of `ts` below `y`. */
  lemma {:induction false} PairCountExtend(ts: seq<string>, u: seq<string>, y: string)
    ensures PairCount(ts, u + [y]) == PairCount(ts, u) + LessIn(ts, y)
  {
    assert (u + [y])[..|u|] == u;
    if |ts| > 0 {
      PairCountExtend(ts[..|ts| - 1], u, y);
    }
  }

  /** An element absent from `s` sorts either before or after each entry. */
  lemma {:induction false} LessPlusGreater(s: seq<string>, x: string)
    requires x !in s
    ensures LessIn(s, x) + GreaterIn(s, x) == |s|
  {
    if |s| > 0 {
      var last := s[|s| - 1];
      assert s == s[..|s| - 1] + [last];
      LessPlusGreater(s[..|s| - 1], x);
      LexLessTotal(last, x);
      LexLessAsymmetric(last, x);
    }
  }

  /** Among C distinct names, C·(C−1)/2 ordered pairs have the first below the
      second. */
  lemma {:induction false} PairCountDistinct(s: seq<string>)
    requires forall a, b :: 0 <= a < b < |s| ==> s[a] != s[b]
    ensures 2 * PairCount(s, s) == |s| * (|s| - 1)
  {
    if |s| > 0 {
      var t, x := s[..|s| - 1], s[|s| - 1];
      PairCountDistinct(t);
      PairCountLast(t, x);
      assert s == t + [x];
      ChooseTwoStep(|t|);
    }
  }

  lemma ChooseTwoStep(m: int)
    ensures (m + 1) * m == m * (m - 1) + 2 * m
  {
  }

  /** Adding a new name at the end adds one ordered pair per earlier name. */
  lemma PairCountLast(t: seq<string>, x: string)
    requires forall a :: 0 <= a < |t| ==> t[a] != x
    ensures PairCount(t + [x], t + [x]) == PairCount(t, t) + |t|
  {
    var s := t + [x];
    assert x !in t;
    PairCountExtend(t, t, x);
    LessPlusGreater(t, x);
    LexLessIrreflexive(x);
    assert s[..|t|] == t;
    assert GreaterIn(s, x) == GreaterIn(t, x);
    assert PairCount(s, s) == PairCount(t, s) + GreaterIn(s, x);
  }

  /** Counting the first entry of `u` separately. */
  lemma {:induction false} GreaterInFront(y: string, t: seq<string>, x: string)
    ensures GreaterIn([y] + t, x) == (if LexLess(x, y) then 1 else 0) + GreaterIn(t, x)
  {
    if |t| > 0 {
      GreaterInFront(y, t[..|t| - 1], x);
      assert ([y] + t)[..|t|] == [y] + t[..|t| - 1];
    }
  }

  /** Counting the first entry of `ts` separately. */
  lemma {:induction false} PairCountFront(x: string, ts: seq<string>, u: seq<string>)
    ensures PairCount([x] + ts, u) == GreaterIn(u, x) + PairCount(ts, u)
  {
    if |ts| > 0 {
      PairCountFront(x, ts[..|ts| - 1], u);
      assert ([x] + ts)[..|ts|] == [x] + ts[..|ts| - 1];
    }
  }

  /** The number of pairs still to visit: the later inner positions of the
      current outer position, then every later outer position. */
  lemma {:induction false} RestLength(names: seq<string>, i: nat, j: nat)
    requires i < |names| && j <= |names|
    ensures |Rest(names, i, j)| == GreaterIn(names[j..], names[i]) + PairCount(names[i + 1..], names)
    decreases |names| - i, |names| - j
  {
    if j == |names| {
      if i + 1 < |names| {
        RestLength(names, i + 1, 0);
        assert names[i + 1..] == [names[i + 1]] + names[i + 2..];
        PairCountFront(names[i + 1], names[i + 2..], names);
        assert names[0..] == names;
      }
    } else {
      RestLength(names, i, j + 1);
      assert names[j..] == [names[j]] + names[j + 1..];
      GreaterInFront(names[j], names[j + 1..], names[i]);
    }
  }

  /** For C distinct column names the pairwise pass emits C·(C−1)/2 rows. */
  lemma PairsCount(names: seq<string>)
    requires forall a, b :: 0 <= a < b < |names| ==> names[a] != names[b]
    ensures 2 * |Pairs(names)| == |names| * (|names| - 1)
  {
    PairCountDistinct(names);
    if |names| > 0 {
      RestLength(names, 0, 0);
      assert names[0..] == names;
      assert names == [names[0]] + names[1..];
      PairCountFront(names[0], names[1..], names);
    }
  }
}
