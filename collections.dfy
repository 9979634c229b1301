/** Sequence helpers shared by the whole model: distinctness, first-occurrence
    de-duplication (how a Python dict or a pandas index collects keys), and
    counting the present and missing entries of a column. */
module Collections {
  import opened Wrappers

  predicate Distinct<T(==)>(s: seq<T>) {
    forall i, j :: 0 <= i < j < |s| ==> s[i] != s[j]
  }

  /** The elements of `s` in order of first occurrence, each once. */
  function Dedup<T(==)>(s: seq<T>): (r: seq<T>)
    ensures Distinct(r)
    ensures forall i :: 0 <= i < |r| ==> r[i] in s
    ensures forall i :: 0 <= i < |s| ==> s[i] in r
    ensures |r| <= |s|
  {
    if |s| == 0 then []
    else
      var prefix := Dedup(s[..|s| - 1]);
      var last := s[|s| - 1];
      assert s == s[..|s| - 1] + [last];
      if last in prefix then prefix else prefix + [last]
  }

  /** The positions where a value occurs for the first time, in order. */
  function FirstPositions<T(==)>(s: seq<T>): (idx: seq<nat>)
    ensures forall k :: 0 <= k < |idx| ==> idx[k] < |s|
  {
    if |s| == 0 then []
    else
      var p := s[..|s| - 1];
      FirstPositions(p) + (if s[|s| - 1] in p then [] else [|s| - 1])
  }

  /** `r` lists the values at the increasing positions `idx`, and `idx` holds
      exactly the positions of first occurrences. */
  ghost predicate PicksFirsts<T>(s: seq<T>, idx: seq<nat>, r: seq<T>) {
    && |idx| == |r|
    && (forall k :: 0 <= k < |idx| ==> idx[k] < |s| && s[idx[k]] == r[k] && s[idx[k]] !in s[..idx[k]])
    && (forall a, b :: 0 <= a < b < |idx| ==> idx[a] < idx[b])
    && (forall i :: 0 <= i < |s| && s[i] !in s[..i] ==> i in idx)
  }

  /** `Dedup(s)` lists the first occurrences of the values of `s`, in the
      order those occurrences come. */
  lemma {:induction false} DedupInOrder<T>(s: seq<T>)
    ensures PicksFirsts(s, FirstPositions(s), Dedup(s))
  {
    var n := |s|;
    if n > 0 {
      var p := s[..n - 1];
      DedupInOrder(p);
      assert s[n - 1] in Dedup(p) <==> s[n - 1] in p;
      PicksFirstsSnoc(p, FirstPositions(p), Dedup(p), s[n - 1]);
      assert s == p + [s[n - 1]];
    }
  }

  lemma PicksFirstsSnoc<T>(p: seq<T>, idx: seq<nat>, r: seq<T>, y: T)
    requires PicksFirsts(p, idx, r)
    ensures PicksFirsts(p + [y], idx + (if y in p then [] else [|p|]), r + (if y in p then [] else [y]))
  {
    var s := p + [y];
    assert forall k :: 0 <= k < |idx| ==> s[idx[k]] == p[idx[k]] && s[..idx[k]] == p[..idx[k]];
    assert s[..|p|] == p;
    forall i | 0 <= i < |p| ensures s[..i] == p[..i] {}
  }

  /** A distinct sequence has as many elements as the set of its elements. */
  lemma {:induction false} DistinctCardinality<T>(s: seq<T>)
    requires Distinct(s)
    ensures |set x | x in s| == |s|
  {
    if |s| > 0 {
      var prefix := s[..|s| - 1];
      var last := s[|s| - 1];
      DistinctCardinality(prefix);
      assert s == prefix + [last];
      assert (set x | x in s) == (set x | x in prefix) + {last};
    }
  }

  /** `Dedup(s)` holds one entry per distinct element of `s`. */
  lemma DedupCardinality<T>(s: seq<T>)
    ensures |Dedup(s)| == |set x | x in s|
  {
    DistinctCardinality(Dedup(s));
    assert (set x | x in Dedup(s)) == (set x | x in s);
  }

  /** The values of the present entries, in row order. */
  function Present<T(==)>(s: seq<Option<T>>): (r: seq<T>)
    ensures |r| <= |s|
    ensures forall i :: 0 <= i < |r| ==> Some(r[i]) in s
    ensures forall i :: 0 <= i < |s| && s[i].Some? ==> s[i].value in r
  {
    if |s| == 0 then []
    else
      var prefix := Present(s[..|s| - 1]);
      assert s == s[..|s| - 1] + [s[|s| - 1]];
      match s[|s| - 1]
      case None => prefix
      case Some(x) => prefix + [x]
  }

  /** Appending an entry appends its value when it is present. */
  lemma PresentSnoc<T>(s: seq<Option<T>>, y: Option<T>)
    ensures Present(s + [y]) == Present(s) + (if y.Some? then [y.value] else [])
  {
    assert (s + [y])[..|s|] == s;
  }

  /** The positions of the present entries, in row order. */
  function PresentPositions<T>(s: seq<Option<T>>): (idx: seq<nat>)
    ensures forall k :: 0 <= k < |idx| ==> idx[k] < |s|
  {
    if |s| == 0 then []
    else PresentPositions(s[..|s| - 1]) + (if s[|s| - 1].Some? then [|s| - 1] else [])
  }

  /** `r` lists the values at the increasing positions `idx`, and `idx` holds
      every position of a present entry. */
  ghost predicate PicksPresent<T>(s: seq<Option<T>>, idx: seq<nat>, r: seq<T>) {
    && |idx| == |r|
    && (forall k :: 0 <= k < |idx| ==> idx[k] < |s| && s[idx[k]] == Some(r[k]))
    && (forall a, b :: 0 <= a < b < |idx| ==> idx[a] < idx[b])
    && (forall i :: 0 <= i < |s| && s[i].Some? ==> i in idx)
  }

  /** `Present(s)` is the values of the present entries, each once per entry
      and in row order (`dropna`). */
  lemma {:induction false} PresentInOrder<T>(s: seq<Option<T>>)
    ensures PicksPresent(s, PresentPositions(s), Present(s))
  {
    var n := |s|;
    if n > 0 {
      var p := s[..n - 1];
      PresentInOrder(p);
      PicksPresentSnoc(p, PresentPositions(p), Present(p), s[n - 1]);
      assert s == p + [s[n - 1]];
    }
  }

  lemma PicksPresentSnoc<T>(p: seq<Option<T>>, idx: seq<nat>, r: seq<T>, y: Option<T>)
    requires PicksPresent(p, idx, r)
    ensures PicksPresent(p + [y], idx + (if y.Some? then [|p|] else []), r + (if y.Some? then [y.value] else []))
  {
    var s := p + [y];
    assert forall k :: 0 <= k < |idx| ==> s[idx[k]] == p[idx[k]];
  }

  /** Number of entries of `s` equal to `Some(v)`. */
  function Occ<T(==)>(s: seq<Option<T>>, v: T): nat {
    if |s| == 0 then 0
    else Occ(s[..|s| - 1], v) + (if s[|s| - 1] == Some(v) then 1 else 0)
  }

  /** Number of missing entries of `s`. */
  function MissingCount<T>(s: seq<Option<T>>): nat {
    if |s| == 0 then 0
    else MissingCount(s[..|s| - 1]) + (if s[|s| - 1].None? then 1 else 0)
  }

  /** Missing and present entries together make up the whole sequence, and the
      counts agree with the multiset of entries. */
  lemma {:induction false} MissingCountSplit<T>(s: seq<Option<T>>)
    ensures MissingCount(s) + |Present(s)| == |s|
    ensures MissingCount(s) == multiset(s)[None]
    ensures MissingCount(s) > 0 <==> None in s
  {
    if |s| > 0 {
      var prefix := s[..|s| - 1];
      MissingCountSplit(prefix);
      assert s == prefix + [s[|s| - 1]];
    }
  }

  /** `Occ` counts exactly the occurrences recorded by the multiset of entries. */
  lemma {:induction false} OccIsMultiplicity<T>(s: seq<Option<T>>, v: T)
    ensures Occ(s, v) == multiset(s)[Some(v)]
    ensures Occ(s, v) > 0 <==> Some(v) in s
  {
    if |s| > 0 {
      var prefix := s[..|s| - 1];
      OccIsMultiplicity(prefix, v);
      assert s == prefix + [s[|s| - 1]];
    }
  }

  /** Every entry wrapped as present: a derived column that is never NaN. */
  function AllPresent<T>(s: seq<T>): (r: seq<Option<T>>)
    ensures |r| == |s|
    ensures forall k :: 0 <= k < |s| ==> r[k] == Some(s[k])
  {
    seq(|s|, k requires 0 <= k < |s| => Some(s[k]))
  }

  /** The elements of `s` satisfying `p`, in their original order. */
  function Filter<T(==)>(s: seq<T>, p: T -> bool): (r: seq<T>)
    ensures |r| <= |s|
    ensures forall i :: 0 <= i < |r| ==> p(r[i]) && r[i] in s
    ensures forall i :: 0 <= i < |s| && p(s[i]) ==> s[i] in r
  {
    if |s| == 0 then []
    else
      var rest := Filter(s[1..], p);
      assert s == [s[0]] + s[1..];
      if p(s[0]) then [s[0]] + rest else rest
  }

  /** The positions of the elements `Filter` keeps, in order. */
  function FilterIndices<T>(s: seq<T>, p: T -> bool): (idx: seq<nat>)
    ensures |idx| <= |s|
  {
    if |s| == 0 then []
    else
      var rest := Shift(FilterIndices(s[1..], p));
      if p(s[0]) then [0] + rest else rest
  }

  function Shift(xs: seq<nat>): (r: seq<nat>)
    ensures |r| == |xs| && forall k :: 0 <= k < |xs| ==> r[k] == xs[k] + 1
  {
    seq(|xs|, k requires 0 <= k < |xs| => xs[k] + 1)
  }

  /** `r` is the subsequence of `s` at the increasing positions `idx`. */
  ghost predicate Picks<T>(s: seq<T>, idx: seq<nat>, r: seq<T>) {
    && |idx| == |r|
    && (forall k :: 0 <= k < |idx| ==> idx[k] < |s| && s[idx[k]] == r[k])
    && (forall a, b :: 0 <= a < b < |idx| ==> idx[a] < idx[b])
  }

  lemma PicksShift<T>(x: T, t: seq<T>, idx: seq<nat>, r: seq<T>)
    requires Picks(t, idx, r)
    ensures Picks([x] + t, Shift(idx), r)
    ensures forall k :: 0 <= k < |idx| ==> Shift(idx)[k] > 0
  {
    var s := [x] + t;
    forall k | 0 <= k < |idx| ensures Shift(idx)[k] < |s| && s[Shift(idx)[k]] == r[k] {
      assert s[idx[k] + 1] == t[idx[k]];
    }
  }

  lemma PicksCons<T>(s: seq<T>, idx: seq<nat>, r: seq<T>)
    requires |s| > 0 && Picks(s, idx, r)
    requires forall k :: 0 <= k < |idx| ==> idx[k] > 0
    ensures Picks(s, [0] + idx, [s[0]] + r)
  {
    var idx', r' := [0] + idx, [s[0]] + r;
    assert forall k :: 1 <= k < |idx'| ==> idx'[k] == idx[k - 1] && r'[k] == r[k - 1];
  }

  /** `Filter` takes its elements from increasing positions of `s`, so they
      keep their original order. */
  lemma {:induction false} FilterPicks<T>(s: seq<T>, p: T -> bool)
    ensures Picks(s, FilterIndices(s, p), Filter(s, p))
  {
    if |s| > 0 {
      var t := s[1..];
      FilterPicks(t, p);
      assert s == [s[0]] + t;
      PicksShift(s[0], t, FilterIndices(t, p), Filter(t, p));
      if p(s[0]) {
        PicksCons(s, Shift(FilterIndices(t, p)), Filter(t, p));
      }
    }
  }

  /** Every position whose element satisfies `p` is among the kept ones. */
  lemma {:induction false} FilterIndicesCover<T>(s: seq<T>, p: T -> bool, i: nat)
    requires i < |s| && p(s[i])
    ensures i in FilterIndices(s, p)
  {
    if i > 0 {
      var t := s[1..];
      assert t[i - 1] == s[i];
      FilterIndicesCover(t, p, i - 1);
      var inner := FilterIndices(t, p);
      var k :| 0 <= k < |inner| && inner[k] == i - 1;
      assert Shift(inner)[k] == i;
    }
  }

  /** The error of the first failing step of a sequence of steps, if any:
      where a loop that stops at the first exception stops. */
  function FirstError<T, E>(rs: seq<Result<T, E>>): (e: Option<E>)
    ensures e.None? <==> forall i :: 0 <= i < |rs| ==> rs[i].Ok?
    ensures e.Some? ==>
      exists i :: 0 <= i < |rs| && (forall k :: 0 <= k < i ==> rs[k].Ok?) && rs[i].Err? && rs[i].error == e.value
  {
    if |rs| == 0 then None
    else if rs[0].Err? then Some(rs[0].error)
    else
      var rest := FirstError(rs[1..]);
      if rest.Some? then
        ghost var i :| 0 <= i < |rs| - 1
          && (forall k :: 0 <= k < i ==> rs[1..][k].Ok?) && rs[1..][i].Err? && rs[1..][i].error == rest.value;
        assert forall k :: 0 < k < i + 1 ==> rs[k] == rs[1..][k - 1];
        rest
      else
        assert forall i :: 1 <= i < |rs| ==> rs[i] == rs[1..][i - 1];
        rest
  }

  /** When every step before `i` succeeds and step `i` fails, the first error
      is step `i`'s. */
  lemma FirstErrorAt<T, E>(rs: seq<Result<T, E>>, i: nat)
    requires i < |rs| && rs[i].Err?
    requires forall k :: 0 <= k < i ==> rs[k].Ok?
    ensures FirstError(rs) == Some(rs[i].error)
  {
    var e := FirstError(rs);
    var j :| 0 <= j < |rs| && (forall k :: 0 <= k < j ==> rs[k].Ok?) && rs[j].Err? && rs[j].error == e.value;
    assert !(j < i) && !(i < j);
  }

  /** `f` applied to every element, in order. */
  function MapSeq<A, X>(s: seq<A>, f: A --> X): (r: seq<X>)
    requires forall k :: 0 <= k < |s| ==> f.requires(s[k])
    ensures |r| == |s|
    ensures forall k :: 0 <= k < |s| ==> r[k] == f(s[k])
  {
    if |s| == 0 then []
    else
      var rest := MapSeq(s[1..], f);
      var r := [f(s[0])] + rest;
      assert forall k :: 1 <= k < |s| ==> r[k] == rest[k - 1] && s[k] == s[1..][k - 1];
      r
  }

  /** The values of a sequence of steps that all succeed, or the first
      error: what a loop that appends each step's value and stops at the
      first exception returns. */
  function AllOk<T, E>(rs: seq<Result<T, E>>): (r: Result<seq<T>, E>)
    ensures r.Err? <==> FirstError(rs).Some?
    ensures r.Err? ==> r.error == FirstError(rs).value
    ensures r.Ok? ==> |r.value| == |rs| && forall k :: 0 <= k < |rs| ==> rs[k] == Ok(r.value[k])
  {
    match FirstError(rs)
    case Some(e) => Err(e)
    case None => Ok(seq(|rs|, k requires 0 <= k < |rs| => rs[k].value))
  }

  /** Steps that all succeed collect exactly their values. */
  lemma AllOkOf<T, E>(rs: seq<Result<T, E>>, vs: seq<T>)
    requires |rs| == |vs| && forall k :: 0 <= k < |rs| ==> rs[k] == Ok(vs[k])
    ensures AllOk(rs) == Ok(vs)
  {
    var r := AllOk(rs);
    assert FirstError(rs).None?;
    assert forall k :: 0 <= k < |vs| ==> r.value[k] == vs[k];
    assert r.value == vs;
  }

  /** `done` followed by the values of `r`, or `r`'s error. */
  function Prepend<T, E>(done: seq<T>, r: Result<seq<T>, E>): Result<seq<T>, E> {
    match r
    case Ok(vs) => Ok(done + vs)
    case Err(e) => Err(e)
  }

  /** Running the steps one at a time: a failing first step stops the run,
      a successful one contributes its value in front. */
  lemma AllOkCons<T, E>(x: Result<T, E>, rest: seq<Result<T, E>>)
    ensures x.Err? ==> AllOk([x] + rest) == Err(x.error)
    ensures x.Ok? ==> AllOk([x] + rest) == Prepend([x.value], AllOk(rest))
  {
    if x.Err? {
      FirstErrorAt([x] + rest, 0);
    } else if FirstError(rest).Some? {
      AllOkConsFails(x, rest);
    } else {
      AllOkConsSucceeds(x, rest);
    }
  }

  lemma AllOkConsFails<T, E>(x: Result<T, E>, rest: seq<Result<T, E>>)
    requires x.Ok? && FirstError(rest).Some?
    ensures FirstError([x] + rest) == FirstError(rest)
  {
    assert ([x] + rest)[1..] == rest;
  }

  lemma AllOkConsSucceeds<T, E>(x: Result<T, E>, rest: seq<Result<T, E>>)
    requires x.Ok? && FirstError(rest).None?
    ensures AllOk([x] + rest) == Ok([x.value] + AllOk(rest).value)
  {
    var all := [x] + rest;
    var vs := AllOk(rest).value;
    assert forall k :: 0 <= k < |rest| ==> all[k + 1] == rest[k];
    AllOkOf(all, [x.value] + vs);
  }

  lemma PrependNothing<T, E>(r: Result<seq<T>, E>)
    ensures Prepend([], r) == r
  {
    if r.Ok? {
      assert [] + r.value == r.value;
    }
  }

  lemma PrependPrepend<T, E>(a: seq<T>, b: seq<T>, r: Result<seq<T>, E>)
    ensures Prepend(a, Prepend(b, r)) == Prepend(a + b, r)
  {
    if r.Ok? {
      assert a + (b + r.value) == a + b + r.value;
    }
  }

  lemma MapSeqCons<A, X>(x: A, rest: seq<A>, f: A --> X)
    requires f.requires(x) && forall k :: 0 <= k < |rest| ==> f.requires(rest[k])
    ensures MapSeq([x] + rest, f) == [f(x)] + MapSeq(rest, f)
  {
    assert ([x] + rest)[1..] == rest;
  }
}
