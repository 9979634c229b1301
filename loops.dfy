/** The loops of the analyses, each over any step: the feature loop of
    `analyze_group_differences`, which fills a results dict, and the two
    loops of `analyze_missing_patterns`, the nested loop over column pairs
    and the loop over the columns that have a missing value. Each stops at
    the first step that raises. */
module Loops {
  import opened Wrappers
  import opened Collections
  import opened StringOrder
  import opened PairOrder

  /** `step` applied to every pair still to visit, in loop order. */
  function StepsFrom<X, E>(names: seq<string>, step: ((nat, nat)) -> Result<X, E>, i: nat, j: nat): seq<Result<X, E>>
    requires i <= |names| && j <= |names|
  {
    MapSeq(Rest(names, i, j), step)
  }

  /** `step` applied to every kept pair, in loop order. */
  function PairSteps<X, E>(names: seq<string>, step: ((nat, nat)) -> Result<X, E>): (rs: seq<Result<X, E>>)
    ensures |rs| == |Pairs(names)|
    ensures forall k :: 0 <= k < |rs| ==> rs[k] == step(Pairs(names)[k])
  {
    StepsFrom(names, step, 0, 0)
  }

  /** One inner iteration: a pair whose names are out of order is skipped,
      a kept pair runs `step` first. */
  lemma StepsFromInner<X, E>(names: seq<string>, step: ((nat, nat)) -> Result<X, E>, i: nat, j: nat)
    requires i < |names| && j < |names|
    ensures !LexLess(names[i], names[j]) ==> StepsFrom(names, step, i, j) == StepsFrom(names, step, i, j + 1)
    ensures LexLess(names[i], names[j]) ==>
      StepsFrom(names, step, i, j) == [step((i, j))] + StepsFrom(names, step, i, j + 1)
  {
    if LexLess(names[i], names[j]) {
      assert Rest(names, i, j) == [(i, j)] + Rest(names, i, j + 1);
      MapSeqCons((i, j), Rest(names, i, j + 1), step);
    } else {
      assert Rest(names, i, j) == [] + Rest(names, i, j + 1);
      assert Rest(names, i, j) == Rest(names, i, j + 1);
    }
  }

  /** An inner iteration that skips a pair out of order changes nothing. */
  lemma SkipPair<X, E>(names: seq<string>, step: ((nat, nat)) -> Result<X, E>, i: nat, j: nat,
                       rows: seq<X>, all: Result<seq<X>, E>)
    requires i < |names| && j < |names| && !LexLess(names[i], names[j])
    requires all == Prepend(rows, AllOk(StepsFrom(names, step, i, j)))
    ensures all == Prepend(rows, AllOk(StepsFrom(names, step, i, j + 1)))
  {
    StepsFromInner(names, step, i, j);
  }

  /** A kept pair whose step fails is where the whole run fails. */
  lemma FailPair<X, E>(names: seq<string>, step: ((nat, nat)) -> Result<X, E>, i: nat, j: nat,
                       rows: seq<X>, all: Result<seq<X>, E>)
    requires i < |names| && j < |names| && LexLess(names[i], names[j]) && step((i, j)).Err?
    requires all == Prepend(rows, AllOk(StepsFrom(names, step, i, j)))
    ensures all == Err(step((i, j)).error)
  {
    StepsFromInner(names, step, i, j);
    AllOkCons(step((i, j)), StepsFrom(names, step, i, j + 1));
  }

  /** A kept pair whose step succeeds moves its value to the collected rows. */
  lemma KeepPair<X, E>(names: seq<string>, step: ((nat, nat)) -> Result<X, E>, i: nat, j: nat,
                       rows: seq<X>, all: Result<seq<X>, E>)
    requires i < |names| && j < |names| && LexLess(names[i], names[j]) && step((i, j)).Ok?
    requires all == Prepend(rows, AllOk(StepsFrom(names, step, i, j)))
    ensures all == Prepend(rows + [step((i, j)).value], AllOk(StepsFrom(names, step, i, j + 1)))
  {
    var x := step((i, j));
    StepsFromInner(names, step, i, j);
    AllOkCons(x, StepsFrom(names, step, i, j + 1));
    PrependPrepend(rows, [x.value], AllOk(StepsFrom(names, step, i, j + 1)));
  }

  /** The end of an outer iteration moves on to the next outer position. */
  lemma OuterStep<X, E>(names: seq<string>, step: ((nat, nat)) -> Result<X, E>, i: nat)
    requires i < |names|
    ensures StepsFrom(names, step, i, |names|) == StepsFrom(names, step, i + 1, 0)
  {
    assert Rest(names, i, |names|) == Rest(names, i + 1, 0);
  }

  /** After the last outer iteration nothing is left to visit. */
  lemma Finished<X, E>(names: seq<string>, step: ((nat, nat)) -> Result<X, E>, rows: seq<X>)
    ensures Prepend(rows, AllOk(StepsFrom(names, step, |names|, 0))) == Ok(rows)
  {
    assert StepsFrom(names, step, |names|, 0) == [];
    assert rows + [] == rows;
  }

  /** The inner loop `for col2 in names: if col1 < col2:` for the outer
      position `i`, continuing the rows collected so far: it fails with the
      error of the first failing step, or hands the longer list of rows on
      to the next outer position. */
  method InnerPairs<X, E>(names: seq<string>, step: ((nat, nat)) -> Result<X, E>, i: nat, rows: seq<X>)
    returns (r: Result<seq<X>, E>)
    requires i < |names|
    ensures r.Err? ==> Prepend(rows, AllOk(StepsFrom(names, step, i, 0))) == Err(r.error)
    ensures r.Ok? ==>
      Prepend(rows, AllOk(StepsFrom(names, step, i, 0))) == Prepend(r.value, AllOk(StepsFrom(names, step, i + 1, 0)))
  {
    ghost var all := Prepend(rows, AllOk(StepsFrom(names, step, i, 0)));
    var done := rows;
    var j: nat := 0;
    while j < |names|
      invariant j <= |names|
      invariant all == Prepend(done, AllOk(StepsFrom(names, step, i, j)))
    {
      if LexLess(names[i], names[j]) {
        var x := step((i, j));
        if x.Err? {
          FailPair(names, step, i, j, done, all);
          return Err(x.error);
        }
        KeepPair(names, step, i, j, done, all);
        done := done + [x.value];
      } else {
        SkipPair(names, step, i, j, done, all);
      }
      j := j + 1;
    }
    OuterStep(names, step, i);
    r := Ok(done);
  }

  /** The nested loop `for col1 in names: for col2 in names: if col1 < col2:`
      running `step` on each kept pair, appending its value and stopping at
      the first failing step. */
  method ForEachPair<X, E>(names: seq<string>, step: ((nat, nat)) -> Result<X, E>) returns (r: Result<seq<X>, E>)
    ensures r == AllOk(PairSteps(names, step))
  {
    ghost var all := AllOk(PairSteps(names, step));
    var rows: seq<X> := [];
    PrependNothing(all);
    var i: nat := 0;
    while i < |names|
      invariant i <= |names|
      invariant all == Prepend(rows, AllOk(StepsFrom(names, step, i, 0)))
    {
      var next := InnerPairs(names, step, i, rows);
      if next.Err? {
        return Err(next.error);
      }
      rows := next.value;
      i := i + 1;
    }
    Finished(names, step, rows);
    r := Ok(rows);
  }

  /** `step` applied to the elements of `s` that pass `keep`, in order. */
  function KeptSteps<C(==), X, E>(s: seq<C>, keep: C -> bool, step: C --> Result<X, E>): (rs: seq<Result<X, E>>)
    requires forall c :: c in s ==> step.requires(c)
    ensures |rs| == |Filter(s, keep)|
    ensures forall k :: 0 <= k < |rs| ==> rs[k] == step(Filter(s, keep)[k])
  {
    MapSeq(Filter(s, keep), step)
  }

  /** One iteration of the filtering loop keeps its invariant. */
  lemma KeptStep<C, X, E>(s: seq<C>, keep: C -> bool, step: C --> Result<X, E>, i: nat,
                         rows: seq<X>, all: Result<seq<X>, E>)
    requires i < |s| && forall c :: c in s ==> step.requires(c)
    requires all == Prepend(rows, AllOk(KeptSteps(s[i..], keep, step)))
    ensures !keep(s[i]) ==> all == Prepend(rows, AllOk(KeptSteps(s[i + 1..], keep, step)))
    ensures keep(s[i]) && step(s[i]).Err? ==> all == Err(step(s[i]).error)
    ensures keep(s[i]) && step(s[i]).Ok? ==>
      all == Prepend(rows + [step(s[i]).value], AllOk(KeptSteps(s[i + 1..], keep, step)))
  {
    var rest := Filter(s[i + 1..], keep);
    assert s[i..][1..] == s[i + 1..];
    if keep(s[i]) {
      assert Filter(s[i..], keep) == [s[i]] + rest;
      MapSeqCons(s[i], rest, step);
      var x := step(s[i]);
      AllOkCons(x, MapSeq(rest, step));
      if x.Ok? {
        PrependPrepend(rows, [x.value], AllOk(MapSeq(rest, step)));
      }
    } else {
      assert Filter(s[i..], keep) == rest;
    }
  }

  /** `for c in s: if keep(c): rows.append(step(c))`, stopping at the first
      failing step. */
  method ForEachKept<C(==), X, E>(s: seq<C>, keep: C -> bool, step: C --> Result<X, E>) returns (r: Result<seq<X>, E>)
    requires forall c :: c in s ==> step.requires(c)
    ensures r == AllOk(KeptSteps(s, keep, step))
  {
    ghost var all := AllOk(KeptSteps(s, keep, step));
    var rows: seq<X> := [];
    PrependNothing(all);
    assert s[0..] == s;
    var i := 0;
    while i < |s|
      invariant 0 <= i <= |s|
      invariant all == Prepend(rows, AllOk(KeptSteps(s[i..], keep, step)))
    {
      KeptStep(s, keep, step, i, rows, all);
      if keep(s[i]) {
        var x := step(s[i]);
        if x.Err? {
          return Err(x.error);
        }
        rows := rows + [x.value];
      }
      i := i + 1;
    }
    assert KeptSteps(s[i..], keep, step) == [];
    assert rows + [] == rows;
    r := Ok(rows);
  }

  /** The outcome of `step` on every key, in order. */
  function Steps<V, E>(keys: seq<string>, step: string --> Result<V, E>): (rs: seq<Result<V, E>>)
    requires forall k :: step.requires(k)
    ensures |rs| == |keys|
    ensures forall i :: 0 <= i < |keys| ==> rs[i] == step(keys[i])
  {
    MapSeq(keys, step)
  }

  /** A filled results dict: `order` lists the keys in order of first
      insertion, and the dict holds exactly those keys, each with its step's
      value. */
  ghost predicate Dict<V, E>(keys: seq<string>, step: string --> Result<V, E>,
                             results: map<string, V>, order: seq<string>)
    requires forall k :: step.requires(k)
  {
    && order == Dedup(keys)
    && (forall k :: k in results <==> k in order)
    && (forall k :: k in results ==> step(k) == Ok(results[k]))
  }

  /** The state of the results-dict loop after the first `i` keys: every
      step so far succeeded and the dict is filled from those keys. */
  ghost predicate Collected<V, E>(keys: seq<string>, step: string --> Result<V, E>, i: nat,
                                  results: map<string, V>, order: seq<string>)
    requires i <= |keys| && forall k :: step.requires(k)
  {
    && (forall j :: 0 <= j < i ==> step(keys[j]).Ok?)
    && Dict(keys[..i], step, results, order)
  }

  /** One iteration of the results-dict loop whose step succeeds. */
  lemma CollectStep<V, E>(keys: seq<string>, step: string --> Result<V, E>, i: nat,
                          results: map<string, V>, order: seq<string>)
    requires i < |keys| && forall k :: step.requires(k)
    requires Collected(keys, step, i, results, order) && step(keys[i]).Ok?
    ensures Collected(keys, step, i + 1, results[keys[i] := step(keys[i]).value],
                      if keys[i] in order then order else order + [keys[i]])
  {
    assert keys[..i + 1][..i] == keys[..i];
  }

  /** The results-dict loop stops at key `i` with that key's error. */
  lemma CollectFailed<V, E>(keys: seq<string>, step: string --> Result<V, E>, i: nat,
                            results: map<string, V>, order: seq<string>)
    requires i < |keys| && forall k :: step.requires(k)
    requires Collected(keys, step, i, results, order) && step(keys[i]).Err?
    ensures FirstError(Steps(keys, step)) == Some(step(keys[i]).error)
  {
    FirstErrorAt(Steps(keys, step), i);
  }

  /** The results-dict loop runs to the end: no step failed and `order` lists
      every key once. */
  lemma CollectDone<V, E>(keys: seq<string>, step: string --> Result<V, E>,
                          results: map<string, V>, order: seq<string>)
    requires forall k :: step.requires(k)
    requires Collected(keys, step, |keys|, results, order)
    ensures FirstError(Steps(keys, step)).None?
    ensures Dict(keys, step, results, order)
  {
    assert keys[..|keys|] == keys;
  }

  /** `for k in keys: results[k] = step(k)`, stopping at the first failing
      step; otherwise the dict maps every key, in order of first insertion,
      to its step's value (a repeated key overwrites its own entry in
      place). */
  method CollectResults<V, E>(keys: seq<string>, step: string --> Result<V, E>)
    returns (r: Result<(map<string, V>, seq<string>), E>)
    requires forall k :: step.requires(k)
    ensures FirstError(Steps(keys, step)).Some? ==> r == Err(FirstError(Steps(keys, step)).value)
    ensures r.Ok? <==> FirstError(Steps(keys, step)).None?
    ensures r.Ok? ==> Dict(keys, step, r.value.0, r.value.1)
  {
    var results: map<string, V> := map[];
    var order: seq<string> := [];
    var i := 0;
    while i < |keys|
      invariant 0 <= i <= |keys|
      invariant Collected(keys, step, i, results, order)
    {
      var row := step(keys[i]);
      if row.Err? {
        CollectFailed(keys, step, i, results, order);
        return Err(row.error);
      }
      CollectStep(keys, step, i, results, order);
      if keys[i] !in order {
        order := order + [keys[i]];
      }
      results := results[keys[i] := row.value];
      i := i + 1;
    }
    CollectDone(keys, step, results, order);
    return Ok((results, order));
  }
}
