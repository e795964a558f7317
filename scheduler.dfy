/**
 * compile_mods: decide which modules are due this tick, build them, and
 * merge their key-colour maps in list order so that later modules win.
 * Time and rates are integers (milliseconds); a module's build is its
 * result at the current instant, or None when it builds nothing.
 */
module Scheduler {
  import opened Wrappers

  /** A selected module: its update rate and what its build returns now. */
  datatype Module = Module(rate: int, result: Option<map<string, string>>)

  /**
   * A module is built when the update is forced, when it is a one-shot
   * module (rate <= 0), or when the current time is within one tick of the
   * start of its period.
   */
  predicate Due(m: Module, force: bool, now: int, tick: int): (r: bool)
    ensures force || m.rate <= 0 ==> r
    ensures !force && m.rate > 0 ==> (r <==> now % m.rate < tick)
  {
    force || m.rate <= 0 || now % m.rate < tick
  }

  /** Whether module i is built and its map has key k. */
  predicate Writes(mods: seq<Module>, force: bool, now: int, tick: int, i: int, k: string)
  {
    && 0 <= i < |mods|
    && Due(mods[i], force, now, tick)
    && mods[i].result.Some?
    && k in mods[i].result.value
  }

  /** Module i writes key k and no later module does. */
  predicate LastWriter(mods: seq<Module>, force: bool, now: int, tick: int, i: int, k: string)
  {
    Writes(mods, force, now, tick, i, k) && forall j :: i < j < |mods| ==> !Writes(mods, force, now, tick, j, k)
  }

  /** The merge of the first modules: each built map overrides the keys before it. */
  function Compiled(mods: seq<Module>, force: bool, now: int, tick: int): map<string, string>
  {
    if mods == [] then map[]
    else
      var m := mods[|mods| - 1];
      var before := Compiled(mods[..|mods| - 1], force, now, tick);
      if Due(m, force, now, tick) && m.result.Some? then before + m.result.value else before
  }

  /** The merged keys are exactly the keys of the built maps. */
  lemma {:induction false} CompiledDomain(mods: seq<Module>, force: bool, now: int, tick: int, k: string)
    ensures k in Compiled(mods, force, now, tick) <==> exists i :: Writes(mods, force, now, tick, i, k)
  {
    if mods != [] {
      var n := |mods| - 1;
      var init := mods[..n];
      CompiledDomain(init, force, now, tick, k);
      if k in Compiled(init, force, now, tick) {
        var i :| Writes(init, force, now, tick, i, k);
        assert Writes(mods, force, now, tick, i, k);
      }
      if k in Compiled(mods, force, now, tick) && k !in Compiled(init, force, now, tick) {
        assert Writes(mods, force, now, tick, n, k);
      }
      if exists i :: Writes(mods, force, now, tick, i, k) {
        var i :| Writes(mods, force, now, tick, i, k);
        if i < n {
          assert Writes(init, force, now, tick, i, k);
        } else {
          var m := mods[n];
          assert Due(m, force, now, tick) && m.result.Some? && k in m.result.value;
          assert Compiled(mods, force, now, tick) == Compiled(init, force, now, tick) + m.result.value;
        }
      }
    }
  }

  /** Each merged key has the value of the last module that wrote it. */
  lemma {:induction false} CompiledLastWins(mods: seq<Module>, force: bool, now: int, tick: int, i: int, k: string)
    requires LastWriter(mods, force, now, tick, i, k)
    ensures k in Compiled(mods, force, now, tick)
    ensures Compiled(mods, force, now, tick)[k] == mods[i].result.value[k]
  {
    var n := |mods| - 1;
    var init := mods[..n];
    if i < n {
      assert !Writes(mods, force, now, tick, n, k);
      assert LastWriter(init, force, now, tick, i, k) by {
        forall j | i < j < |init| ensures !Writes(init, force, now, tick, j, k) {
          assert !Writes(mods, force, now, tick, j, k);
        }
      }
      CompiledLastWins(init, force, now, tick, i, k);
    }
  }

  method CompileMods(mods: seq<Module>, force: bool, now: int, tick: int) returns (keys: map<string, string>)
    ensures keys == Compiled(mods, force, now, tick)
    ensures forall k :: k in keys <==> exists i :: Writes(mods, force, now, tick, i, k)
    ensures forall i, k :: LastWriter(mods, force, now, tick, i, k) ==> k in keys && keys[k] == mods[i].result.value[k]
  {
    keys := map[];
    var idx := 0;
    while idx < |mods|
      invariant 0 <= idx <= |mods|
      invariant keys == Compiled(mods[..idx], force, now, tick)
    {
      var m := mods[idx];
      assert mods[..idx + 1][..idx] == mods[..idx];
      if !force && m.rate > 0 && !(now % m.rate < tick) {
        idx := idx + 1;
        continue;
      }
      var res := m.result;
      if res.None? {
        idx := idx + 1;
        continue;
      }
      keys := keys + res.value;
      idx := idx + 1;
    }
    assert mods[..idx] == mods;
    forall k ensures k in keys <==> exists i :: Writes(mods, force, now, tick, i, k) {
      CompiledDomain(mods, force, now, tick, k);
    }
    forall i, k | LastWriter(mods, force, now, tick, i, k) ensures k in keys && keys[k] == mods[i].result.value[k] {
      CompiledLastWins(mods, force, now, tick, i, k);
    }
  }

  /** With A before B and both writing x, the merge keeps B's colour for x. */
  lemma LaterOverrides(a: Module, b: Module, force: bool, now: int, tick: int, x: string)
    requires Writes([a, b], force, now, tick, 0, x) && Writes([a, b], force, now, tick, 1, x)
    ensures Compiled([a, b], force, now, tick)[x] == b.result.value[x]
  {
    CompiledLastWins([a, b], force, now, tick, 1, x);
  }

  /** A module that is not due, or builds nothing, leaves the merge as it was, wherever it stands. */
  lemma {:induction false} SkippedContributesNothing(before: seq<Module>, m: Module, after: seq<Module>, force: bool, now: int, tick: int)
    requires !Due(m, force, now, tick) || m.result.None?
    ensures Compiled(before + [m] + after, force, now, tick) == Compiled(before + after, force, now, tick)
    decreases |after|
  {
    if after == [] {
      assert before + [m] + after == before + [m];
      assert before + after == before;
      assert (before + [m])[..|before|] == before;
    } else {
      var n := |after| - 1;
      var last := after[n];
      SkippedContributesNothing(before, m, after[..n], force, now, tick);
      assert (before + [m] + after)[..|before| + 1 + n] == before + [m] + after[..n];
      assert (before + after)[..|before| + n] == before + after[..n];
      assert (before + [m] + after)[|before| + 1 + n] == last;
      assert (before + after)[|before| + n] == last;
    }
  }

  /** A one-shot module (rate <= 0) is built at every instant, forced or not. */
  lemma OneShotAlwaysBuilt(mods: seq<Module>, force: bool, now: int, tick: int, i: int, k: string)
    requires 0 <= i < |mods| && mods[i].rate <= 0 && mods[i].result.Some? && k in mods[i].result.value
    ensures k in Compiled(mods, force, now, tick)
  {
    assert Writes(mods, force, now, tick, i, k);
    CompiledDomain(mods, force, now, tick, k);
  }

  /** A forced update builds every module, whatever the time. */
  lemma {:induction false} ForcedBuildsAll(mods: seq<Module>, now: int, tick: int, i: int, k: string)
    requires 0 <= i < |mods| && mods[i].result.Some? && k in mods[i].result.value
    ensures k in Compiled(mods, true, now, tick)
  {
    assert Writes(mods, true, now, tick, i, k);
    CompiledDomain(mods, true, now, tick, k);
  }
}
