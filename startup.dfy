/**
 * Start-up: the selected module names are looked up, sorted by update rate
 * and split into the one-shot modules (rate <= 0) and the periodic ones; the
 * fastest periodic rate, capped at one second, becomes the tick width.
 */
module Startup {
  import opened Wrappers
  import opened Registry

  /** The looked-up entries of the given names, unknown names dropped, in order. */
  function Known(names: seq<string>): (r: seq<Entry>)
    ensures |r| <= |names|
    ensures forall e :: e in r <==> exists i :: 0 <= i < |names| && Lookup(names[i]) == Some(e)
  {
    if names == [] then []
    else
      var rest := Known(names[1..]);
      assert forall i :: 0 < i < |names| ==> names[i] == names[1..][i - 1];
      match Lookup(names[0])
      case Some(e) => [e] + rest
      case None => rest
  }

  lemma {:induction false} KnownAppend(a: seq<string>, b: seq<string>)
    ensures Known(a + b) == Known(a) + Known(b)
  {
    if a == [] {
      assert a + b == b;
    } else {
      assert (a + b)[1..] == a[1..] + b;
      KnownAppend(a[1..], b);
    }
  }

  predicate SortedByRate(s: seq<Entry>)
  {
    forall i, j :: 0 <= i < j < |s| ==> s[i].rate <= s[j].rate
  }

  /** The entries of s whose rate is q, in the order they occur in s. */
  function WithRate(s: seq<Entry>, q: int): seq<Entry>
  {
    if s == [] then [] else (if s[0].rate == q then [s[0]] else []) + WithRate(s[1..], q)
  }

  lemma {:induction false} WithRateAppend(a: seq<Entry>, b: seq<Entry>, q: int)
    ensures WithRate(a + b, q) == WithRate(a, q) + WithRate(b, q)
  {
    if a == [] {
      assert a + b == b;
    } else {
      var head := if a[0].rate == q then [a[0]] else [];
      assert (a + b)[0] == a[0];
      assert (a + b)[1..] == a[1..] + b;
      WithRateAppend(a[1..], b, q);
      assert head + (WithRate(a[1..], q) + WithRate(b, q)) == (head + WithRate(a[1..], q)) + WithRate(b, q);
    }
  }

  lemma {:induction false} WithRateMembers(s: seq<Entry>, q: int)
    ensures forall e :: e in WithRate(s, q) <==> e in s && e.rate == q
  {
    if s != [] {
      WithRateMembers(s[1..], q);
      assert s == [s[0]] + s[1..];
    }
  }

  /** Inserts e before the first entry whose rate is not below e's. */
  function Insert(e: Entry, s: seq<Entry>): (r: seq<Entry>)
    requires SortedByRate(s)
    ensures SortedByRate(r)
    ensures multiset(r) == multiset(s) + multiset{e}
  {
    if s == [] || e.rate <= s[0].rate then
      [e] + s
    else
      var t := Insert(e, s[1..]);
      InsertSorted(e, s, t);
      [s[0]] + t
  }

  lemma InsertSorted(e: Entry, s: seq<Entry>, t: seq<Entry>)
    requires SortedByRate(s) && s != [] && s[0].rate < e.rate
    requires SortedByRate(t) && multiset(t) == multiset(s[1..]) + multiset{e}
    ensures SortedByRate([s[0]] + t)
    ensures multiset([s[0]] + t) == multiset(s) + multiset{e}
  {
    assert s == [s[0]] + s[1..];
    forall k | 0 <= k < |t|
      ensures s[0].rate <= t[k].rate
    {
      assert t[k] in multiset(t);
      if t[k] != e {
        assert t[k] in s[1..];
      }
    }
  }

  lemma InsertWithRate(e: Entry, s: seq<Entry>, q: int)
    requires SortedByRate(s)
    ensures WithRate(Insert(e, s), q) == if e.rate == q then [e] + WithRate(s, q) else WithRate(s, q)
  {
    if s == [] || e.rate <= s[0].rate {
      assert ([e] + s)[1..] == s;
    } else {
      var t := Insert(e, s[1..]);
      InsertWithRate(e, s[1..], q);
      assert ([s[0]] + t)[1..] == t;
    }
  }

  /** sorted(modlist, key=update_rate): Python's sort is stable. */
  function SortByRate(s: seq<Entry>): (r: seq<Entry>)
    ensures SortedByRate(r)
    ensures multiset(r) == multiset(s)
  {
    if s == [] then []
    else
      assert s == [s[0]] + s[1..];
      Insert(s[0], SortByRate(s[1..]))
  }

  lemma SortByRateMembers(s: seq<Entry>)
    ensures forall e :: e in SortByRate(s) <==> e in s
  {
    forall e
      ensures e in SortByRate(s) <==> e in multiset(s)
    {
    }
  }

  /** Stability: entries with equal rates keep their relative order. */
  lemma {:induction false} SortByRateStable(s: seq<Entry>, q: int)
    ensures WithRate(SortByRate(s), q) == WithRate(s, q)
  {
    if s != [] {
      SortByRateStable(s[1..], q);
      InsertWithRate(s[0], SortByRate(s[1..]), q);
    }
  }

  lemma WithRateCons(x: Entry, s: seq<Entry>, q: int)
    ensures WithRate([x] + s, q) == (if x.rate == q then [x] else []) + WithRate(s, q)
  {
    assert ([x] + s)[1..] == s;
  }

  lemma WithRateHead(s: seq<Entry>)
    requires s != []
    ensures WithRate(s, s[0].rate) != []
  {
  }

  /** Two sorted sequences with the same entries per rate start with the same rate. */
  lemma HeadRatesAgree(a: seq<Entry>, b: seq<Entry>)
    requires SortedByRate(a) && SortedByRate(b) && a != [] && b != []
    requires forall q :: WithRate(a, q) == WithRate(b, q)
    ensures a[0].rate == b[0].rate
  {
    HeadBelowShared(a, b, a[0].rate);
    HeadBelowShared(b, a, b[0].rate);
  }

  /** The head of a sorted list is no faster than any entry of rate q another list shares with it. */
  lemma HeadBelowShared(a: seq<Entry>, b: seq<Entry>, q: int)
    requires SortedByRate(b) && a != [] && b != [] && a[0].rate == q
    requires WithRate(a, q) == WithRate(b, q)
    ensures b[0].rate <= q
  {
    WithRateMembers(a, q);
    WithRateMembers(b, q);
    assert a[0] in WithRate(a, q);
    var j :| 0 <= j < |b| && b[j] == a[0];
    assert j == 0 || b[0].rate <= b[j].rate;
  }

  lemma TailsAgree(a: seq<Entry>, b: seq<Entry>)
    requires a != [] && b != [] && a[0].rate == b[0].rate
    requires forall q :: WithRate(a, q) == WithRate(b, q)
    ensures a[0] == b[0]
    ensures forall q :: WithRate(a[1..], q) == WithRate(b[1..], q)
  {
    var x, y := a[0], b[0];
    assert a == [x] + a[1..] && b == [y] + b[1..];
    WithRateCons(x, a[1..], x.rate);
    WithRateCons(y, b[1..], x.rate);
    assert WithRate(a, x.rate)[0] == x;
    forall q
      ensures WithRate(a[1..], q) == WithRate(b[1..], q)
    {
      WithRateCons(x, a[1..], q);
      WithRateCons(y, b[1..], q);
      if q == x.rate {
        assert WithRate(a, q)[1..] == WithRate(a[1..], q);
        assert WithRate(b, q)[1..] == WithRate(b[1..], q);
      } else {
        assert WithRate(a, q) == [] + WithRate(a[1..], q) == WithRate(a[1..], q);
        assert WithRate(b, q) == [] + WithRate(b[1..], q) == WithRate(b[1..], q);
      }
    }
  }

  /**
   * Sortedness and the per-rate order determine a sequence: SortByRate is the
   * only stable sort by rate.
   */
  lemma {:induction false} StableSortUnique(a: seq<Entry>, b: seq<Entry>)
    requires SortedByRate(a) && SortedByRate(b)
    requires forall q :: WithRate(a, q) == WithRate(b, q)
    ensures a == b
    decreases |a| + |b|
  {
    if a == [] && b != [] {
      WithRateHead(b);
    } else if a != [] && b == [] {
      WithRateHead(a);
    } else if a != [] {
      HeadRatesAgree(a, b);
      TailsAgree(a, b);
      SortedParts([a[0]], a[1..]);
      SortedParts([b[0]], b[1..]);
      assert a == [a[0]] + a[1..] && b == [b[0]] + b[1..];
      StableSortUnique(a[1..], b[1..]);
    }
  }

  /** The entries of s with rate <= 0, in order: what the loop appends to init_build. */
  function OneShots(s: seq<Entry>): (r: seq<Entry>)
    ensures |r| <= |s|
  {
    if s == [] then []
    else
      assert s == s[..|s| - 1] + [s[|s| - 1]];
      OneShots(s[..|s| - 1]) + (if s[|s| - 1].rate <= 0 then [s[|s| - 1]] else [])
  }

  /** The entries of s with rate > 0, in order: what the loop appends to iter_build. */
  function Periodics(s: seq<Entry>): (r: seq<Entry>)
    ensures |r| <= |s|
  {
    if s == [] then []
    else
      assert s == s[..|s| - 1] + [s[|s| - 1]];
      Periodics(s[..|s| - 1]) + (if s[|s| - 1].rate > 0 then [s[|s| - 1]] else [])
  }

  lemma SnocSplit(init: seq<Entry>, x: Entry)
    ensures OneShots(init + [x]) == OneShots(init) + (if x.rate <= 0 then [x] else [])
    ensures Periodics(init + [x]) == Periodics(init) + (if x.rate > 0 then [x] else [])
  {
    assert (init + [x])[..|init|] == init;
  }

  /** init_build keeps exactly the entries of rate <= 0, each rate's in order. */
  lemma {:induction false} OneShotsWithRate(s: seq<Entry>, q: int)
    ensures WithRate(OneShots(s), q) == if q <= 0 then WithRate(s, q) else []
  {
    if s != [] {
      var init, x := s[..|s| - 1], s[|s| - 1];
      assert s == init + [x];
      OneShotsWithRate(init, q);
      SnocSplit(init, x);
      WithRateAppend(init, [x], q);
      WithRateAppend(OneShots(init), if x.rate <= 0 then [x] else [], q);
    }
  }

  /** iter_build keeps exactly the entries of rate > 0, each rate's in order. */
  lemma {:induction false} PeriodicsWithRate(s: seq<Entry>, q: int)
    ensures WithRate(Periodics(s), q) == if q > 0 then WithRate(s, q) else []
  {
    if s != [] {
      var init, x := s[..|s| - 1], s[|s| - 1];
      assert s == init + [x];
      PeriodicsWithRate(init, q);
      SnocSplit(init, x);
      WithRateAppend(init, [x], q);
      WithRateAppend(Periodics(init), if x.rate > 0 then [x] else [], q);
    }
  }

  lemma {:induction false} SplitMembers(s: seq<Entry>)
    ensures forall e :: e in OneShots(s) ==> e in s && e.rate <= 0
    ensures forall e :: e in Periodics(s) ==> e in s && e.rate > 0
    ensures multiset(OneShots(s)) + multiset(Periodics(s)) == multiset(s)
  {
    if s != [] {
      var init, x := s[..|s| - 1], s[|s| - 1];
      assert s == init + [x];
      SplitMembers(init);
      SnocSplit(init, x);
    }
  }

  /** On a sorted sequence the one-shots form a prefix and the periodics the rest. */
  lemma {:induction false} SplitSorted(s: seq<Entry>)
    requires SortedByRate(s)
    ensures OneShots(s) + Periodics(s) == s
  {
    if s != [] {
      var init, x := s[..|s| - 1], s[|s| - 1];
      assert s == init + [x];
      SortedParts(init, [x]);
      SplitSorted(init);
      SnocSplit(init, x);
      if x.rate <= 0 {
        NoPeriodicBefore(init, x);
        assert OneShots(init) + [] == init;
        assert OneShots(s) == init + [x] && Periodics(s) == [];
      } else {
        assert OneShots(s) == OneShots(init) && Periodics(s) == Periodics(init) + [x];
      }
    }
  }

  lemma NoPeriodicBefore(init: seq<Entry>, x: Entry)
    requires SortedByRate(init + [x]) && x.rate <= 0
    ensures Periodics(init) == []
  {
    SortedBelowLast(init, x);
    NoPeriodics(init);
  }

  lemma {:induction false} NoPeriodics(s: seq<Entry>)
    requires forall e :: e in s ==> e.rate <= 0
    ensures Periodics(s) == []
  {
    if s != [] {
      assert s[|s| - 1] in s;
      assert forall e :: e in s[..|s| - 1] ==> e in s;
      NoPeriodics(s[..|s| - 1]);
    }
  }

  lemma SortedBelowLast(init: seq<Entry>, x: Entry)
    requires SortedByRate(init + [x])
    ensures forall e :: e in init ==> e.rate <= x.rate
  {
    forall e | e in init
      ensures e.rate <= x.rate
    {
      var k :| 0 <= k < |init| && init[k] == e;
      assert (init + [x])[k] == e && (init + [x])[|init|] == x;
    }
  }

  lemma SortedParts(a: seq<Entry>, b: seq<Entry>)
    requires SortedByRate(a + b)
    ensures SortedByRate(a) && SortedByRate(b)
  {
    assert forall i :: 0 <= i < |a| ==> a[i] == (a + b)[i];
    assert forall i :: 0 <= i < |b| ==> b[i] == (a + b)[|a| + i];
  }

  /** What start-up relies on about the split of a sorted sequence. */
  lemma SplitFacts(srtd: seq<Entry>)
    requires SortedByRate(srtd)
    ensures OneShots(srtd) + Periodics(srtd) == srtd
    ensures SortedByRate(Periodics(srtd))
    ensures forall e :: e in OneShots(srtd) ==> e in srtd && e.rate <= 0
    ensures forall e :: e in Periodics(srtd) ==> e in srtd && e.rate > 0
    ensures multiset(OneShots(srtd)) + multiset(Periodics(srtd)) == multiset(srtd)
  {
    SplitMembers(srtd);
    SplitSorted(srtd);
    SortedParts(OneShots(srtd), Periodics(srtd));
  }

  /** The for-loop over srtd that fills init_build and iter_build. */
  method Partition(srtd: seq<Entry>) returns (initBuild: seq<Entry>, iterBuild: seq<Entry>)
    ensures initBuild == OneShots(srtd) && iterBuild == Periodics(srtd)
    ensures forall e :: e in initBuild ==> e in srtd && e.rate <= 0
    ensures forall e :: e in iterBuild ==> e in srtd && e.rate > 0
    ensures multiset(initBuild) + multiset(iterBuild) == multiset(srtd)
    ensures SortedByRate(srtd) ==> initBuild + iterBuild == srtd
  {
    initBuild, iterBuild := [], [];
    var i := 0;
    while i < |srtd|
      invariant 0 <= i <= |srtd|
      invariant initBuild == OneShots(srtd[..i]) && iterBuild == Periodics(srtd[..i])
    {
      var f := srtd[i];
      assert srtd[..i + 1] == srtd[..i] + [f];
      SnocSplit(srtd[..i], f);
      if f.rate <= 0 {
        initBuild := initBuild + [f];
      } else {
        iterBuild := iterBuild + [f];
      }
      i := i + 1;
    }
    assert srtd[..i] == srtd;
    SplitMembers(srtd);
    if SortedByRate(srtd) {
      SplitSorted(srtd);
    }
  }

  datatype StartupError = IndexError

  function Min(a: int, b: int): int
  {
    if a <= b then a else b
  }

  /** frequency = iter_build[0].update_rate; clock_frequency = min(frequency, 1). */
  function TickWidth(iterBuild: seq<Entry>): (r: Result<int, StartupError>)
    ensures r.Failure? <==> iterBuild == []
  {
    if iterBuild == [] then Failure(IndexError) else Success(Min(iterBuild[0].rate, OneSecond))
  }

  /**
   * On a sorted list of periodic modules the tick width is the fastest rate
   * capped at one second: positive, at most every rate, and equal to one of
   * them or to one second.
   */
  lemma TickWidthIsFastest(iterBuild: seq<Entry>)
    requires iterBuild != [] && SortedByRate(iterBuild)
    requires forall e :: e in iterBuild ==> e.rate > 0
    ensures TickWidth(iterBuild).Success?
    ensures 0 < TickWidth(iterBuild).value <= OneSecond
    ensures forall e :: e in iterBuild ==> TickWidth(iterBuild).value <= e.rate
    ensures TickWidth(iterBuild).value == OneSecond
         || exists e :: e in iterBuild && TickWidth(iterBuild).value == e.rate
  {
    assert iterBuild[0] in iterBuild;
    forall e | e in iterBuild
      ensures TickWidth(iterBuild).value <= e.rate
    {
      var k :| 0 <= k < |iterBuild| && iterBuild[k] == e;
      assert k == 0 || iterBuild[0].rate <= iterBuild[k].rate;
    }
  }

  /** With a one-second and a one-minute module the tick is one second. */
  lemma TickWidthExample()
    ensures TickWidth([Entry(OneSecond, NumTimeSeconds), Entry(60 * OneSecond, BinaryTime)]) == Success(OneSecond)
  {
  }

  /**
   * What start-up settles: the modules of the forced initial frame (clear
   * first, then the one-shots, then the periodic ones), the modules of
   * every later frame, and the tick width.
   */
  datatype Plan = Plan(initBuild: seq<Entry>, iterBuild: seq<Entry>, tick: Option<int>)

  /**
   * Start-up as written: iter_build[0] is read before the empty check, so
   * start-up fails when no periodic module is selected.
   */
  function StartupAsWritten(names: seq<string>): (r: Result<Plan, StartupError>)
    ensures r.Failure? <==> Periodics(SortByRate(Known(names))) == []
    ensures r.Failure? ==> r.error == IndexError
    ensures r.Success? ==> r.value.initBuild != [] && r.value.initBuild[0] == ClearEntry
    ensures r.Success? ==> r.value.iterBuild == Periodics(SortByRate(Known(names)))
    ensures r.Success? ==> r.value.iterBuild != [] && r.value.tick == Some(Min(r.value.iterBuild[0].rate, OneSecond))
  {
    var srtd := SortByRate(Known(names));
    var init, iter := OneShots(srtd), Periodics(srtd);
    match TickWidth(iter)
    case Failure(e) => Failure(e)
    case Success(w) => Success(Plan([ClearEntry] + init, iter, Some(w)))
  }

  /**
   * Start-up as intended: with no periodic module there is no tick width and
   * the program exits after the initial frame.
   */
  function Startup(names: seq<string>): (p: Plan)
    ensures p.initBuild != [] && p.initBuild[0] == ClearEntry
    ensures forall e :: e in p.initBuild[1..] ==> e in Known(names) && e.rate <= 0
    ensures forall e :: e in p.iterBuild ==> e in Known(names) && e.rate > 0
    ensures multiset(p.initBuild[1..]) + multiset(p.iterBuild) == multiset(Known(names))
    ensures p.initBuild[1..] + p.iterBuild == SortByRate(Known(names))
    ensures p.tick.None? <==> p.iterBuild == []
    ensures p.tick.Some? ==> 0 < p.tick.value <= OneSecond
    ensures p.tick.Some? ==> forall e :: e in p.iterBuild ==> p.tick.value <= e.rate
    ensures p.tick.Some? ==> p.tick.value == OneSecond || exists e :: e in p.iterBuild && p.tick.value == e.rate
    ensures p.iterBuild != [] ==> p.tick == Some(Min(p.iterBuild[0].rate, OneSecond))
  {
    var srtd := SortByRate(Known(names));
    var init, iter := OneShots(srtd), Periodics(srtd);
    SplitFacts(srtd);
    SortByRateMembers(Known(names));
    var p := Plan([ClearEntry] + init, iter, if iter == [] then None else Some(TickWidth(iter).value));
    assert p.initBuild[1..] == init;
    if iter != [] then
      TickWidthIsFastest(iter);
      p
    else
      p
  }

  /** Each rate's modules keep their command-line order in the plan. */
  lemma PlanKeepsOrder(names: seq<string>, q: int)
    ensures WithRate(Startup(names).initBuild[1..], q) == if q <= 0 then WithRate(Known(names), q) else []
    ensures WithRate(Startup(names).iterBuild, q) == if q > 0 then WithRate(Known(names), q) else []
  {
    var srtd := SortByRate(Known(names));
    assert Startup(names).initBuild[1..] == OneShots(srtd);
    OneShotsWithRate(srtd, q);
    PeriodicsWithRate(srtd, q);
    SortByRateStable(Known(names), q);
  }

  /** Start-up as written fails exactly when no selected module is periodic. */
  lemma StartupFailsWithoutPeriodic(names: seq<string>)
    ensures StartupAsWritten(names).Failure? <==>
            forall i :: 0 <= i < |names| && Lookup(names[i]).Some? ==> Lookup(names[i]).value.rate <= 0
  {
    var srtd := SortByRate(Known(names));
    SplitMembers(srtd);
    SplitSorted(srtd);
    if Periodics(srtd) != [] {
      var e := Periodics(srtd)[0];
      assert e in Periodics(srtd);
      assert e in multiset(srtd);
      assert e in Known(names);
      var i :| 0 <= i < |names| && Lookup(names[i]) == Some(e);
    } else {
      forall i | 0 <= i < |names| && Lookup(names[i]).Some?
        ensures Lookup(names[i]).value.rate <= 0
      {
        var e := Lookup(names[i]).value;
        assert e in Known(names);
        assert e in multiset(srtd);
        assert e in OneShots(srtd);
      }
    }
  }

  /** The smallest inputs that make start-up as written fail: no arguments, or only "clear". */
  lemma StartupAsWrittenCounterexample()
    ensures StartupAsWritten([]) == Failure(IndexError)
    ensures StartupAsWritten(["clear"]) == Failure(IndexError)
  {
    StartupFailsWithoutPeriodic([]);
    StartupFailsWithoutPeriodic(["clear"]);
  }

  /** Wherever start-up as written succeeds, the corrected start-up agrees with it. */
  lemma StartupAgrees(names: seq<string>)
    ensures StartupAsWritten(names).Success? ==> StartupAsWritten(names).value == Startup(names)
  {
  }
}
