/** The result cache that the gateway and the routers share: one entry per
    source, refreshed by a successful fetch, kept for a while over failures. */
module LeaseCache {
  import opened Base

  datatype Entry<T> = Entry(value: T, lastSuccess: int)

  datatype RoundStats = RoundStats(fetchedOk: nat, usedCache: nat, dropped: nat)

  /** One fetch: when its round was applied, from whom, and what came back. */
  datatype Fetch<T> = Fetch(at: int, name: string, result: Result<T>)

  predicate Usable<T>(c: map<string, Entry<T>>, name: string, stale: nat, now: int) {
    name in c && Elapsed(now, c[name].lastSuccess) < stale
  }

  function Absorb<T>(c: map<string, Entry<T>>, f: Fetch<T>, stale: nat): map<string, Entry<T>> {
    match f.result
    case Ok(v) => c[f.name := Entry(v, f.at)]
    case Err => if Usable(c, f.name, stale, f.at) then c else c - {f.name}
  }

  /** The cache after a sequence of fetches. */
  function Replay<T>(c: map<string, Entry<T>>, fs: seq<Fetch<T>>, stale: nat): map<string, Entry<T>> {
    if fs == [] then c
    else Absorb(Replay(c, fs[..|fs| - 1], stale), fs[|fs| - 1], stale)
  }

  function Tally<T>(c: map<string, Entry<T>>, fs: seq<Fetch<T>>, stale: nat): RoundStats {
    if fs == [] then RoundStats(0, 0, 0)
    else
      var f := fs[|fs| - 1];
      var s := Tally(c, fs[..|fs| - 1], stale);
      if f.result.Ok? then s.(fetchedOk := s.fetchedOk + 1)
      else if Usable(Replay(c, fs[..|fs| - 1], stale), f.name, stale, f.at) then s.(usedCache := s.usedCache + 1)
      else s.(dropped := s.dropped + 1)
  }

  function Round<T>(results: seq<(string, Result<T>)>, now: int): (fs: seq<Fetch<T>>)
    ensures |fs| == |results|
  {
    seq(|results|, i requires 0 <= i < |results| => Fetch(now, results[i].0, results[i].1))
  }

  /** Results listed under the names polled. */
  function Zip<T>(names: seq<string>, results: seq<Result<T>>): (r: seq<(string, Result<T>)>)
    requires |names| == |results|
    ensures |r| == |names|
  {
    seq(|names|, i requires 0 <= i < |names| => (names[i], results[i]))
  }

  function View<T>(c: map<string, Entry<T>>): map<string, T> {
    map name | name in c :: c[name].value
  }

  class Cache<T> {
    var cached: map<string, Entry<T>>

    constructor ()
      ensures cached == map[]
    {
      cached := map[];
    }

    method ApplyRound(results: seq<(string, Result<T>)>, stale: nat, now: int)
      returns (stats: RoundStats, view: map<string, T>)
      modifies this
      ensures cached == Replay(old(cached), Round(results, now), stale)
      ensures view == View(cached)
      ensures stats == Tally(old(cached), Round(results, now), stale)
      ensures stats.fetchedOk + stats.usedCache + stats.dropped == |results|
    {
      var fetchedOk, usedCache, dropped := 0, 0, 0;
      ghost var fs := Round(results, now);
      for i := 0 to |results|
        invariant cached == Replay(old(cached), fs[..i], stale)
        invariant RoundStats(fetchedOk, usedCache, dropped) == Tally(old(cached), fs[..i], stale)
        invariant fetchedOk + usedCache + dropped == i
      {
        assert fs[..i + 1][..i] == fs[..i];
        var (name, result) := results[i];
        match result
        case Ok(value) =>
          cached := cached[name := Entry(value, now)];
          fetchedOk := fetchedOk + 1;
        case Err =>
          if name in cached && Elapsed(now, cached[name].lastSuccess) < stale {
            usedCache := usedCache + 1;
          } else {
            cached := cached - {name};
            dropped := dropped + 1;
          }
      }
      assert fs[..|fs|] == fs;
      stats := RoundStats(fetchedOk, usedCache, dropped);
      view := Snapshot();
    }

    /** A name is shown exactly when it is cached, with the cached value. */
    method Snapshot() returns (view: map<string, T>)
      ensures view.Keys == cached.Keys
      ensures forall name :: name in cached ==> view[name] == cached[name].value
    {
      view := map[];
      var todo := cached.Keys;
      while todo != {}
        invariant todo <= cached.Keys && view.Keys == cached.Keys - todo
        invariant forall name :: name in view ==> view[name] == cached[name].value
        decreases todo
      {
        var name :| name in todo;
        view := view[name := cached[name].value];
        todo := todo - {name};
      }
    }
  }

  // ---------- The cache as a function of history ----------

  /** fs[i] is the latest success for name. */
  ghost predicate LatestSuccess<T>(fs: seq<Fetch<T>>, name: string, i: nat) {
    && i < |fs| && fs[i].name == name && fs[i].result.Ok?
    && forall j :: i < j < |fs| && fs[j].name == name ==> fs[j].result.Err?
  }

  /** No later attempt for the same name came a whole window or more after fs[i]. */
  ghost predicate HeldSince<T>(fs: seq<Fetch<T>>, i: nat, stale: nat)
    requires i < |fs|
  {
    forall j :: i < j < |fs| && fs[j].name == fs[i].name ==> Elapsed(fs[j].at, fs[i].at) < stale
  }

  /** fs[i] is why name is cached. */
  ghost predicate Supports<T>(fs: seq<Fetch<T>>, name: string, i: nat, stale: nat) {
    LatestSuccess(fs, name, i) && HeldSince(fs, i, stale)
  }

  lemma {:induction false} SupportsStep<T>(fs: seq<Fetch<T>>, f: Fetch<T>, name: string, i: nat, stale: nat)
    ensures Supports(fs + [f], name, i, stale) <==>
            if f.name == name && f.result.Ok? then i == |fs|
            else Supports(fs, name, i, stale) && (f.name == name ==> Elapsed(f.at, fs[i].at) < stale)
  {
    var all := fs + [f];
    if f.name == name && f.result.Ok? {
      if i < |fs| { assert all[|fs|] == f; }
    } else {
      if Supports(all, name, i, stale) {
        assert all[|fs|] == f && i < |fs|;
        assert Supports(fs, name, i, stale) by {
          assert forall j :: 0 <= j < |fs| ==> all[j] == fs[j];
        }
      }
    }
  }

  /** Replayed from empty, the cache holds exactly the latest successes that no
      later failed attempt found too old, with their values and times. */
  lemma {:induction false} CacheIsHistory<T>(fs: seq<Fetch<T>>, stale: nat, name: string)
    ensures name in Replay(map[], fs, stale) <==> exists i: nat :: Supports(fs, name, i, stale)
    ensures forall i: nat :: Supports(fs, name, i, stale) ==>
              Get(Replay(map[], fs, stale), name) == Some(Entry(fs[i].result.value, fs[i].at))
  {
    if fs != [] {
      var n := |fs| - 1;
      var before, f := fs[..n], fs[n];
      assert fs == before + [f];
      CacheIsHistory(before, stale, name);
      forall i: nat ensures Supports(fs, name, i, stale) <==>
              if f.name == name && f.result.Ok? then i == n
              else Supports(before, name, i, stale) && (f.name == name ==> Elapsed(f.at, before[i].at) < stale)
      {
        SupportsStep(before, f, name, i, stale);
      }
      assert f.name == name && f.result.Ok? ==> Supports(fs, name, n, stale);
    }
  }

  ghost predicate Chronological<T>(fs: seq<Fetch<T>>) {
    forall i, j :: 0 <= i <= j < |fs| ==> fs[i].at <= fs[j].at
  }

  /** fs[k] is the last attempt for its name. */
  ghost predicate LastPoll<T>(fs: seq<Fetch<T>>, name: string, k: nat) {
    k < |fs| && fs[k].name == name && forall j :: k < j < |fs| ==> fs[j].name != name
  }

  /** With a positive window and a clock that never runs backwards, a name is
      cached exactly when its latest success is younger than the window at its
      last attempt, whether or not other names were polled in between. */
  lemma {:induction false} CacheIsLatestYoungSuccess<T>(fs: seq<Fetch<T>>, stale: nat, name: string, k: nat)
    requires stale > 0 && Chronological(fs) && LastPoll(fs, name, k)
    ensures name in Replay(map[], fs, stale)
       <==> exists i: nat :: LatestSuccess(fs, name, i) && fs[k].at - fs[i].at < stale
    ensures forall i: nat :: LatestSuccess(fs, name, i) && name in Replay(map[], fs, stale) ==>
              Replay(map[], fs, stale)[name] == Entry(fs[i].result.value, fs[i].at)
  {
    CacheIsHistory(fs, stale, name);
    forall i: nat
      ensures Supports(fs, name, i, stale) <==> LatestSuccess(fs, name, i) && fs[k].at - fs[i].at < stale
    {
      if LatestSuccess(fs, name, i) {
        assert i <= k;
      }
    }
    forall i: nat | LatestSuccess(fs, name, i) && name in Replay(map[], fs, stale)
      ensures Replay(map[], fs, stale)[name] == Entry(fs[i].result.value, fs[i].at)
    {
      var j: nat :| Supports(fs, name, j, stale);
      assert i == j;
    }
  }

  // ---------- The cache as a function of the calls ----------

  /** One call of `apply_round`: its results, and the clock it read. */
  datatype Call<T> = Call(results: seq<(string, Result<T>)>, now: int)

  /** The call lists name: it has a result for it. */
  ghost predicate ListsName<T>(results: seq<(string, Result<T>)>, name: string) {
    exists r :: 0 <= r < |results| && results[r].0 == name
  }

  /** v is the last value the call brings for name. */
  ghost predicate Brings<T(!new)>(results: seq<(string, Result<T>)>, name: string, v: T) {
    exists r :: 0 <= r < |results| && results[r] == (name, Ok(v)) && OnlyErrsAfter(results, name, r)
  }

  ghost predicate OnlyErrsAfter<T>(results: seq<(string, Result<T>)>, name: string, r: int) {
    forall q :: r < q < |results| && 0 <= q && results[q].0 == name ==> results[q].1.Err?
  }

  /** Less than a window has passed; never if the window is zero. */
  predicate Young(since: int, now: int, stale: nat) {
    stale > 0 && now - since < stale
  }

  /** What a call leaves for one name: unchanged if the call does not list it; the
      value it brought, at the call's time; or, if it brought none, the old entry
      while young. */
  ghost predicate Outcome<T(!new)>(c: map<string, Entry<T>>, results: seq<(string, Result<T>)>, now: int, stale: nat,
                                   name: string, c': map<string, Entry<T>>) {
    && (!ListsName(results, name) ==> Get(c', name) == Get(c, name))
    && (forall v :: Brings(results, name, v) ==> Get(c', name) == Some(Entry(v, now)))
    && (ListsName(results, name) && OnlyErrsAfter(results, name, -1) ==>
          Get(c', name) == if name in c && Young(c[name].lastSuccess, now, stale) then Get(c, name) else None)
  }

  lemma {:induction false} RoundAppend<T>(results: seq<(string, Result<T>)>, x: (string, Result<T>), now: int)
    ensures Round(results + [x], now) == Round(results, now) + [Fetch(now, x.0, x.1)]
  {
  }

  lemma {:induction false} BringsAppend<T(!new)>(results: seq<(string, Result<T>)>, x: (string, Result<T>),
                                                 name: string, v: T)
    ensures Brings(results + [x], name, v) <==>
            if x.0 == name && x.1.Ok? then x.1.value == v else Brings(results, name, v)
  {
    var all, n := results + [x], |results|;
    assert all[n] == x && forall r :: 0 <= r < n ==> all[r] == results[r];
    if x.0 == name && x.1.Ok? {
      if r :| 0 <= r < |all| && all[r] == (name, Ok(v)) && OnlyErrsAfter(all, name, r) {
        assert r == n;
      }
      assert OnlyErrsAfter(all, name, n);
    } else {
      if r :| 0 <= r < n && results[r] == (name, Ok(v)) && OnlyErrsAfter(results, name, r) {
        assert OnlyErrsAfter(all, name, r);
      }
      if r :| 0 <= r < |all| && all[r] == (name, Ok(v)) && OnlyErrsAfter(all, name, r) {
        assert r < n && OnlyErrsAfter(results, name, r);
      }
    }
  }

  lemma {:induction false} ListsAppend<T>(results: seq<(string, Result<T>)>, x: (string, Result<T>), name: string)
    ensures ListsName(results + [x], name) <==> ListsName(results, name) || x.0 == name
    ensures OnlyErrsAfter(results + [x], name, -1) <==> OnlyErrsAfter(results, name, -1) && (x.0 == name ==> x.1.Err?)
  {
    var all, n := results + [x], |results|;
    assert all[n] == x && forall r :: 0 <= r < n ==> all[r] == results[r];
  }

  /** The last success, if a call has any. */
  lemma {:induction false} BringsSome<T(!new)>(results: seq<(string, Result<T>)>, name: string) returns (v: T)
    requires !OnlyErrsAfter(results, name, -1)
    ensures Brings(results, name, v)
  {
    var n := |results| - 1;
    var before, x := results[..n], results[n];
    assert results == before + [x];
    ListsAppend(before, x, name);
    if x.0 == name && x.1.Ok? {
      v := x.1.value;
    } else {
      v := BringsSome(before, name);
    }
    BringsAppend(before, x, name, v);
  }

  /** One call, in terms of its own arguments. */
  lemma {:induction false} CallOutcome<T(!new)>(c: map<string, Entry<T>>, results: seq<(string, Result<T>)>, now: int,
                                                stale: nat, name: string)
    requires stale > 0
    ensures Outcome(c, results, now, stale, name, Replay(c, Round(results, now), stale))
  {
    if results != [] {
      var n := |results| - 1;
      var before, x := results[..n], results[n];
      assert results == before + [x];
      CallOutcome(c, before, now, stale, name);
      RoundAppend(before, x, now);
      var fs := Round(before, now);
      assert (fs + [Fetch(now, x.0, x.1)])[..n] == fs;
      ListsAppend(before, x, name);
      forall v ensures Brings(results, name, v) <==>
              if x.0 == name && x.1.Ok? then x.1.value == v else Brings(before, name, v) {
        BringsAppend(before, x, name, v);
      }
      if x.0 == name && x.1.Err? && !OnlyErrsAfter(before, name, -1) {
        var v := BringsSome(before, name);
      }
    }
  }

  /** The cache after some calls, starting empty. */
  function AfterCalls<T>(calls: seq<Call<T>>, stale: nat): map<string, Entry<T>> {
    if calls == [] then map[]
    else
      var last := calls[|calls| - 1];
      Replay(AfterCalls(calls[..|calls| - 1], stale), Round(last.results, last.now), stale)
  }

  ghost predicate ForwardClock<T>(calls: seq<Call<T>>) {
    forall i, j :: 0 <= i <= j < |calls| ==> calls[i].now <= calls[j].now
  }

  /** Call i is the latest in which name succeeded, and brought v. */
  ghost predicate LatestBrought<T(!new)>(calls: seq<Call<T>>, name: string, i: nat, v: T) {
    && i < |calls| && Brings(calls[i].results, name, v)
    && forall j :: i < j < |calls| ==> OnlyErrsAfter(calls[j].results, name, -1)
  }

  /** Call k is the last one that lists name. */
  ghost predicate LastListed<T>(calls: seq<Call<T>>, name: string, k: nat) {
    && k < |calls| && ListsName(calls[k].results, name)
    && forall j :: k < j < |calls| ==> !ListsName(calls[j].results, name)
  }

  /** What the calls leave for a name that call k was the last to list. */
  ghost predicate HistoryOf<T(!new)>(calls: seq<Call<T>>, stale: nat, name: string, k: nat, c: map<string, Entry<T>>)
    requires k < |calls|
  {
    && (forall i: nat, v :: LatestBrought(calls, name, i, v) ==>
          Get(c, name) == if calls[k].now - calls[i].now < stale then Some(Entry(v, calls[i].now)) else None)
    && ((forall i :: 0 <= i < |calls| ==> OnlyErrsAfter(calls[i].results, name, -1)) ==> name !in c)
  }

  lemma {:induction false} UnlistedCall<T(!new)>(calls: seq<Call<T>>, name: string, i: nat, v: T)
    requires calls != [] && OnlyErrsAfter(calls[|calls| - 1].results, name, -1)
    ensures LatestBrought(calls, name, i, v) <==> LatestBrought(calls[..|calls| - 1], name, i, v)
  {
    var last := calls[|calls| - 1].results;
    assert !Brings(last, name, v);
  }

  lemma {:induction false} NeverListed<T(!new)>(calls: seq<Call<T>>, stale: nat, name: string)
    requires stale > 0 && forall i :: 0 <= i < |calls| ==> !ListsName(calls[i].results, name)
    ensures name !in AfterCalls(calls, stale)
  {
    if calls != [] {
      var n := |calls| - 1;
      NeverListed(calls[..n], stale, name);
      CallOutcome(AfterCalls(calls[..n], stale), calls[n].results, calls[n].now, stale, name);
    }
  }

  /** The last call lists name: from what the calls before it left, or never listed. */
  lemma {:induction false} ListedNow<T(!new)>(calls: seq<Call<T>>, stale: nat, name: string)
    requires stale > 0 && ForwardClock(calls) && calls != [] && ListsName(calls[|calls| - 1].results, name)
    requires var before := calls[..|calls| - 1];
             || (exists k: nat :: LastListed(before, name, k) && HistoryOf(before, stale, name, k, AfterCalls(before, stale)))
             || forall i :: 0 <= i < |before| ==> !ListsName(before[i].results, name)
    ensures HistoryOf(calls, stale, name, |calls| - 1, AfterCalls(calls, stale))
  {
    var n := |calls| - 1;
    var before, last := calls[..n], calls[n];
    var c := AfterCalls(before, stale);
    CallOutcome(c, last.results, last.now, stale, name);
    if OnlyErrsAfter(last.results, name, -1) {
      forall i: nat, v ensures LatestBrought(calls, name, i, v) <==> LatestBrought(before, name, i, v) {
        UnlistedCall(calls, name, i, v);
      }
      if forall i :: 0 <= i < n ==> !ListsName(before[i].results, name) {
        NeverListed(before, stale, name);
      }
    } else {
      var v := BringsSome(last.results, name);
      assert LatestBrought(calls, name, n, v);
    }
  }

  /** Over every sequence of calls with a forward clock and a positive window: a name
      is cached if and only if less than a window lies between the latest call in
      which it succeeded and the last call that listed it; the entry is the value
      that call brought, at that call's time. */
  lemma {:induction false} CacheIsCalls<T(!new)>(calls: seq<Call<T>>, stale: nat, name: string, k: nat)
    requires stale > 0 && ForwardClock(calls) && LastListed(calls, name, k)
    ensures HistoryOf(calls, stale, name, k, AfterCalls(calls, stale))
  {
    var n := |calls| - 1;
    var before := calls[..n];
    if k < n {
      CacheIsCalls(before, stale, name, k);
      CallOutcome(AfterCalls(before, stale), calls[n].results, calls[n].now, stale, name);
      assert !ListsName(calls[n].results, name);
      assert OnlyErrsAfter(calls[n].results, name, -1);
      forall i: nat, v ensures LatestBrought(calls, name, i, v) <==> LatestBrought(before, name, i, v) {
        UnlistedCall(calls, name, i, v);
      }
    } else {
      if j :| 0 <= j < n && ListsName(before[j].results, name) {
        var m := LastListedBefore(before, name, j);
        CacheIsCalls(before, stale, name, m);
      }
      ListedNow(calls, stale, name);
    }
  }

  lemma {:induction false} LastListedBefore<T>(calls: seq<Call<T>>, name: string, j: nat) returns (k: nat)
    requires j < |calls| && ListsName(calls[j].results, name)
    ensures LastListed(calls, name, k)
    decreases |calls| - j
  {
    if m :| j < m < |calls| && ListsName(calls[m].results, name) {
      k := LastListedBefore(calls, name, m);
    } else {
      k := j;
    }
  }

  // ---------- The counters ----------

  ghost predicate DistinctNames<T>(results: seq<(string, Result<T>)>) {
    forall i, j :: 0 <= i < j < |results| ==> results[i].0 != results[j].0
  }

  /** The positions of successes, and of failures whose name satisfies p. */
  ghost function Successes<T>(results: seq<(string, Result<T>)>): set<int> {
    set i | 0 <= i < |results| && results[i].1.Ok?
  }

  ghost function Failures<T>(results: seq<(string, Result<T>)>, kept: set<string>, inside: bool): set<int> {
    set i | 0 <= i < |results| && results[i].1.Err? && (results[i].0 in kept) == inside
  }

  /** The names whose entry a failure would keep. */
  ghost function YoungNames<T>(c: map<string, Entry<T>>, now: int, stale: nat): set<string> {
    set name | name in c && Young(c[name].lastSuccess, now, stale)
  }

  lemma {:induction false} TallyAgainst<T(!new)>(c: map<string, Entry<T>>, results: seq<(string, Result<T>)>,
                                                 now: int, stale: nat)
    requires DistinctNames(results) && stale > 0
    ensures var s, young := Tally(c, Round(results, now), stale), YoungNames(c, now, stale);
            && s.fetchedOk == |Successes(results)|
            && s.usedCache == |Failures(results, young, true)| && s.dropped == |Failures(results, young, false)|
  {
    if results != [] {
      var n := |results| - 1;
      var before, x := results[..n], results[n];
      assert results == before + [x];
      TallyAgainst(c, before, now, stale);
      RoundAppend(before, x, now);
      var fs := Round(before, now);
      assert (fs + [Fetch(now, x.0, x.1)])[..n] == fs;
      CallOutcome(c, before, now, stale, x.0);
      assert !ListsName(before, x.0);
      var young := YoungNames(c, now, stale);
      SuccessesAppend(before, x);
      FailuresAppend(before, x, young, true);
      FailuresAppend(before, x, young, false);
      assert Usable(Replay(c, fs, stale), x.0, stale, now) <==> x.0 in young;
    }
  }

  lemma {:induction false} SuccessesAppend<T>(results: seq<(string, Result<T>)>, x: (string, Result<T>))
    ensures |Successes(results + [x])| == |Successes(results)| + if x.1.Ok? then 1 else 0
  {
    assert Successes(results + [x]) == Successes(results) + if x.1.Ok? then {|results|} else {};
  }

  lemma {:induction false} FailuresAppend<T>(results: seq<(string, Result<T>)>, x: (string, Result<T>),
                                             kept: set<string>, inside: bool)
    ensures |Failures(results + [x], kept, inside)|
         == |Failures(results, kept, inside)| + if x.1.Err? && (x.0 in kept) == inside then 1 else 0
  {
    assert Failures(results + [x], kept, inside)
        == Failures(results, kept, inside) + if x.1.Err? && (x.0 in kept) == inside then {|results|} else {};
  }

  /** What the counters count, for distinct names: the successes, the failed names
      still cached after the call, and the failed names no longer cached. */
  lemma {:induction false} CountersCount<T(!new)>(c: map<string, Entry<T>>, results: seq<(string, Result<T>)>,
                                                  now: int, stale: nat)
    requires DistinctNames(results) && stale > 0
    ensures var s, after := Tally(c, Round(results, now), stale), Replay(c, Round(results, now), stale).Keys;
            && s.fetchedOk == |Successes(results)|
            && s.usedCache == |Failures(results, after, true)| && s.dropped == |Failures(results, after, false)|
  {
    TallyAgainst(c, results, now, stale);
    var young, after := YoungNames(c, now, stale), Replay(c, Round(results, now), stale).Keys;
    forall i | 0 <= i < |results| && results[i].1.Err? ensures results[i].0 in after <==> results[i].0 in young {
      CallOutcome(c, results, now, stale, results[i].0);
      assert ListsName(results, results[i].0) && OnlyErrsAfter(results, results[i].0, -1);
    }
    assert Failures(results, after, true) == Failures(results, young, true);
    assert Failures(results, after, false) == Failures(results, young, false);
  }

  /** What a snapshot shows, in terms of the fetches alone: a name exactly when its
      latest success was not found too old by a later attempt, with the value
      that success brought. */
  lemma {:induction false} SnapshotIsHistory<T>(fs: seq<Fetch<T>>, stale: nat, name: string)
    ensures name in View(Replay(map[], fs, stale)) <==> exists i: nat :: Supports(fs, name, i, stale)
    ensures forall i: nat :: Supports(fs, name, i, stale) ==>
              Get(View(Replay(map[], fs, stale)), name) == Some(fs[i].result.value)
  {
    CacheIsHistory(fs, stale, name);
  }
}
