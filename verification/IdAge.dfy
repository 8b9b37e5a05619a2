/** A router that polls its daemons directly: how old an id in force can be. */
module IdAge {
  import opened Base
  import opened LeaseCache
  import opened Identity
  import opened Specs

  /** One round: the clock reading and each configured daemon's fetch result. */
  datatype DirectRound = DirectRound(now: int, results: seq<Result<Leases>>)

  ghost predicate GoodConfig(names: seq<string>, rounds: seq<DirectRound>) {
    && Distinct(names)
    && (forall i :: 0 <= i < |rounds| ==> |rounds[i].results| == |names|)
    && (forall i, j :: 0 <= i <= j < |rounds| ==> rounds[i].now <= rounds[j].now)
  }

  function Fetched(names: seq<string>, r: DirectRound): (fs: seq<Fetch<Leases>>)
    requires |names| == |r.results|
    ensures |fs| == |names|
  {
    Round(Zip(names, r.results), r.now)
  }

  /** Every fetch of every round, in order. */
  ghost function Fetches(names: seq<string>, rounds: seq<DirectRound>): seq<Fetch<Leases>>
    requires GoodConfig(names, rounds)
  {
    if rounds == [] then []
    else Fetches(names, rounds[..|rounds| - 1]) + Fetched(names, rounds[|rounds| - 1])
  }

  ghost function CacheAfter(names: seq<string>, rounds: seq<DirectRound>, stale: nat): map<string, Entry<Leases>>
    requires GoodConfig(names, rounds)
  {
    Replay(map[], Fetches(names, rounds), stale)
  }

  /** What the router lists for id resolution: the id in each daemon's cached leases, if any. */
  ghost function AdvertsAfter(names: seq<string>, rounds: seq<DirectRound>, stale: nat): Adverts
    requires GoodConfig(names, rounds)
  {
    var view := View(CacheAfter(names, rounds, stale));
    seq(|names|, k requires 0 <= k < |names| =>
      (names[k], if names[k] in view then view[names[k]].id else None))
  }

  ghost function IdRounds(names: seq<string>, rounds: seq<DirectRound>, stale: nat): (ids: seq<IdRound>)
    requires GoodConfig(names, rounds)
    ensures |ids| == |rounds|
  {
    seq(|rounds|, i requires 0 <= i < |rounds| =>
      IdRound(AdvertsAfter(names, rounds[..i + 1], stale), rounds[i].now))
  }

  /** The ids in force after the last round. */
  ghost function IdsInForce(names: seq<string>, rounds: seq<DirectRound>, stale: nat): map<string, Byte>
    requires GoodConfig(names, rounds) && rounds != []
  {
    var n := |rounds| - 1;
    Ids(RememberedAfter(IdRounds(names, rounds[..n], stale), stale),
        AdvertsAfter(names, rounds, stale), stale, rounds[n].now)
  }

  // ---------- Histories ----------

  lemma {:induction false} FetchesChronological(names: seq<string>, rounds: seq<DirectRound>)
    requires GoodConfig(names, rounds)
    ensures Chronological(Fetches(names, rounds))
    ensures forall f :: f in Fetches(names, rounds) ==> rounds != [] && f.at <= rounds[|rounds| - 1].now
  {
    if rounds != [] {
      var n := |rounds| - 1;
      FetchesChronological(names, rounds[..n]);
      var a, b := Fetches(names, rounds[..n]), Fetched(names, rounds[n]);
      var fs: seq<Fetch<Leases>> := a + b;
      forall i, j | 0 <= i <= j < |fs| ensures fs[i].at <= fs[j].at {
        if i < |a| {
          assert a[i] in a && a[i].at <= rounds[n].now;
        }
      }
    }
  }

  lemma {:induction false} FetchesPrefix(names: seq<string>, rounds: seq<DirectRound>, i: nat, f: Fetch<Leases>)
    requires GoodConfig(names, rounds) && i <= |rounds| && f in Fetches(names, rounds[..i])
    ensures f in Fetches(names, rounds)
    decreases |rounds|
  {
    if i == |rounds| {
      assert rounds[..i] == rounds;
    } else {
      var n := |rounds| - 1;
      assert rounds[..n][..i] == rounds[..i];
      FetchesPrefix(names, rounds[..n], i, f);
    }
  }

  /** f is a successful report of these leases by name, less than bound before now. */
  ghost predicate Backs(f: Fetch<Leases>, name: string, id: Byte, now: int, bound: int) {
    f.name == name && f.result.Ok? && f.result.value.id == Some(id) && now - f.at < bound
  }

  /** An id advertised in the last round comes from a fetch less than one window old. */
  lemma {:induction false} AdvertIsYoung(names: seq<string>, rounds: seq<DirectRound>, stale: nat, k: nat, id: Byte)
    returns (f: Fetch<Leases>)
    requires GoodConfig(names, rounds) && rounds != [] && stale > 0 && k < |names|
    requires AdvertsAfter(names, rounds, stale)[k].1 == Some(id)
    ensures f in Fetches(names, rounds) && Backs(f, names[k], id, rounds[|rounds| - 1].now, stale)
  {
    var n := |rounds| - 1;
    var fs, before := Fetches(names, rounds), Fetches(names, rounds[..n]);
    var p := |before| + k;
    assert LastPoll(fs, names[k], p);
    FetchesChronological(names, rounds);
    CacheIsLatestYoungSuccess(fs, stale, names[k], p);
    var i: nat :| LatestSuccess(fs, names[k], i) && fs[p].at - fs[i].at < stale;
    f := fs[i];
  }

  lemma {:induction false} IdRoundsGood(names: seq<string>, rounds: seq<DirectRound>, stale: nat)
    requires GoodConfig(names, rounds)
    ensures GoodRounds(IdRounds(names, rounds, stale))
  {
  }

  /** An id remembered after some rounds comes from a fetch less than one window
      before the round it was remembered in. */
  lemma {:induction false} RememberedIsBacked(names: seq<string>, rounds: seq<DirectRound>, stale: nat, name: string)
    returns (f: Fetch<Leases>)
    requires GoodConfig(names, rounds) && stale > 0
    requires name in RememberedAfter(IdRounds(names, rounds, stale), stale)
    ensures f in Fetches(names, rounds)
    ensures var r := RememberedAfter(IdRounds(names, rounds, stale), stale)[name];
            Backs(f, name, r.id, r.seen, stale)
  {
    var idrs := IdRounds(names, rounds, stale);
    IdRoundsGood(names, rounds, stale);
    var i := RememberedWasAccepted(idrs, stale, name);
    var id := RememberedAfter(idrs, stale)[name].id;
    var adverts := AdvertsAfter(names, rounds[..i + 1], stale);
    assert (name, Some(id)) in adverts;
    var m :| 0 <= m < |adverts| && adverts[m] == (name, Some(id));
    f := AdvertIsYoung(names, rounds[..i + 1], stale, m, id);
    FetchesPrefix(names, rounds, i + 1, f);
  }

  /** Bounded id age: every id a router in direct mode puts in force was in a
      successful fetch from that very daemon less than two windows earlier, by at
      least two ticks. */
  lemma {:induction false} BoundedIdAge(names: seq<string>, rounds: seq<DirectRound>, stale: nat, name: string)
    returns (f: Fetch<Leases>)
    requires GoodConfig(names, rounds) && rounds != [] && stale > 0
    requires name in IdsInForce(names, rounds, stale)
    ensures f in Fetches(names, rounds)
    ensures Backs(f, name, IdsInForce(names, rounds, stale)[name], rounds[|rounds| - 1].now, 2 * stale - 1)
  {
    var n := |rounds| - 1;
    var adverts, now := AdvertsAfter(names, rounds, stale), rounds[n].now;
    var rem := RememberedAfter(IdRounds(names, rounds[..n], stale), stale);
    FirstClaim(rem, adverts, stale, now);
    var k :| 0 <= k < |adverts| && adverts[k].0 == name;
    if adverts[k].1.Some? {
      f := AdvertIsYoung(names, rounds, stale, k, adverts[k].1.value);
    } else {
      f := RememberedIsBacked(names, rounds[..n], stale, name);
    }
  }

  // ---------- The bound is tight ----------

  lemma {:induction false} OneAdvert(rem: Remembered, name: string, advert: Option<Byte>, stale: nat, now: int)
    ensures ClaimAll(rem, [(name, advert)], stale, now) == Claim(Claims(map[], map[], rem), name, advert, stale, now)
  {
    var adverts: Adverts := [(name, advert)];
    assert adverts[..0] == [];
  }

  /** A success, then two failures just under a window apart. */
  function LateRounds(stale: nat): seq<DirectRound> {
    [DirectRound(0, [Ok(LATE_LEASES)]), DirectRound(stale - 1, [Err]), DirectRound(2 * stale - 2, [Err])]
  }

  const LATE_LEASES := Leases([], Some(4))

  function LateFetches(stale: nat): seq<Fetch<Leases>> {
    [Fetch(0, "a", Ok(LATE_LEASES)), Fetch(stale - 1, "a", Err), Fetch(2 * stale - 2, "a", Err)]
  }

  lemma {:induction false} LateFetchesUpTo(stale: nat, n: nat)
    requires stale >= 2 && n <= 3
    ensures GoodConfig(["a"], LateRounds(stale))
    ensures Fetches(["a"], LateRounds(stale)[..n]) == LateFetches(stale)[..n]
  {
    var rs, fs := LateRounds(stale), LateFetches(stale);
    if n > 0 {
      LateFetchesUpTo(stale, n - 1);
      assert rs[..n][..n - 1] == rs[..n - 1];
      assert Fetched(["a"], rs[n - 1]) == [fs[n - 1]];
    }
  }

  lemma {:induction false} LateReplay(stale: nat)
    requires stale >= 2
    ensures var fs := LateFetches(stale);
            && Replay(map[], fs[..1], stale) == map["a" := Entry(LATE_LEASES, 0)]
            && Replay(map[], fs[..2], stale) == map["a" := Entry(LATE_LEASES, 0)]
            && Replay(map[], fs[..3], stale) == map[]
  {
    var fs := LateFetches(stale);
    assert fs[..1][..0] == [] && fs[..2][..1] == fs[..1] && fs[..3][..2] == fs[..2];
  }

  lemma {:induction false} LateCaches(stale: nat)
    requires stale >= 2
    ensures GoodConfig(["a"], LateRounds(stale))
    ensures var rs := LateRounds(stale);
            && CacheAfter(["a"], rs[..1], stale) == map["a" := Entry(LATE_LEASES, 0)]
            && CacheAfter(["a"], rs[..2], stale) == map["a" := Entry(LATE_LEASES, 0)]
            && CacheAfter(["a"], rs[..3], stale) == map[]
            && Fetches(["a"], rs) == LateFetches(stale)
  {
    LateFetchesUpTo(stale, 1);
    LateFetchesUpTo(stale, 2);
    LateFetchesUpTo(stale, 3);
    LateReplay(stale);
    assert LateRounds(stale)[..3] == LateRounds(stale) && LateFetches(stale)[..3] == LateFetches(stale);
  }

  lemma {:induction false} LateRemembered(stale: nat)
    requires stale >= 2
    ensures var r0, r1 := IdRound([("a", Some(4))], 0), IdRound([("a", Some(4))], stale - 1);
            RememberedAfter([r0, r1], stale) == map["a" := RememberedId(4, stale - 1)]
  {
    var r0, r1 := IdRound([("a", Some(4))], 0), IdRound([("a", Some(4))], stale - 1);
    assert [r0, r1][..1] == [r0] && [r0][..0] == [];
    OneAdvert(map[], "a", Some(4), stale, 0);
    var rem0: Remembered := map["a" := RememberedId(4, 0)];
    assert RememberedAfter([r0], stale) == rem0;
    OneAdvert(rem0, "a", Some(4), stale, stale - 1);
  }

  lemma {:induction false} OneNameAdverts(rounds: seq<DirectRound>, stale: nat)
    requires GoodConfig(["a"], rounds)
    ensures var c := CacheAfter(["a"], rounds, stale);
            AdvertsAfter(["a"], rounds, stale) == [("a", if "a" in c then c["a"].value.id else None)]
  {
  }

  lemma {:induction false} LateAdverts(stale: nat)
    requires stale >= 2
    ensures GoodConfig(["a"], LateRounds(stale))
    ensures AdvertsAfter(["a"], LateRounds(stale), stale) == [("a", None)]
    ensures IdRounds(["a"], LateRounds(stale)[..2], stale)
         == [IdRound([("a", Some(4))], 0), IdRound([("a", Some(4))], stale - 1)]
  {
    var rs := LateRounds(stale);
    LateCaches(stale);
    assert rs[..2][..1] == rs[..1] && rs[..2][..2] == rs[..2] && rs[..3] == rs;
    OneNameAdverts(rs[..1], stale);
    OneNameAdverts(rs[..2], stale);
    OneNameAdverts(rs, stale);
  }

  /** An id can be in force although its only supporting fetch is two windows
      minus two ticks old: no bound of 2 * stale - 2 or less would hold. */
  lemma {:induction false} TwoWindowsIsTight(stale: nat)
    requires stale >= 2
    ensures var rs := LateRounds(stale);
            && GoodConfig(["a"], rs) && IdsInForce(["a"], rs, stale) == map["a" := 4]
            && forall f :: f in Fetches(["a"], rs) && f.result.Ok? ==> rs[2].now - f.at == 2 * stale - 2
  {
    LateCaches(stale);
    LateAdverts(stale);
    LateRemembered(stale);
    OneAdvert(map["a" := RememberedId(4, stale - 1)], "a", None, stale, 2 * stale - 2);
  }
}
