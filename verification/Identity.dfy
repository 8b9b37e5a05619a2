/** Which daemon owns which DSCP id.  Every round the router lists what its
    daemons advertise; a daemon that advertises nothing may keep its last
    accepted id for a while; conflicts go to the first daemon in list order. */
module Identity {
  import opened Base

  datatype RememberedId = RememberedId(id: Byte, seen: int)

  type Remembered = map<string, RememberedId>

  type Adverts = seq<(string, Option<Byte>)>

  predicate Fresh(r: RememberedId, stale: nat, now: int) {
    Elapsed(now, r.seen) < stale
  }

  function Candidate(rem: Remembered, name: string, advert: Option<Byte>, stale: nat, now: int): Option<Byte> {
    if advert.Some? then advert
    else if name in rem && Fresh(rem[name], stale, now) then Some(rem[name].id)
    else None
  }

  predicate InRange(id: Byte) {
    id != 0 && id <= DSCP_ID_MAX
  }

  // ---------- The loop ----------

  /** The loop's variables. */
  datatype Claims = Claims(out: map<string, Byte>, claimed: map<Byte, string>, remembered: Remembered)

  function Claim(s: Claims, name: string, advert: Option<Byte>, stale: nat, now: int): Claims {
    var c := Candidate(s.remembered, name, advert, stale, now);
    if c.None? || !InRange(c.value) || c.value in s.claimed then s
    else
      Claims(s.out[name := c.value], s.claimed[c.value := name],
             if advert == c then s.remembered[name := RememberedId(c.value, now)] else s.remembered)
  }

  function ClaimAll(rem: Remembered, adverts: Adverts, stale: nat, now: int): Claims {
    if adverts == [] then Claims(map[], map[], rem)
    else
      var n := |adverts| - 1;
      Claim(ClaimAll(rem, adverts[..n], stale, now), adverts[n].0, adverts[n].1, stale, now)
  }

  function Retain(rem: Remembered, stale: nat, now: int): Remembered {
    map name | name in rem && Fresh(rem[name], stale, now) :: rem[name]
  }

  /** The ids handed out by one round. */
  function Ids(rem: Remembered, adverts: Adverts, stale: nat, now: int): map<string, Byte> {
    ClaimAll(rem, adverts, stale, now).out
  }

  /** What is remembered after one round. */
  function Next(rem: Remembered, adverts: Adverts, stale: nat, now: int): Remembered {
    Retain(ClaimAll(rem, adverts, stale, now).remembered, stale, now)
  }

  method ValidateId(name: string, id: Option<Byte>, claimed: map<Byte, string>)
    returns (r: Option<Byte>, claimed': map<Byte, string>)
    ensures r == if id.Some? && InRange(id.value) && id.value !in claimed then id else None
    ensures claimed' == if r.Some? then claimed[r.value := name] else claimed
  {
    if id.None? {
      return None, claimed;
    }
    if id.value == 0 || id.value > DSCP_ID_MAX {
      return None, claimed;
    }
    if id.value in claimed {
      return None, claimed;
    }
    return id, claimed[id.value := name];
  }

  class KnownIds {
    var remembered: Remembered

    constructor ()
      ensures remembered == map[]
    {
      remembered := map[];
    }

    method ResolveIds(adverts: Adverts, stale: nat, now: int) returns (out: map<string, Byte>)
      modifies this
      ensures out == Ids(old(remembered), adverts, stale, now)
      ensures remembered == Next(old(remembered), adverts, stale, now)
    {
      out := map[];
      var claimed: map<Byte, string> := map[];
      for i := 0 to |adverts|
        invariant Claims(out, claimed, remembered) == ClaimAll(old(remembered), adverts[..i], stale, now)
      {
        assert adverts[..i + 1][..i] == adverts[..i];
        var (name, advert) := adverts[i];
        var candidate := advert;
        if advert.None? && name in remembered && Elapsed(now, remembered[name].seen) < stale {
          candidate := Some(remembered[name].id);
        }
        var id, claimed' := ValidateId(name, candidate, claimed);
        claimed := claimed';
        if id.None? {
          continue;
        }
        if advert == id {
          remembered := remembered[name := RememberedId(id.value, now)];
        }
        out := out[name := id.value];
      }
      assert adverts[..|adverts|] == adverts;
      remembered := Retain(remembered, stale, now);
    }
  }

  // ---------- No two daemons share an id ----------

  ghost predicate Consistent(s: Claims) {
    && (forall name :: name in s.out ==> s.out[name] in s.claimed && s.claimed[s.out[name]] == name)
    && (forall id :: id in s.claimed ==> InRange(id))
  }

  lemma {:induction false} ClaimsConsistent(rem: Remembered, adverts: Adverts, stale: nat, now: int)
    ensures Consistent(ClaimAll(rem, adverts, stale, now))
  {
    if adverts != [] {
      ClaimsConsistent(rem, adverts[..|adverts| - 1], stale, now);
    }
  }

  /** Even if a name is listed twice, ids are in 1..63 and belong to one name each. */
  lemma {:induction false} IdsInjective(rem: Remembered, adverts: Adverts, stale: nat, now: int, a: string, b: string)
    requires a in Ids(rem, adverts, stale, now) && b in Ids(rem, adverts, stale, now)
    ensures InRange(Ids(rem, adverts, stale, now)[a])
    ensures Ids(rem, adverts, stale, now)[a] == Ids(rem, adverts, stale, now)[b] ==> a == b
  {
    ClaimsConsistent(rem, adverts, stale, now);
  }

  // ---------- First claim wins ----------

  ghost predicate DistinctNames(adverts: Adverts) {
    forall i, j :: 0 <= i < j < |adverts| ==> adverts[i].0 != adverts[j].0
  }

  /** The candidate of the k-th daemon, judged by what was remembered before the round. */
  function CandidateOf(rem: Remembered, adverts: Adverts, k: nat, stale: nat, now: int): Option<Byte>
    requires k < |adverts|
  {
    Candidate(rem, adverts[k].0, adverts[k].1, stale, now)
  }

  /** The declarative rule: a candidate in 1..63 that no earlier daemon has. */
  ghost predicate Wins(rem: Remembered, adverts: Adverts, k: nat, stale: nat, now: int)
    requires k < |adverts|
  {
    var c := CandidateOf(rem, adverts, k, stale, now);
    && c.Some? && InRange(c.value)
    && forall j :: 0 <= j < k ==> CandidateOf(rem, adverts, j, stale, now) != c
  }

  ghost predicate Unlisted(adverts: Adverts, n: nat, name: string)
    requires n <= |adverts|
  {
    forall k :: 0 <= k < n ==> adverts[k].0 != name
  }

  /** The loop leaves names it has not met alone. */
  lemma {:induction false} UnlistedUntouched(rem: Remembered, adverts: Adverts, n: nat, stale: nat, now: int,
                                             name: string)
    requires n <= |adverts| && Unlisted(adverts, n, name)
    ensures var s := ClaimAll(rem, adverts[..n], stale, now);
            name !in s.out && Get(s.remembered, name) == Get(rem, name)
  {
    if n > 0 {
      assert adverts[..n][..n - 1] == adverts[..n - 1];
      UnlistedUntouched(rem, adverts, n - 1, stale, now, name);
    }
  }

  /** Some daemon before position n has candidate id. */
  ghost predicate Taken(rem: Remembered, adverts: Adverts, n: nat, stale: nat, now: int, id: Byte)
    requires n <= |adverts|
  {
    exists j :: 0 <= j < n && CandidateOf(rem, adverts, j, stale, now) == Some(id)
  }

  lemma {:induction false} ClaimedIsTaken(rem: Remembered, adverts: Adverts, n: nat, stale: nat, now: int, id: Byte)
    requires DistinctNames(adverts) && n <= |adverts|
    ensures id in ClaimAll(rem, adverts[..n], stale, now).claimed
       <==> InRange(id) && Taken(rem, adverts, n, stale, now, id)
  {
    if n > 0 {
      assert adverts[..n][..n - 1] == adverts[..n - 1];
      ClaimedIsTaken(rem, adverts, n - 1, stale, now, id);
      UnlistedUntouched(rem, adverts, n - 1, stale, now, adverts[n - 1].0);
      assert Taken(rem, adverts, n, stale, now, id)
        <==> Taken(rem, adverts, n - 1, stale, now, id) || CandidateOf(rem, adverts, n - 1, stale, now) == Some(id);
    }
  }

  /** What the loop does for daemon k, and what the later daemons leave of it. */
  lemma {:induction false} ClaimOutcome(rem: Remembered, adverts: Adverts, n: nat, k: nat, stale: nat, now: int)
    requires DistinctNames(adverts) && k < n <= |adverts|
    ensures var s, won := ClaimAll(rem, adverts[..n], stale, now), Wins(rem, adverts, k, stale, now);
            && Get(s.out, adverts[k].0) == (if won then CandidateOf(rem, adverts, k, stale, now) else None)
            && Get(s.remembered, adverts[k].0)
               == if won && adverts[k].1.Some? then Some(RememberedId(adverts[k].1.value, now))
                  else Get(rem, adverts[k].0)
  {
    assert adverts[..n][..n - 1] == adverts[..n - 1];
    if k < n - 1 {
      ClaimOutcome(rem, adverts, n - 1, k, stale, now);
    } else {
      UnlistedUntouched(rem, adverts, k, stale, now, adverts[k].0);
      var c := CandidateOf(rem, adverts, k, stale, now);
      if c.Some? {
        ClaimedIsTaken(rem, adverts, k, stale, now, c.value);
      }
    }
  }

  /** First claim: for distinct names the loop hands daemon k its candidate
      exactly when it wins, and hands out nothing else. */
  lemma {:induction false} FirstClaim(rem: Remembered, adverts: Adverts, stale: nat, now: int)
    requires DistinctNames(adverts)
    ensures forall k :: 0 <= k < |adverts| ==>
              Get(Ids(rem, adverts, stale, now), adverts[k].0)
              == if Wins(rem, adverts, k, stale, now) then CandidateOf(rem, adverts, k, stale, now) else None
    ensures forall name :: name in Ids(rem, adverts, stale, now) ==> !Unlisted(adverts, |adverts|, name)
  {
    assert adverts[..|adverts|] == adverts;
    forall k | 0 <= k < |adverts|
      ensures Get(Ids(rem, adverts, stale, now), adverts[k].0)
           == if Wins(rem, adverts, k, stale, now) then CandidateOf(rem, adverts, k, stale, now) else None
    {
      ClaimOutcome(rem, adverts, |adverts|, k, stale, now);
    }
    forall name | Unlisted(adverts, |adverts|, name) ensures name !in Ids(rem, adverts, stale, now) {
      UnlistedUntouched(rem, adverts, |adverts|, stale, now, name);
    }
  }

  /** Daemon k stands for id: it advertises it, or it advertises nothing and was
      remembered with it less than a window ago. */
  ghost predicate StandsFor(rem: Remembered, adverts: Adverts, k: nat, stale: nat, now: int, id: Byte)
    requires k < |adverts|
  {
    var name := adverts[k].0;
    || adverts[k].1 == Some(id)
    || (adverts[k].1 == None && name in rem && rem[name].id == id && stale > 0 && now - rem[name].seen < stale)
  }

  /** The first-claim rule in full: for distinct names, daemon k gets id if and only if
      it stands for it, it is in 1..63, and no earlier daemon stands for it. */
  lemma {:induction false} FirstToStand(rem: Remembered, adverts: Adverts, stale: nat, now: int, k: nat, id: Byte)
    requires DistinctNames(adverts) && k < |adverts|
    ensures Get(Ids(rem, adverts, stale, now), adverts[k].0) == Some(id) <==>
            && StandsFor(rem, adverts, k, stale, now, id) && 1 <= id <= 63
            && forall j :: 0 <= j < k ==> !StandsFor(rem, adverts, j, stale, now, id)
  {
    FirstClaim(rem, adverts, stale, now);
    assert forall j :: 0 <= j <= k ==>
      (StandsFor(rem, adverts, j, stale, now, id) <==> CandidateOf(rem, adverts, j, stale, now) == Some(id));
  }

  // ---------- What is remembered, over runs ----------

  /** The round accepts an advertisement of id by name. */
  ghost predicate Accepts(rem: Remembered, adverts: Adverts, stale: nat, now: int, name: string, id: Byte) {
    (name, Some(id)) in adverts && name in Ids(rem, adverts, stale, now)
  }

  /** A round overwrites what it knows about a name exactly when it accepts an advertisement by it. */
  lemma {:induction false} RememberedAfterRound(rem: Remembered, adverts: Adverts, stale: nat, now: int, name: string)
    requires DistinctNames(adverts)
    ensures forall id :: Accepts(rem, adverts, stale, now, name, id) ==>
              Get(Next(rem, adverts, stale, now), name) == if stale > 0 then Some(RememberedId(id, now)) else None
    ensures (forall id :: !Accepts(rem, adverts, stale, now, name, id)) ==>
              Get(Next(rem, adverts, stale, now), name)
              == if name in rem && Fresh(rem[name], stale, now) then Some(rem[name]) else None
  {
    assert adverts[..|adverts|] == adverts;
    if Unlisted(adverts, |adverts|, name) {
      UnlistedUntouched(rem, adverts, |adverts|, stale, now, name);
    } else {
      var k :| 0 <= k < |adverts| && adverts[k].0 == name;
      ClaimOutcome(rem, adverts, |adverts|, k, stale, now);
      assert forall id :: (name, Some(id)) in adverts ==> adverts[k].1 == Some(id);
      assert adverts[k] in adverts;
      if adverts[k].1.Some? {
        assert Accepts(rem, adverts, stale, now, name, adverts[k].1.value) <==> Wins(rem, adverts, k, stale, now);
      }
    }
  }

  datatype IdRound = IdRound(adverts: Adverts, now: int)

  /** What is remembered after the given rounds, starting with nothing. */
  function RememberedAfter(rounds: seq<IdRound>, stale: nat): Remembered {
    if rounds == [] then map[]
    else
      var r := rounds[|rounds| - 1];
      Next(RememberedAfter(rounds[..|rounds| - 1], stale), r.adverts, stale, r.now)
  }

  ghost predicate AcceptedAt(rounds: seq<IdRound>, stale: nat, i: nat, name: string, id: Byte) {
    && i < |rounds|
    && Accepts(RememberedAfter(rounds[..i], stale), rounds[i].adverts, stale, rounds[i].now, name, id)
  }

  /** Round i is the last one that accepted an advertisement by name. */
  ghost predicate LatestAccepted(rounds: seq<IdRound>, stale: nat, i: nat, name: string, id: Byte) {
    && AcceptedAt(rounds, stale, i, name, id)
    && forall j: nat, other :: i < j < |rounds| ==> !AcceptedAt(rounds, stale, j, name, other)
  }

  ghost predicate GoodRounds(rounds: seq<IdRound>) {
    && (forall i :: 0 <= i < |rounds| ==> DistinctNames(rounds[i].adverts))
    && (forall i, j :: 0 <= i <= j < |rounds| ==> rounds[i].now <= rounds[j].now)
  }

  lemma {:induction false} AcceptedInPrefix(rounds: seq<IdRound>, stale: nat, n: nat, i: nat, name: string, id: Byte)
    requires n <= |rounds| && i < n
    ensures AcceptedAt(rounds[..n], stale, i, name, id) <==> AcceptedAt(rounds, stale, i, name, id)
  {
    assert rounds[..n][..i] == rounds[..i];
  }

  /** After every round, `remembered` holds for each name exactly its most recent
      accepted advertisement, if that is younger than the window, and nothing
      otherwise.  In particular reusing an id never extends its window. */
  lemma {:induction false} RememberedIsLatestAccepted(rounds: seq<IdRound>, stale: nat, name: string)
    requires rounds != [] && GoodRounds(rounds)
    ensures forall i: nat, id :: LatestAccepted(rounds, stale, i, name, id) ==>
              Get(RememberedAfter(rounds, stale), name)
              == if rounds[|rounds| - 1].now - rounds[i].now < stale then Some(RememberedId(id, rounds[i].now)) else None
    ensures (forall i: nat, id :: !AcceptedAt(rounds, stale, i, name, id)) ==>
              name !in RememberedAfter(rounds, stale)
  {
    var n := |rounds| - 1;
    var before, last := rounds[..n], rounds[n];
    var rem := RememberedAfter(before, stale);
    RememberedAfterRound(rem, last.adverts, stale, last.now, name);
    forall i: nat, id | i < n ensures AcceptedAt(before, stale, i, name, id) <==> AcceptedAt(rounds, stale, i, name, id) {
      AcceptedInPrefix(rounds, stale, n, i, name, id);
    }
    if n > 0 {
      RememberedIsLatestAccepted(before, stale, name);
    }
    forall i: nat, id | LatestAccepted(rounds, stale, i, name, id)
      ensures Get(RememberedAfter(rounds, stale), name)
           == if last.now - rounds[i].now < stale then Some(RememberedId(id, rounds[i].now)) else None
    {
      if i < n {
        assert LatestAccepted(before, stale, i, name, id);
        forall other ensures !Accepts(rem, last.adverts, stale, last.now, name, other) {
          assert !AcceptedAt(rounds, stale, n, name, other);
        }
        assert rounds[i].now <= rounds[n - 1].now <= last.now;
      }
    }
    if forall i: nat, id :: !AcceptedAt(rounds, stale, i, name, id) {
      forall id ensures !Accepts(rem, last.adverts, stale, last.now, name, id) {
        assert !AcceptedAt(rounds, stale, n, name, id);
      }
    }
  }

  /** Whatever is remembered was accepted, when it says it was. */
  lemma {:induction false} RememberedWasAccepted(rounds: seq<IdRound>, stale: nat, name: string) returns (i: nat)
    requires GoodRounds(rounds) && name in RememberedAfter(rounds, stale)
    ensures AcceptedAt(rounds, stale, i, name, RememberedAfter(rounds, stale)[name].id)
    ensures RememberedAfter(rounds, stale)[name].seen == rounds[i].now
  {
    var n := |rounds| - 1;
    var before, last := rounds[..n], rounds[n];
    var rem := RememberedAfter(before, stale);
    RememberedAfterRound(rem, last.adverts, stale, last.now, name);
    if id :| Accepts(rem, last.adverts, stale, last.now, name, id) {
      i := n;
    } else {
      i := RememberedWasAccepted(before, stale, name);
      AcceptedInPrefix(rounds, stale, n, i, name, rem[name].id);
    }
  }
}
