/** The decision of the `/verify-key` handler (app.js:328-355): blacklist
    first, then the token and its expiry, then the seat count, and finally
    the recording of the player on the key. */
module Access {
  import opened Collections
  import opened Records
  import opened Blacklist

  /** A key that accepts `token` at `now`: same token, flag not raised, not yet lapsed. */
  predicate Live(k: Key, token: string, now: int)
  {
    k.key == token && !k.expired && k.expiresAt > now
  }

  /** Position of the first key that accepts `token` at `now`. */
  function FindLive(keys: seq<Key>, token: string, now: int): (r: Option<nat>)
    ensures r.Some? ==> r.value < |keys| && Live(keys[r.value], token, now)
    ensures r.Some? ==> forall j :: 0 <= j < r.value ==> !Live(keys[j], token, now)
    ensures r.None? <==> forall j :: 0 <= j < |keys| ==> !Live(keys[j], token, now)
  {
    First(keys, (k: Key) => Live(k, token, now))
  }

  datatype Reason = Blacklisted(scope: Scope, until: Expiry) | UserLimitReached | InvalidOrExpired

  /** The JSON answer: `valid: true`, or `valid: false` with the reason its message gives. */
  datatype Verdict = Accepted | Refused(reason: Reason)

  /** The answer and the key list after the request. */
  datatype Outcome = Outcome(verdict: Verdict, keys: seq<Key>)

  /** The record of `k` after `player` is let in: the name is added when it
      is new, together with `inUse`; a known name leaves the record as it was. */
  function Admit(k: Key, player: string): (r: Key)
    ensures player in r.usedBy
    ensures player in k.usedBy ==> r == k
    ensures player !in k.usedBy ==> r.usedBy == k.usedBy + [player] && r.inUse
    ensures r.(usedBy := k.usedBy, inUse := k.inUse) == k
    ensures KeyInvariant(k) && |k.usedBy| < k.maxUsers ==> KeyInvariant(r)
  {
    if player in k.usedBy then k
    else
      AppendFreshKeepsNoDuplicates(k.usedBy, player);
      k.(usedBy := k.usedBy + [player], inUse := true)
  }

  /** `/verify-key?key=token&playerName=player` from address `ip` at time `now`. */
  function Verify(keys: seq<Key>, bl: seq<Ban>, token: string, player: string, ip: string, now: int): (o: Outcome)
    ensures o.verdict.Refused? ==> o.keys == keys
    ensures IsBlacklisted(bl, ip, player, now).Banned? ==>
              o.verdict == Refused(Blacklisted(IsBlacklisted(bl, ip, player, now).scope,
                                               IsBlacklisted(bl, ip, player, now).expiry))
    ensures IsBlacklisted(bl, ip, player, now) == Clear && (forall j :: 0 <= j < |keys| ==> !Live(keys[j], token, now)) ==>
              o.verdict == Refused(InvalidOrExpired)
    ensures o.verdict == Accepted <==>
              && IsBlacklisted(bl, ip, player, now) == Clear
              && FindLive(keys, token, now).Some?
              && |keys[FindLive(keys, token, now).value].usedBy| < keys[FindLive(keys, token, now).value].maxUsers
    ensures IsBlacklisted(bl, ip, player, now) == Clear && FindLive(keys, token, now).Some? &&
            |keys[FindLive(keys, token, now).value].usedBy| >= keys[FindLive(keys, token, now).value].maxUsers ==>
              o.verdict == Refused(UserLimitReached)
    ensures o.verdict == Accepted ==>
              FindLive(keys, token, now).Some? &&
              o.keys == keys[FindLive(keys, token, now).value := Admit(keys[FindLive(keys, token, now).value], player)]
    ensures AllKeysValid(keys) ==> AllKeysValid(o.keys)
  {
    match IsBlacklisted(bl, ip, player, now)
    case Banned(scope, expiry) => Outcome(Refused(Blacklisted(scope, expiry)), keys)
    case Clear =>
      match FindLive(keys, token, now)
      case None => Outcome(Refused(InvalidOrExpired), keys)
      case Some(i) =>
        if |keys[i].usedBy| >= keys[i].maxUsers then Outcome(Refused(UserLimitReached), keys)
        else Outcome(Accepted, keys[i := Admit(keys[i], player)])
  }

  /** The seat count is checked before membership: once the key is full even
      a player already recorded on it is turned away. */
  lemma FullKeyTurnsAwayAdmittedPlayer(keys: seq<Key>, bl: seq<Ban>, token: string, player: string, ip: string, now: int, i: nat)
    requires i < |keys| && Live(keys[i], token, now)
    requires forall j :: 0 <= j < i ==> !Live(keys[j], token, now)
    requires player in keys[i].usedBy && |keys[i].usedBy| >= keys[i].maxUsers
    requires IsBlacklisted(bl, ip, player, now) == Clear
    ensures Verify(keys, bl, token, player, ip, now) == Outcome(Refused(UserLimitReached), keys)
  {
    assert FindLive(keys, token, now) == Some(i);
  }

  /** While a seat is free, a recorded player is let in again and nothing is written. */
  lemma RecordedPlayerRevalidates(keys: seq<Key>, bl: seq<Ban>, token: string, player: string, ip: string, now: int, i: nat)
    requires i < |keys| && Live(keys[i], token, now)
    requires forall j :: 0 <= j < i ==> !Live(keys[j], token, now)
    requires player in keys[i].usedBy && |keys[i].usedBy| < keys[i].maxUsers
    requires IsBlacklisted(bl, ip, player, now) == Clear
    ensures Verify(keys, bl, token, player, ip, now) == Outcome(Accepted, keys)
  {
    assert FindLive(keys, token, now) == Some(i);
    assert keys[i := keys[i]] == keys;
  }

  /** A banned address is turned away even with a live key that has free seats. */
  lemma BlacklistOverridesLiveKey(keys: seq<Key>, bl: seq<Ban>, token: string, player: string, ip: string, now: int, i: nat)
    requires i < |keys| && Live(keys[i], token, now) && |keys[i].usedBy| < keys[i].maxUsers
    requires exists b :: b in bl && IpHit(b, ip, now)
    ensures Verify(keys, bl, token, player, ip, now).verdict.Refused?
    ensures Verify(keys, bl, token, player, ip, now).keys == keys
  {
    var b :| b in bl && IpHit(b, ip, now);
    var j :| 0 <= j < |bl| && bl[j] == b;
  }

  /** A key whose time is up never lets anyone in, whatever its seats. */
  lemma LapsedKeyRejected(keys: seq<Key>, bl: seq<Ban>, token: string, player: string, ip: string, now: int)
    requires forall j :: 0 <= j < |keys| && keys[j].key == token ==> keys[j].expiresAt <= now
    ensures Verify(keys, bl, token, player, ip, now).verdict.Refused?
  {
  }

  /** A key for 1.2.3.4 with the default two seats: A and B get in, C is
      refused, and then A, although recorded, is refused too. */
  lemma TwoSeatScenario(token: string, now: int)
    ensures var k := Key(token, "1.2.3.4", DefaultMaxUsers, now, now + KeyLifetimeMs, false, false, []);
            var o1 := Verify([k], [], token, "A", "1.2.3.4", now);
            var o2 := Verify(o1.keys, [], token, "B", "1.2.3.4", now);
            var o3 := Verify(o2.keys, [], token, "C", "1.2.3.4", now);
            var o4 := Verify(o3.keys, [], token, "A", "1.2.3.4", now);
            && o1.verdict == Accepted && o2.verdict == Accepted
            && o3.verdict == Refused(UserLimitReached) && o4.verdict == Refused(UserLimitReached)
            && o4.keys == [k.(usedBy := ["A", "B"], inUse := true)]
  {
    var k := Key(token, "1.2.3.4", DefaultMaxUsers, now, now + KeyLifetimeMs, false, false, []);
    var k1 := k.(usedBy := ["A"], inUse := true);
    var k2 := k.(usedBy := ["A", "B"], inUse := true);
    assert IsBlacklisted([], "1.2.3.4", "A", now) == Clear;
    assert IsBlacklisted([], "1.2.3.4", "B", now) == Clear;
    assert IsBlacklisted([], "1.2.3.4", "C", now) == Clear;
    assert Live([k][0], token, now);
    assert FindLive([k], token, now) == Some(0);
    assert k.usedBy + ["A"] == ["A"];
    assert Admit(k, "A") == k1;
    assert [k][0 := k1] == [k1];
    assert Verify([k], [], token, "A", "1.2.3.4", now) == Outcome(Accepted, [k1]);
    assert Live([k1][0], token, now);
    assert FindLive([k1], token, now) == Some(0);
    assert "B" !in k1.usedBy;
    assert k1.usedBy + ["B"] == ["A", "B"];
    assert Admit(k1, "B") == k2;
    assert [k1][0 := k2] == [k2];
    assert Verify([k1], [], token, "B", "1.2.3.4", now) == Outcome(Accepted, [k2]);
    assert Live([k2][0], token, now);
    assert FindLive([k2], token, now) == Some(0);
    assert Verify([k2], [], token, "C", "1.2.3.4", now) == Outcome(Refused(UserLimitReached), [k2]);
  }
}
