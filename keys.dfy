/** The key store as a list of records: issuing keys (`createKey`,
    `createCustomKey`), the removals (`removeExpiredKeys`, the filter of
    `/admin/delete-key`) and the time extensions of `/admin/add-time` and
    `/admin/add-time-all`, each as a function of the list before the call. */
module Keys {
  import opened Collections
  import opened Records

  /** A key that `createKey` hands back to `ip` instead of issuing one:
      same owner and the `expired` flag not raised (the expiry instant is
      not looked at). */
  predicate Reusable(k: Key, ip: string)
  {
    k.ip == ip && !k.expired
  }

  /** Position of the first key `createKey` may reuse for `ip`. */
  function FindReusable(keys: seq<Key>, ip: string): (r: Option<nat>)
    ensures r.Some? ==> r.value < |keys| && Reusable(keys[r.value], ip)
    ensures r.Some? ==> forall j :: 0 <= j < r.value ==> !Reusable(keys[j], ip)
    ensures r.None? <==> forall j :: 0 <= j < |keys| ==> !Reusable(keys[j], ip)
  {
    First(keys, k => Reusable(k, ip))
  }

  /** The key handed out and the key list after the call. */
  datatype Issued = Issued(key: Key, keys: seq<Key>)

  /** `createKey(ip, maxUsers)` at time `now`, with `token` the freshly generated key string. */
  function Issue(keys: seq<Key>, ip: string, maxUsers: int, now: int, token: string): (r: Issued)
    ensures r.key.ip == ip && !r.key.expired
    ensures r.keys == keys <==> exists j :: 0 <= j < |keys| && Reusable(keys[j], ip)
    ensures r.keys == keys ==>
              exists i :: 0 <= i < |keys| && keys[i] == r.key && forall j :: 0 <= j < i ==> !Reusable(keys[j], ip)
    ensures r.keys != keys ==>
              && r.keys == keys + [r.key]
              && r.key.key == token && r.key.maxUsers == maxUsers
              && r.key.createdAt == now && r.key.expiresAt == now + KeyLifetimeMs
              && !r.key.inUse && r.key.usedBy == []
    ensures AllKeysValid(keys) ==> AllKeysValid(r.keys)
  {
    match FindReusable(keys, ip)
    case Some(i) => Issued(keys[i], keys)
    case None =>
      var k := Key(token, ip, maxUsers, now, now + KeyLifetimeMs, false, false, []);
      Issued(k, keys + [k])
  }

  /** Issuing twice for the same address hands out the same key and adds
      nothing the second time, whatever the later time, cap and token. */
  lemma {:induction false} IssueIdempotent(keys: seq<Key>, ip: string, m1: int, now1: int, tok1: string,
                                           m2: int, now2: int, tok2: string)
    ensures var first := Issue(keys, ip, m1, now1, tok1);
            Issue(first.keys, ip, m2, now2, tok2) == first
  {
    var first := Issue(keys, ip, m1, now1, tok1);
    if FindReusable(keys, ip).None? {
      var ks := first.keys;
      assert ks == keys + [first.key];
      forall j | 0 <= j < |keys| ensures !Reusable(ks[j], ip) {
        assert ks[j] == keys[j];
      }
      assert Reusable(ks[|keys|], ip);
      assert FindReusable(ks, ip) == Some(|keys|);
    }
  }

  /** The `expired` flag, not the expiry instant, decides reuse: a key whose
      time is up is still handed back to its owner. */
  lemma IssueReusesLapsedKey(k: Key, now: int, maxUsers: int, token: string)
    requires !k.expired && k.expiresAt <= now
    ensures Issue([k], k.ip, maxUsers, now, token) == Issued(k, [k])
  {
    assert Reusable([k][0], k.ip);
  }

  /** `createCustomKey(token, hours, maxUsers)`: always appends an
      administrator key, even when one with the same token exists. */
  function IssueCustom(keys: seq<Key>, token: string, hours: int, maxUsers: int, now: int): (r: Issued)
    ensures r.keys == keys + [r.key]
    ensures r.key.key == token && r.key.ip == AdminIdentity && r.key.maxUsers == maxUsers
    ensures r.key.createdAt == now && r.key.expiresAt == now + hours * MsPerHour
    ensures !r.key.expired && !r.key.inUse && r.key.usedBy == []
    ensures AllKeysValid(keys) ==> AllKeysValid(r.keys)
  {
    var k := Key(token, AdminIdentity, maxUsers, now, now + hours * MsPerHour, false, false, []);
    Issued(k, keys + [k])
  }

  /** Custom keys are owned by `admin`, so `createKey` for `admin` (the
      `/admin/create-key` route) hands back an existing key once any custom
      key exists, and issues nothing. */
  lemma AdminCreateReusesCustomKey(keys: seq<Key>, token: string, hours: int, maxUsers: int, now: int,
                                   m2: int, now2: int, tok2: string)
    ensures var ks := IssueCustom(keys, token, hours, maxUsers, now).keys;
            Issue(ks, AdminIdentity, m2, now2, tok2).keys == ks
  {
    var ks := IssueCustom(keys, token, hours, maxUsers, now).keys;
    assert Reusable(ks[|keys|], AdminIdentity);
  }

  /** `removeExpiredKeys`: keeps the keys whose expiry lies after `now`. */
  function RemoveExpired(keys: seq<Key>, now: int): (r: seq<Key>)
    ensures forall i :: 0 <= i < |r| ==> r[i].expiresAt > now
    ensures forall k :: multiset(r)[k] == if k.expiresAt > now then multiset(keys)[k] else 0
    ensures AllKeysValid(keys) ==> AllKeysValid(r)
  {
    FilterCounts(keys, (k: Key) => k.expiresAt > now);
    Filter(keys, (k: Key) => k.expiresAt > now)
  }

  /** The sweep keeps the survivors in their original order. */
  lemma RemoveExpiredKeepsOrder(a: seq<Key>, b: seq<Key>, now: int)
    ensures RemoveExpired(a + b, now) == RemoveExpired(a, now) + RemoveExpired(b, now)
  {
    FilterAppend(a, b, (k: Key) => k.expiresAt > now);
  }

  /** A second sweep at the same instant removes nothing more. */
  lemma RemoveExpiredIdempotent(keys: seq<Key>, now: int)
    ensures RemoveExpired(RemoveExpired(keys, now), now) == RemoveExpired(keys, now)
  {
    FilterIdempotent(keys, (k: Key) => k.expiresAt > now);
  }

  /** The filter of `/admin/delete-key`: drops every key whose token is `token`. */
  function DeleteKey(keys: seq<Key>, token: string): (r: seq<Key>)
    ensures forall i :: 0 <= i < |r| ==> r[i].key != token
    ensures forall k :: multiset(r)[k] == if k.key != token then multiset(keys)[k] else 0
    ensures AllKeysValid(keys) ==> AllKeysValid(r)
  {
    FilterCounts(keys, (k: Key) => k.key != token);
    Filter(keys, (k: Key) => k.key != token)
  }

  /** The deletion keeps the remaining keys in their original order. */
  lemma DeleteKeyKeepsOrder(a: seq<Key>, b: seq<Key>, token: string)
    ensures DeleteKey(a + b, token) == DeleteKey(a, token) + DeleteKey(b, token)
  {
    FilterAppend(a, b, (k: Key) => k.key != token);
  }

  /** Deleting a token nobody holds changes nothing. */
  lemma DeleteUnknownKeyIsNoop(keys: seq<Key>, token: string)
    requires forall i :: 0 <= i < |keys| ==> keys[i].key != token
    ensures DeleteKey(keys, token) == keys
  {
    FilterKeepsAll(keys, (k: Key) => k.key != token);
  }

  /** Deleting the token of a custom key just created, when it was new, restores the list. */
  lemma DeleteUndoesCustomIssue(keys: seq<Key>, token: string, hours: int, maxUsers: int, now: int)
    requires forall i :: 0 <= i < |keys| ==> keys[i].key != token
    ensures DeleteKey(IssueCustom(keys, token, hours, maxUsers, now).keys, token) == keys
  {
    var r := IssueCustom(keys, token, hours, maxUsers, now);
    var p := (k: Key) => k.key != token;
    FilterAppend(keys, [r.key], p);
    FilterKeepsAll(keys, p);
    FilterDropsAll([r.key], p);
  }

  /** The keys an add-time request addresses. */
  datatype Target = OneKey(token: string) | EveryKey

  /** Whether `/admin/add-time` (OneKey) or `/admin/add-time-all` (EveryKey) extends `k`. */
  predicate Selected(k: Key, target: Target)
  {
    !k.expired && (target.OneKey? ==> k.key == target.token)
  }

  /** The key list after adding `delta` milliseconds to every selected key. */
  function AddTimeTo(keys: seq<Key>, target: Target, delta: int): (r: seq<Key>)
    ensures |r| == |keys|
    ensures forall i :: 0 <= i < |keys| ==>
              r[i] == if Selected(keys[i], target) then keys[i].(expiresAt := keys[i].expiresAt + delta) else keys[i]
  {
    if keys == [] then []
    else
      var k := keys[0];
      [if Selected(k, target) then k.(expiresAt := k.expiresAt + delta) else k] + AddTimeTo(keys[1..], target, delta)
  }

  /** Extending keeps every stored key well formed. */
  lemma AddTimePreservesInvariant(keys: seq<Key>, target: Target, delta: int)
    requires AllKeysValid(keys)
    ensures AllKeysValid(AddTimeTo(keys, target, delta))
  {
  }

  /** As the flag is never raised, `/admin/add-time-all` moves every key's
      expiry by exactly `delta`, lapsed or not, and changes no other field. */
  lemma AddTimeAllMovesEveryKey(keys: seq<Key>, delta: int)
    requires AllKeysValid(keys)
    ensures forall i :: 0 <= i < |keys| ==>
              && AddTimeTo(keys, EveryKey, delta)[i].expiresAt == keys[i].expiresAt + delta
              && AddTimeTo(keys, EveryKey, delta)[i].(expiresAt := keys[i].expiresAt) == keys[i]
  {
  }

  /** An add-time request for a token nobody holds changes nothing. */
  lemma AddTimeUnknownKeyIsNoop(keys: seq<Key>, token: string, delta: int)
    requires forall i :: 0 <= i < |keys| ==> keys[i].key != token
    ensures AddTimeTo(keys, OneKey(token), delta) == keys
  {
  }
}
