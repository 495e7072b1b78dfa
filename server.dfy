/** The server's state: the three stores that app.js reloads and rewrites
    on every request (keys.json, blacklist.json, notifications.json), held
    as list fields, and one method per handler. Each handler runs to
    completion before the next starts, so each is one atomic method. */
module Server {
  import opened Collections
  import opened Records
  import Keys
  import opened Blacklist
  import opened Access

  class KeyServer {
    var keys: seq<Key>
    var blacklist: seq<Ban>
    var notifications: seq<Notification>

    /** Every stored key keeps the key invariant. */
    ghost predicate Valid()
      reads this
    {
      AllKeysValid(keys)
    }

    /** The three stores as first created: empty lists. */
    constructor ()
      ensures keys == [] && blacklist == [] && notifications == []
      ensures Valid()
    {
      keys, blacklist, notifications := [], [], [];
    }

    /** `createKey(ip, maxUsers)`: hands back the first reusable key of `ip`,
        or pushes a new 24-hour key carrying `token`. For a visitor, `ip` is
        `Strings.ClientIp` of the request's forwarded header and connection address. */
    method CreateKey(ip: string, maxUsers: int, now: int, token: string) returns (k: Key)
      modifies this
      ensures Keys.Issued(k, keys) == Keys.Issue(old(keys), ip, maxUsers, now, token)
      ensures blacklist == old(blacklist) && notifications == old(notifications)
      ensures old(Valid()) ==> Valid()
    {
      var found := Keys.FindReusable(keys, ip);
      if found.Some? {
        k := keys[found.value];
      } else {
        k := Key(token, ip, maxUsers, now, now + KeyLifetimeMs, false, false, []);
        keys := keys + [k];
      }
    }

    /** `createCustomKey(token, hours, maxUsers)`: pushes an administrator key
        unconditionally. `maxUsers` is None when the form leaves the field out,
        and the cap is then `CustomDefaultMaxUsers`. */
    method CreateCustomKey(token: string, hours: int, maxUsers: Option<int>, now: int) returns (k: Key)
      modifies this
      ensures maxUsers.Some? ==> Keys.Issued(k, keys) == Keys.IssueCustom(old(keys), token, hours, maxUsers.value, now)
      ensures maxUsers.None? ==> Keys.Issued(k, keys) == Keys.IssueCustom(old(keys), token, hours, CustomDefaultMaxUsers, now)
      ensures blacklist == old(blacklist) && notifications == old(notifications)
      ensures old(Valid()) ==> Valid()
    {
      var cap := if maxUsers.Some? then maxUsers.value else CustomDefaultMaxUsers;
      k := Key(token, AdminIdentity, cap, now, now + hours * MsPerHour, false, false, []);
      keys := keys + [k];
    }

    /** `/verify-key`: decides, and records the player on the found key in place.
        `ip` is `Strings.ClientIp` of the request's forwarded header and connection address. */
    method VerifyKey(token: string, player: string, ip: string, now: int) returns (v: Verdict)
      modifies this
      ensures Outcome(v, keys) == Verify(old(keys), blacklist, token, player, ip, now)
      ensures blacklist == old(blacklist) && notifications == old(notifications)
      ensures old(Valid()) ==> Valid()
    {
      var check := IsBlacklisted(blacklist, ip, player, now);
      if check.Banned? {
        return Refused(Blacklisted(check.scope, check.expiry));
      }
      var found := FindLive(keys, token, now);
      if found.None? {
        return Refused(InvalidOrExpired);
      }
      var i := found.value;
      var k := keys[i];
      if |k.usedBy| >= k.maxUsers {
        return Refused(UserLimitReached);
      }
      if player !in k.usedBy {
        keys := keys[i := k.(usedBy := k.usedBy + [player], inUse := true)];
      } else {
        assert keys[i := Admit(k, player)] == keys;
      }
      v := Accepted;
    }

    /** `/admin/add-blacklist`: pushes one entry, duplicates allowed. */
    method AddBlacklist(kind: string, value: string, duration: string, hours: int, now: int)
      modifies this
      ensures blacklist == old(blacklist) + [Ban(kind, value, ExpiryFor(duration, hours, now))]
      ensures keys == old(keys) && notifications == old(notifications)
    {
      blacklist := blacklist + [Ban(kind, value, ExpiryFor(duration, hours, now))];
    }

    /** `/admin/remove-blacklist`. */
    method RemoveBlacklist(value: string)
      modifies this
      ensures blacklist == RemoveBan(old(blacklist), value)
      ensures keys == old(keys) && notifications == old(notifications)
    {
      blacklist := RemoveBan(blacklist, value);
    }

    /** `/admin/modify-blacklist-time`: re-times the found entry in place. */
    method ModifyBlacklistTime(value: string, hours: int, now: int)
      modifies this
      ensures blacklist == Retime(old(blacklist), value, hours, now)
      ensures keys == old(keys) && notifications == old(notifications)
    {
      var found := First(blacklist, (b: Ban) => b.value == value);
      if found.Some? {
        var i := found.value;
        var entry := blacklist[i];
        if !entry.expiry.Permanent? {
          blacklist := blacklist[i := entry.(expiry := Until(Max(now, entry.expiry.at) + hours * MsPerHour))];
        }
      }
    }

    /** `/admin/delete-key`. */
    method DeleteKey(token: string)
      modifies this
      ensures keys == Keys.DeleteKey(old(keys), token)
      ensures blacklist == old(blacklist) && notifications == old(notifications)
      ensures old(Valid()) ==> Valid()
    {
      keys := Keys.DeleteKey(keys, token);
    }

    /** `removeExpiredKeys` (also `/admin/delete-expired-keys`). */
    method DeleteExpiredKeys(now: int)
      modifies this
      ensures keys == Keys.RemoveExpired(old(keys), now)
      ensures blacklist == old(blacklist) && notifications == old(notifications)
      ensures old(Valid()) ==> Valid()
    {
      keys := Keys.RemoveExpired(keys, now);
    }

    /** `removeAllKeys` (also `/admin/delete-all-keys`). */
    method DeleteAllKeys()
      modifies this
      ensures keys == []
      ensures blacklist == old(blacklist) && notifications == old(notifications)
      ensures Valid()
    {
      keys := [];
    }

    /** The `map` over the key list that both add-time handlers run: adds
        `delta` to the expiry of each selected key, in place. */
    method ExtendKeys(target: Keys.Target, delta: int)
      modifies this
      ensures keys == Keys.AddTimeTo(old(keys), target, delta)
      ensures blacklist == old(blacklist) && notifications == old(notifications)
      ensures old(Valid()) ==> Valid()
    {
      ghost var want := Keys.AddTimeTo(keys, target, delta);
      var i := 0;
      while i < |keys|
        invariant 0 <= i <= |keys| == |old(keys)| == |want|
        invariant forall j :: 0 <= j < i ==> keys[j] == want[j]
        invariant forall j :: i <= j < |keys| ==> keys[j] == old(keys)[j]
        invariant blacklist == old(blacklist) && notifications == old(notifications)
      {
        var k := keys[i];
        if Keys.Selected(k, target) {
          keys := keys[i := k.(expiresAt := k.expiresAt + delta)];
        }
        i := i + 1;
      }
      if old(Valid()) {
        Keys.AddTimePreservesInvariant(old(keys), target, delta);
      }
    }

    /** `/admin/add-time`. */
    method AddTime(token: string, hours: int)
      modifies this
      ensures keys == Keys.AddTimeTo(old(keys), Keys.OneKey(token), hours * MsPerHour)
      ensures blacklist == old(blacklist) && notifications == old(notifications)
      ensures old(Valid()) ==> Valid()
    {
      ExtendKeys(Keys.OneKey(token), hours * MsPerHour);
    }

    /** `/admin/add-time-all`. */
    method AddTimeAll(hours: int)
      modifies this
      ensures keys == Keys.AddTimeTo(old(keys), Keys.EveryKey, hours * MsPerHour)
      ensures blacklist == old(blacklist) && notifications == old(notifications)
      ensures old(Valid()) ==> Valid()
    {
      ExtendKeys(Keys.EveryKey, hours * MsPerHour);
    }

    /** `/admin/send-notification`. */
    method SendNotification(message: string)
      modifies this
      ensures notifications == old(notifications) + [Notification(message, Notice)]
      ensures keys == old(keys) && blacklist == old(blacklist)
    {
      notifications := notifications + [Notification(message, Notice)];
    }

    /** `/admin/send-kick`. */
    method SendKick(message: string)
      modifies this
      ensures notifications == old(notifications) + [Notification(message, Kick)]
      ensures keys == old(keys) && blacklist == old(blacklist)
    {
      notifications := notifications + [Notification(message, Kick)];
    }

    /** `/clear-notifications`. */
    method ClearNotifications()
      modifies this
      ensures notifications == []
      ensures keys == old(keys) && blacklist == old(blacklist)
    {
      notifications := [];
    }
  }
}
