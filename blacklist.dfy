/** The blacklist: the decision of `isBlacklisted` (app.js:91-108) and the
    list produced by `/admin/add-blacklist`, `/admin/remove-blacklist` and
    `/admin/modify-blacklist-time` (app.js:625-670). */
module Blacklist {
  import opened Collections
  import opened Strings
  import opened Records

  /** A ban is in force while it is permanent or its instant lies after `now`. */
  predicate Active(e: Expiry, now: int)
  {
    e.Permanent? || e.at > now
  }

  /** An entry that bans the client address `ip` (exact comparison). */
  predicate IpHit(b: Ban, ip: string, now: int)
  {
    b.kind == "ip" && b.value == ip && Active(b.expiry, now)
  }

  /** An entry that bans the player name `player` (comparison ignoring letter case). */
  predicate PlayerHit(b: Ban, player: string, now: int)
  {
    b.kind == "player" && ToLower(b.value) == ToLower(player) && Active(b.expiry, now)
  }

  datatype Scope = IpScope | PlayerScope

  /** The outcome of the check; a ban carries the expiry the message reports. */
  datatype Check = Clear | Banned(scope: Scope, expiry: Expiry)

  /** `isBlacklisted(ip, playerName)` at time `now`: the first active IP
      entry wins; only when there is none is the first active player entry
      looked for. */
  function IsBlacklisted(bl: seq<Ban>, ip: string, player: string, now: int): (c: Check)
    ensures c.Banned? <==>
              (exists i :: 0 <= i < |bl| && IpHit(bl[i], ip, now)) ||
              (exists i :: 0 <= i < |bl| && PlayerHit(bl[i], player, now))
    ensures (exists i :: 0 <= i < |bl| && IpHit(bl[i], ip, now)) <==> c.Banned? && c.scope == IpScope
    ensures c.Banned? && c.scope == IpScope ==>
              exists i :: 0 <= i < |bl| && IpHit(bl[i], ip, now) && c.expiry == bl[i].expiry &&
                          forall j :: 0 <= j < i ==> !IpHit(bl[j], ip, now)
    ensures c.Banned? && c.scope == PlayerScope ==>
              exists i :: 0 <= i < |bl| && PlayerHit(bl[i], player, now) && c.expiry == bl[i].expiry &&
                          forall j :: 0 <= j < i ==> !PlayerHit(bl[j], player, now)
    ensures c.Banned? ==> Active(c.expiry, now)
  {
    match First(bl, (b: Ban) => IpHit(b, ip, now))
    case Some(i) => Banned(IpScope, bl[i].expiry)
    case None =>
      match First(bl, (b: Ban) => PlayerHit(b, player, now))
      case Some(i) => Banned(PlayerScope, bl[i].expiry)
      case None => Clear
  }

  /** A ban whose instant has passed never matches, so a list of lapsed bans bans nobody. */
  lemma LapsedBansNeverMatch(bl: seq<Ban>, ip: string, player: string, now: int)
    requires forall i :: 0 <= i < |bl| ==> bl[i].expiry.Until? && bl[i].expiry.at <= now
    ensures IsBlacklisted(bl, ip, player, now) == Clear
  {
  }

  /** A lone active player entry that matches decides the check with its own expiry. */
  lemma PlayerHitOnly(b: Ban, ip: string, player: string, now: int)
    requires PlayerHit(b, player, now)
    ensures IsBlacklisted([b], ip, player, now) == Banned(PlayerScope, b.expiry)
  {
    assert !IpHit([b][0], ip, now);
    assert First([b], (x: Ban) => PlayerHit(x, player, now)) == Some(0);
  }

  /** Banning player "Foo" bans "foo" and "FOO" as well. */
  lemma PlayerBanIgnoresCase(ip: string, now: int)
    ensures IsBlacklisted([Ban("player", "Foo", Permanent)], ip, "foo", now) == Banned(PlayerScope, Permanent)
    ensures IsBlacklisted([Ban("player", "Foo", Permanent)], ip, "FOO", now) == Banned(PlayerScope, Permanent)
  {
    var b := Ban("player", "Foo", Permanent);
    assert "player" != "ip";
    ToLowerFoldsCase();
    PlayerHitOnly(b, ip, "foo", now);
    PlayerHitOnly(b, ip, "FOO", now);
  }

  /** A permanent IP ban, once added, bans that address for every player at every time. */
  lemma PermanentIpBanBlocks(bl: seq<Ban>, ip: string, player: string, now: int)
    ensures var c := IsBlacklisted(bl + [Ban("ip", ip, Permanent)], ip, player, now);
            c.Banned? && c.scope == IpScope
  {
    var bl' := bl + [Ban("ip", ip, Permanent)];
    assert IpHit(bl'[|bl|], ip, now);
  }

  /** The expiry `/admin/add-blacklist` records: `duration` is the submitted
      text, `hours` its integer reading. */
  function ExpiryFor(duration: string, hours: int, now: int): (e: Expiry)
    ensures e.Permanent? <==> ToLower(duration) == "permanent"
    ensures e.Until? ==> e.at == now + hours * MsPerHour
  {
    if ToLower(duration) == "permanent" then Permanent else Until(now + hours * MsPerHour)
  }

  /** "permanent" is recognised in any letter case. */
  lemma PermanentInAnyCase(hours: int, now: int)
    ensures ExpiryFor("Permanent", hours, now) == Permanent
    ensures ExpiryFor("PERMANENT", hours, now) == Permanent
  {
    ToLowerFoldsCase();
  }

  /** The filter of `/admin/remove-blacklist`: drops every entry whose value
      is exactly `value`, of either kind. */
  function RemoveBan(bl: seq<Ban>, value: string): (r: seq<Ban>)
    ensures forall i :: 0 <= i < |r| ==> r[i].value != value
    ensures forall b :: multiset(r)[b] == if b.value != value then multiset(bl)[b] else 0
  {
    FilterCounts(bl, (b: Ban) => b.value != value);
    Filter(bl, (b: Ban) => b.value != value)
  }

  /** The removal keeps the remaining entries in their original order, so
      later first-match lookups see them as before. */
  lemma RemoveBanKeepsOrder(a: seq<Ban>, b: seq<Ban>, value: string)
    ensures RemoveBan(a + b, value) == RemoveBan(a, value) + RemoveBan(b, value)
  {
    FilterAppend(a, b, (x: Ban) => x.value != value);
  }

  /** Removing a value right after adding an entry for it removes the added
      entry and whatever was already there for that value, and nothing else. */
  lemma RemoveAfterAdd(bl: seq<Ban>, b: Ban)
    ensures RemoveBan(bl + [b], b.value) == RemoveBan(bl, b.value)
  {
    var p := (x: Ban) => x.value != b.value;
    FilterAppend(bl, [b], p);
    FilterDropsAll([b], p);
  }

  /** After removing an address no IP ban for it remains. */
  lemma RemoveLiftsIpBan(bl: seq<Ban>, ip: string, player: string, now: int)
    ensures IsBlacklisted(RemoveBan(bl, ip), ip, player, now).Banned? ==>
              IsBlacklisted(RemoveBan(bl, ip), ip, player, now).scope == PlayerScope
  {
  }

  /** Removal compares exactly while matching ignores case: removing "foo"
      leaves a ban on "Foo" in force against player "foo". */
  lemma RemoveIsCaseSensitive(ip: string, now: int)
    ensures IsBlacklisted(RemoveBan([Ban("player", "Foo", Permanent)], "foo"), ip, "foo", now)
            == Banned(PlayerScope, Permanent)
  {
    var b := Ban("player", "Foo", Permanent);
    FilterKeepsAll([b], (x: Ban) => x.value != "foo");
    PlayerBanIgnoresCase(ip, now);
  }

  function Max(a: int, b: int): int
  {
    if a < b then b else a
  }

  /** `/admin/modify-blacklist-time`: the first entry whose value is `value`,
      if it is timed, gets `hours` added to the later of now and its expiry. */
  function Retime(bl: seq<Ban>, value: string, hours: int, now: int): (r: seq<Ban>)
    ensures |r| == |bl|
    ensures forall j :: 0 <= j < |bl| ==> r[j].kind == bl[j].kind && r[j].value == bl[j].value
    ensures forall j :: 0 <= j < |bl| && bl[j].expiry.Permanent? ==> r[j] == bl[j]
    ensures forall j :: 0 <= j < |bl| && r[j] != bl[j] ==>
              bl[j].value == value && forall k :: 0 <= k < j ==> bl[k].value != value
    ensures forall j :: 0 <= j < |bl| && bl[j].value == value && bl[j].expiry.Until? &&
                        (forall k :: 0 <= k < j ==> bl[k].value != value) ==>
              r[j].expiry == Until(Max(now, bl[j].expiry.at) + hours * MsPerHour)
  {
    match First(bl, (b: Ban) => b.value == value)
    case None => bl
    case Some(i) =>
      if bl[i].expiry.Permanent? then bl
      else bl[i := bl[i].(expiry := Until(Max(now, bl[i].expiry.at) + hours * MsPerHour))]
  }

  /** When the first entry for a value is permanent, re-timing changes nothing. */
  lemma RetimePermanentIsNoop(bl: seq<Ban>, value: string, hours: int, now: int, i: nat)
    requires i < |bl| && bl[i].value == value && bl[i].expiry.Permanent?
    requires forall k :: 0 <= k < i ==> bl[k].value != value
    ensures Retime(bl, value, hours, now) == bl
  {
  }

  /** Adding a positive number of hours to a timed ban leaves it in force. */
  lemma RetimeExtendsIntoFuture(bl: seq<Ban>, value: string, hours: int, now: int, i: nat)
    requires i < |bl| && bl[i].value == value && bl[i].expiry.Until?
    requires forall k :: 0 <= k < i ==> bl[k].value != value
    requires hours > 0
    ensures Active(Retime(bl, value, hours, now)[i].expiry, now)
  {
  }
}
