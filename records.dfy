/** The records kept in the three JSON stores (keys.json, blacklist.json,
    notifications.json) and the constants the handlers use. Times are
    milliseconds since the epoch, as `Date.now()` returns them. */
module Records {
  import opened Collections

  const MsPerHour: int := 60 * 60 * 1000
  /** Lifetime of a key issued to a client address: 24 hours. */
  const KeyLifetimeMs: int := 24 * MsPerHour
  /** Default `maxUsers` of `createKey`. */
  const DefaultMaxUsers: int := 2
  /** Default `maxUsers` of `createCustomKey`. */
  const CustomDefaultMaxUsers: int := 1
  /** The owner recorded for keys the administrator creates. */
  const AdminIdentity: string := "admin"

  /** One access key. `key` is the token clients present, `ip` the owner,
      `usedBy` the player names admitted under it. */
  datatype Key = Key(
    key: string,
    ip: string,
    maxUsers: int,
    createdAt: int,
    expiresAt: int,
    expired: bool,
    inUse: bool,
    usedBy: seq<string>)

  /** The expiry of a ban: the string 'permanent' or an instant. */
  datatype Expiry = Permanent | Until(at: int)

  /** One blacklist entry; `kind` is the submitted type, 'ip' or 'player'. */
  datatype Ban = Ban(kind: string, value: string, expiry: Expiry)

  datatype NoticeKind = Notice | Kick

  /** One message of the notification mailbox; `Notice` is stored as type
      'notification', `Kick` as 'kick'. */
  datatype Notification = Notification(message: string, kind: NoticeKind)

  /** What every stored key satisfies when the store was built by the
      handlers alone: the `expired` flag is never raised, no player is
      recorded twice, the seats taken never exceed `maxUsers`, and `inUse`
      says whether any seat is taken. */
  predicate KeyInvariant(k: Key)
  {
    && !k.expired
    && NoDuplicates(k.usedBy)
    && (k.usedBy == [] || |k.usedBy| <= k.maxUsers)
    && k.inUse == (k.usedBy != [])
  }

  predicate AllKeysValid(keys: seq<Key>)
  {
    forall i :: 0 <= i < |keys| ==> KeyInvariant(keys[i])
  }
}
