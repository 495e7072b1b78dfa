# Key and blacklist lifecycle of the Basement key server

This project is a Dafny model of the key-issuing web server in `app.js`. The server hands out time-limited access keys. There are three ways a key comes into being:

- a client gets one tied to its IP address;
- an administrator creates one with a chosen token;
- a direct POST to `/admin/create-key` (no form of the admin page posts there) calls `createKey('admin')`. That hands back the first key owned by `admin`, custom keys included, and issues a new one only when there is none.

A game client validates a key together with a player name. Each key admits at most `maxUsers` distinct players. A blacklist of IP addresses and player names overrides any key. Administrators can do the following:

- delete keys;
- extend keys;
- add, remove and re-time bans;
- post messages to a notification mailbox that clients poll.

Every handler of the server loads a whole JSON list, applies one deterministic rule and writes the list back. The model therefore keeps three lists, as fields of the class `Server.KeyServer`: keys, blacklist and notifications. It gives one method per handler. Each rule is stated as a function of the list before the request, and the properties are proved about those functions. The methods are proved to produce exactly what those functions give.

Modules, one per concern of `app.js`:

- `Collections`: `First`, the search `Array.prototype.find` performs, and `Filter`, which keeps the matching elements in order. Also `NoDuplicates`.
- `Strings`: ASCII lower-casing and the client-address normalisation `getClientIp`.
- `Records`: the stored records (`Key`, `Ban`, `Notification`), the constants (one hour is 3 600 000 ms, a key lives 24 hours, the default caps are 2 and 1, the owner of an administrator key is `admin`), and the invariant every stored key keeps.
- `Keys`: `createKey`, `createCustomKey`, `removeExpiredKeys`, the delete-key filter, and the add-time rules.
- `Blacklist`: `isBlacklisted` and the three blacklist handlers.
- `Access`: the `/verify-key` decision.
- `Server`: the class `KeyServer` with one method per handler.

Time, the freshly generated token and the request fields are parameters: `now`, `token`, `ip`, `player` and `hours`.

Some behaviour of the code differs from what a reader might expect. The model follows the code:

- **The `expired` flag is never set.** It is only ever written as `false` (app.js:56, app.js:79). This has two consequences:
  - `createKey` hands back a key to its address even after the key's expiry has passed (`Keys.IssueReusesLapsedKey`).
  - `/admin/add-time-all` extends every key, lapsed ones included (`Keys.AddTimeAllMovesEveryKey`).
- **Validation checks the seat count before membership** (app.js:341 comes before app.js:345). A player already recorded on a key is refused once the key is full. In the two-seat scenario, A and B get in and C is refused. After that, A is refused too (`Access.TwoSeatScenario`, `Access.FullKeyTurnsAwayAdmittedPlayer`). While a seat is free, a recorded player is let in again without any write (`Access.RecordedPlayerRevalidates`).
- **Bans are not de-duplicated.** `/admin/add-blacklist` always appends an entry.
- **Removal and matching compare differently.** Removal compares values exactly, but player bans match regardless of letter case. So removing `foo` leaves a ban on `Foo` in force (`Blacklist.RemoveIsCaseSensitive`).
- **Re-timing touches only the first entry with the given value**, of either type. If that entry is permanent, nothing changes.

## Model

| member | source | states |
|---|---|---|
| `Collections.First` | app.js:44 | the index returned holds the first element passing the test; None exactly when no element passes |
| `Collections.Filter` | app.js:133 | the result is never longer than the input, and every element kept passes the test and comes from the input |
| `Collections.FilterCounts` | app.js:133 | each value that passes occurs in the result as often as in the input; every other value does not occur at all |
| `Collections.FilterAppend` | app.js:133 | filtering a concatenation is the concatenation of the filtered parts, so kept elements stay in their original order |
| `Collections.AppendFreshKeepsNoDuplicates` | app.js:345-346 | pushing a name that is not yet recorded keeps the list free of duplicates |
| `Strings.LowerChar` | app.js:102 | the result is never an upper-case letter; upper-case letters move up by 32, to the matching lower-case letter; every other character is kept |
| `Strings.ToLower` | app.js:102 | same length, each character lower-cased, no upper-case letter left |
| `Strings.ToLowerIdempotent` | app.js:102 | lower-casing twice equals lower-casing once |
| `Strings.ToLowerFoldsCase` | app.js:102 | "Foo", "foo" and "FOO" fold to "foo"; "Permanent" and "PERMANENT" fold to "permanent" |
| `Strings.BeforeComma` | app.js:122 | the result is a prefix without a comma, followed in the input by a comma or by its end |
| `Strings.BeforeCommaOfJoin` | app.js:122 | for a field `a` without commas, the text before the first comma of `a,b` is exactly `a` |
| `Strings.StripMapped` | app.js:123-125 | a `::ffff:` prefix is removed exactly once; any other string is returned unchanged |
| `Strings.StripMappedOnce` | app.js:123-125 | stripping `::ffff:` + x gives x, even when x itself starts with `::ffff:` |
| `Strings.ClientIp` | app.js:120-127 | with a non-empty forwarded header, the result is its first comma-separated field; otherwise it is the connection address; in both cases a leading `::ffff:` is removed once |
| `Strings.ClientIpUsesFirstForwarded` | app.js:121-122 | with header `a,b` the address is `a`, stripped, whatever follows the comma |
| `Strings.ClientIpDirectMapped` | app.js:122-125 | with no header, or an empty one, a mapped connection address loses its prefix |
| `Keys.FindReusable` | app.js:44 | finds the first key of that address whose `expired` flag is false; None exactly when there is none |
| `Keys.Issue` | app.js:42-65 | if a reusable key exists, the first one is returned and the list is unchanged; otherwise exactly one key is appended with the token, cap, `createdAt = now`, `expiresAt = now + 24h`, not in use, no players; the key invariant is preserved |
| `Keys.IssueIdempotent` | app.js:42-48 | issuing twice for one address returns the same key and adds nothing the second time |
| `Keys.IssueReusesLapsedKey` | app.js:44-47 | a key whose expiry has passed but whose flag is false is handed back, and no new key is issued |
| `Keys.IssueCustom` | app.js:68-88 | always appends one key with owner `admin`, the given token and cap, and `expiresAt = now + hours*3600000`; never de-duplicates |
| `Keys.AdminCreateReusesCustomKey` | app.js:694-698 | once a custom key (owner `admin`, app.js:75) exists, `createKey` for `admin` leaves the key list unchanged |
| `Keys.RemoveExpired` | app.js:130-135 | keeps exactly the keys with `expiresAt > now`, with their multiplicities; the key invariant is preserved |
| `Keys.RemoveExpiredKeepsOrder` | app.js:133 | the sweep distributes over concatenation, so survivors keep their order |
| `Keys.RemoveExpiredIdempotent` | app.js:130-135 | a second sweep at the same instant removes nothing |
| `Keys.DeleteKey` | app.js:673-679 | drops exactly the keys carrying that token and keeps all others |
| `Keys.DeleteKeyKeepsOrder` | app.js:676 | the deletion distributes over concatenation, so the remaining keys keep their order |
| `Keys.DeleteUnknownKeyIsNoop` | app.js:676 | deleting a token nobody holds leaves the list unchanged |
| `Keys.DeleteUndoesCustomIssue` | app.js:673-679 | deleting the token of a just-created custom key, when the token was new, restores the previous list |
| `Keys.AddTimeTo` | app.js:740-765 | same length and order; each selected key gets `delta` added to `expiresAt`; every other key and every other field is unchanged |
| `Keys.AddTimePreservesInvariant` | app.js:743-748 | extending keys keeps every stored key well formed |
| `Keys.AddTimeAllMovesEveryKey` | app.js:740-751 | in a store built by the handlers, add-time-all moves every key's expiry by exactly `delta` and changes no other field |
| `Keys.AddTimeUnknownKeyIsNoop` | app.js:754-765 | adding time to an unknown token changes nothing |
| `Blacklist.IsBlacklisted` | app.js:91-108 | a ban is reported if and only if some active entry matches; an IP match takes precedence over a player match; the reported expiry is that of the first match of its kind; only bans in force are reported |
| `Blacklist.LapsedBansNeverMatch` | app.js:96-102 | if every entry is timed and its time has passed, nobody is banned |
| `Blacklist.PlayerHitOnly` | app.js:102-104 | a single matching active player entry is reported with its own expiry |
| `Blacklist.PlayerBanIgnoresCase` | app.js:102 | a ban on player "Foo" also bans "foo" and "FOO" |
| `Blacklist.PermanentIpBanBlocks` | app.js:96-98 | after a permanent IP ban is appended, that address is reported as IP-banned for every player at every time |
| `Blacklist.ExpiryFor` | app.js:630-634 | the expiry is permanent exactly when the duration lower-cases to "permanent"; otherwise it is `now + hours*3600000` |
| `Blacklist.PermanentInAnyCase` | app.js:630 | "Permanent" and "PERMANENT" both give a permanent ban |
| `Blacklist.RemoveBan` | app.js:647-653 | drops exactly the entries whose value equals the given one, of either type, and keeps all others |
| `Blacklist.RemoveBanKeepsOrder` | app.js:650 | the removal distributes over concatenation, so the remaining entries keep their order |
| `Blacklist.RemoveAfterAdd` | app.js:636-650 | removing a value right after appending an entry for it gives the same list as removing it before the append |
| `Blacklist.RemoveLiftsIpBan` | app.js:650 | after an address is removed, it can no longer be IP-banned |
| `Blacklist.RemoveIsCaseSensitive` | app.js:650 | removing "foo" leaves a ban on "Foo" in force against player "foo" |
| `Blacklist.Retime` | app.js:656-670 | the length, types and values stay the same; permanent entries are never changed; only the first entry with the value can change; if that entry is timed, its expiry becomes `max(now, expiry) + hours*3600000` |
| `Blacklist.RetimePermanentIsNoop` | app.js:661-665 | if the first entry for the value is permanent, the blacklist is unchanged |
| `Blacklist.RetimeExtendsIntoFuture` | app.js:664 | re-timing a timed ban by a positive number of hours leaves it in force |
| `Access.FindLive` | app.js:338 | finds the first key with that token, flag false and `expiresAt > now`; None exactly when there is none |
| `Access.Admit` | app.js:345-349 | the player ends up recorded; a recorded player leaves the key unchanged; a new player is appended and `inUse` is set; no other field changes; the invariant is kept while a seat was free |
| `Access.Verify` | app.js:328-355 | a refusal changes nothing; an active ban refuses before any key lookup, giving the ban's type and expiry; with no live key the answer is invalid-or-expired; when the first live key is full the answer is user-limit-reached; the request is accepted exactly when there is no ban and the first live key has a free seat, and then only that first live key changes, by admitting the player; the key invariant (no duplicates, seats bounded by `maxUsers`) is preserved |
| `Access.FullKeyTurnsAwayAdmittedPlayer` | app.js:341-343 | a full key refuses even a player it already records |
| `Access.RecordedPlayerRevalidates` | app.js:345-351 | while a seat is free, a recorded player is accepted and nothing is written |
| `Access.BlacklistOverridesLiveKey` | app.js:331-335 | an active IP ban refuses the request even with a live key that has free seats |
| `Access.LapsedKeyRejected` | app.js:338 | if every key with that token has lapsed, the request is refused |
| `Access.TwoSeatScenario` | app.js:340-351 | on a two-seat key, A and B are accepted, C is refused, then A is refused too |
| `Server.KeyServer.constructor` | app.js:20-24 | all three stores start as empty lists |
| `Server.KeyServer.CreateKey` | app.js:42-65 | the returned key and the new key list are those of `Keys.Issue`; the other stores are unchanged; the invariant is kept |
| `Server.KeyServer.CreateCustomKey` | app.js:68-88 | the returned key and the new key list are those of `Keys.IssueCustom`, with the cap 1 when the form gives none; the other stores are unchanged |
| `Server.KeyServer.VerifyKey` | app.js:328-355 | the verdict and the new key list are those of `Access.Verify`; the blacklist and mailbox are unchanged; the invariant is kept |
| `Server.KeyServer.AddBlacklist` | app.js:625-644 | the blacklist gains exactly one entry at its end, with the submitted type and value and the expiry from `ExpiryFor`; the other stores are unchanged |
| `Server.KeyServer.RemoveBlacklist` | app.js:647-653 | the blacklist becomes `RemoveBan` of the old one; the other stores are unchanged |
| `Server.KeyServer.ModifyBlacklistTime` | app.js:656-670 | the blacklist becomes `Retime` of the old one; the other stores are unchanged |
| `Server.KeyServer.DeleteKey` | app.js:673-679 | the key list becomes `Keys.DeleteKey` of the old one; the other stores are unchanged |
| `Server.KeyServer.DeleteExpiredKeys` | app.js:682-685 | the key list becomes `RemoveExpired` of the old one at `now`; the other stores are unchanged |
| `Server.KeyServer.DeleteAllKeys` | app.js:138-140 | the key list becomes empty; the other stores are unchanged |
| `Server.KeyServer.ExtendKeys` | app.js:743-748 | the in-place loop over the key list yields `AddTimeTo` of the old list; the other stores are unchanged |
| `Server.KeyServer.AddTime` | app.js:754-765 | the key list becomes `AddTimeTo` with the one token and `hours*3600000` |
| `Server.KeyServer.AddTimeAll` | app.js:740-751 | the key list becomes `AddTimeTo` for every key with `hours*3600000` |
| `Server.KeyServer.SendNotification` | app.js:708-715 | the mailbox gains exactly one message of type notification at its end; the keys and blacklist are unchanged |
| `Server.KeyServer.SendKick` | app.js:718-725 | the mailbox gains exactly one message of type kick at its end; the keys and blacklist are unchanged |
| `Server.KeyServer.ClearNotifications` | app.js:734-737 | the mailbox becomes empty; the keys and blacklist are unchanged |

## Left out

- Reading and writing the JSON files (`loadData`, `saveData`), and creating them at start-up. Each store is a list field, and the empty start is the constructor.
- Express routing, redirects, the shared-secret check `checkAccess`, every HTML page, the client-side countdown scripts, and the time-left arithmetic of `/key-generated`. These are presentation only. `/key-generated` performs the same search as `Keys.FindReusable` and only displays the result.
- `/get-notifications` returns the mailbox as it is and changes nothing. It is not modelled.
- The callers of `createKey`:
  - `/redirect-to-linkvertise` calls `Server.KeyServer.CreateKey` with the client address and `DefaultMaxUsers`.
  - `/admin/create-key` calls it with `AdminIdentity` and `DefaultMaxUsers`.
  - `/admin` runs `DeleteExpiredKeys` before it renders the page.
- `uuidv4` and `generateKey`: the token is a parameter. Uniqueness of tokens is not modelled, and a custom key may repeat an existing token. Validation then uses the first live key with that token.
- `Date.now()`: it becomes the parameter `now`. The code reads the clock separately for `createdAt` and `expiresAt`, and separately in `isBlacklisted` and the key search. The model uses one instant per request.
- `parseInt` of form fields, including NaN:
  - `hours`, `duration` and `maxUsers` are integers.
  - `Server.KeyServer.AddBlacklist` receives both the submitted duration text, to test for "permanent", and its integer reading `hours`.
  - The code stores a form-submitted `maxUsers` as a string that JavaScript coerces when comparing. The model takes the number.
- JavaScript numbers are doubles. Times are modelled as unbounded integers, with no rounding beyond 2^53.
- `toLowerCase` is modelled as ASCII lower-casing. Unicode case mapping is not modelled.
- `moment` formatting of ban messages: the refusal carries the type of ban and its expiry instead of the formatted text.
- A missing `playerName`: the model always has a player name. In the code, `isBlacklisted` throws on `playerName.toLowerCase()` only when no IP ban hits and the blacklist holds at least one player entry. Otherwise `/verify-key` carries on, and an accepted request records `undefined` on the key, where it takes a seat. Neither path is modelled.
- Concurrency: the event loop runs one handler at a time, so each handler is one atomic method.
- The model keeps each store as a list of values. Identity of the mutated JSON objects is not modelled. This is harmless because each request reloads the list from the file.
