/** String handling in the server: the lower-casing that makes player-name
    bans case-insensitive, and the normalisation of the client address
    (`getClientIp`, app.js:120-127). */
module Strings {
  import opened Collections

  predicate IsUpper(c: char)
  {
    'A' <= c <= 'Z'
  }

  /** ASCII lower-casing of one character. */
  function LowerChar(c: char): (d: char)
    ensures !IsUpper(d)
    ensures IsUpper(c) ==> 'a' <= d <= 'z' && d as int - c as int == 32
    ensures !IsUpper(c) ==> d == c
  {
    if IsUpper(c) then (c as int + 32) as char else c
  }

  /** ASCII lower-casing of a string, character by character. */
  function ToLower(s: string): (r: string)
    ensures |r| == |s|
    ensures forall i :: 0 <= i < |s| ==> r[i] == LowerChar(s[i])
    ensures forall i :: 0 <= i < |r| ==> !IsUpper(r[i])
  {
    if s == [] then [] else [LowerChar(s[0])] + ToLower(s[1..])
  }

  /** A string without upper-case letters is its own lower-case form. */
  lemma {:induction false} ToLowerFixesLower(s: string)
    requires forall i :: 0 <= i < |s| ==> !IsUpper(s[i])
    ensures ToLower(s) == s
  {
    if s != [] {
      ToLowerFixesLower(s[1..]);
    }
  }

  /** Lower-casing twice is lower-casing once. */
  lemma ToLowerIdempotent(s: string)
    ensures ToLower(ToLower(s)) == ToLower(s)
  {
    ToLowerFixesLower(ToLower(s));
  }

  /** Names and durations that differ only in letter case fold to one lower-case form. */
  lemma ToLowerFoldsCase()
    ensures ToLower("Foo") == ToLower("foo") == ToLower("FOO") == "foo"
    ensures ToLower("Permanent") == ToLower("PERMANENT") == "permanent"
  {
    ToLowerFixesLower("foo");
    ToLowerFixesLower("permanent");
  }

  /** The text before the first comma (all of `s` when it has none): what
      `split(',').shift()` yields. */
  function BeforeComma(s: string): (r: string)
    ensures r <= s
    ensures ',' !in r
    ensures |r| < |s| ==> s[|r|] == ','
  {
    if s == [] || s[0] == ',' then [] else [s[0]] + BeforeComma(s[1..])
  }

  /** The first field of a comma-separated list is recovered exactly. */
  lemma {:induction false} BeforeCommaOfJoin(a: string, b: string)
    requires ',' !in a
    ensures BeforeComma(a + "," + b) == a
  {
    if a != [] {
      assert (a + "," + b)[1..] == a[1..] + "," + b;
      BeforeCommaOfJoin(a[1..], b);
    }
  }

  /** Prefix that marks an IPv4 address written as an IPv4-mapped IPv6 address. */
  const MappedPrefix: string := "::ffff:"

  /** Removes the 7-character prefix `::ffff:` once, when it is there. */
  function StripMapped(ip: string): (r: string)
    ensures MappedPrefix <= ip ==> ip == MappedPrefix + r
    ensures !(MappedPrefix <= ip) ==> r == ip
  {
    if MappedPrefix <= ip then ip[|MappedPrefix|..] else ip
  }

  /** Stripping undoes exactly one prepended prefix, even when what remains starts with another one. */
  lemma StripMappedOnce(x: string)
    ensures StripMapped(MappedPrefix + x) == x
    ensures StripMapped(MappedPrefix + MappedPrefix + x) == MappedPrefix + x
  {
    assert MappedPrefix <= MappedPrefix + x;
    assert MappedPrefix + MappedPrefix + x == MappedPrefix + (MappedPrefix + x);
    assert MappedPrefix <= MappedPrefix + (MappedPrefix + x);
  }

  /** The client address of a request: `forwarded` is the x-forwarded-for
      header (None when absent; the empty header counts as absent, as it is
      falsy), `direct` is the address of the connection. */
  function ClientIp(forwarded: Option<string>, direct: string): (ip: string)
    ensures forwarded.None? || forwarded.value == "" ==>
              (MappedPrefix <= direct ==> direct == MappedPrefix + ip) &&
              (!(MappedPrefix <= direct) ==> ip == direct)
    ensures forwarded.Some? && forwarded.value != "" ==>
              var first := BeforeComma(forwarded.value);
              ',' !in ip &&
              (MappedPrefix <= first ==> first == MappedPrefix + ip) &&
              (!(MappedPrefix <= first) ==> ip == first)
  {
    var raw := if forwarded.Some? && forwarded.value != "" then BeforeComma(forwarded.value) else direct;
    StripMapped(raw)
  }

  /** A forwarded header decides the address through its first field only. */
  lemma ClientIpUsesFirstForwarded(a: string, b: string, direct: string)
    requires ',' !in a
    ensures ClientIp(Some(a + "," + b), direct) == StripMapped(a)
  {
    BeforeCommaOfJoin(a, b);
  }

  /** Without a forwarded header a mapped IPv4 connection address loses its prefix. */
  lemma ClientIpDirectMapped(v4: string)
    ensures ClientIp(None, MappedPrefix + v4) == v4
    ensures ClientIp(Some(""), MappedPrefix + v4) == v4
  {
    StripMappedOnce(v4);
  }
}
