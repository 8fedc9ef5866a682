/** The `AuthService` coordinator: the local allow-list table, its in-memory
    snapshot, the bootstrap that seeds an empty table, the settings kept in
    the config table, and the operations that change an entry locally and on
    the remote rules list together. */
module Auth {
  import opened Wrappers
  import opened PhpText
  import opened IpMatcher
  import opened LocalStore
  import CF = CloudflareRulesList

  const LoopbackV4 := "127.0.0.1"
  const LoopbackV6 := "::1"
  const LoopbackV4Description := "本地回环地址"
  const LoopbackV6Description := "IPv6本地回环地址"

  /** The `settings` value `initSchema` stores on a fresh database. */
  const DefaultSettingsText := "{\"session_timeout\":86400,\"default_per_page\":10}"

  // ------------------------------------------------------- seeding the table

  /** How a run of write statements ended, with the table and the fault
      script it left behind. */
  datatype Store = Store(status: Status, rows: map<string, Row>, faults: seq<bool>)

  function Rest(faults: seq<bool>): seq<bool> {
    if |faults| > 0 then faults[1..] else []
  }

  /** No write statement of the script fails. */
  predicate NoFaults(faults: seq<bool>) {
    forall i :: 0 <= i < |faults| ==> !faults[i]
  }

  /** `insertAllowedIpRow` once its timestamps are resolved: a string that is
      not a valid entry is skipped without a statement; otherwise one
      `INSERT OR IGNORE`. */
  function InsertRow(parse: Parser, rows: map<string, Row>, faults: seq<bool>, ip: string, row: Row): Store {
    if !ValidateIpFormat(parse, ip) then Store(Done, rows, faults)
    else if |faults| > 0 && faults[0] then Store(Raised(WriteFailure), rows, Rest(faults))
    else Store(Done, WithDefault(rows, ip, row), Rest(faults))
  }

  /** The address of a remote item, `ip ?? value`, when it is a non-empty string. */
  function SeedAddress(item: CF.Json): Option<string> {
    match CF.ItemIp(item)
    case JStr(s) => if s == "" then None else Some(s)
    case _ => None
  }

  /** The comment of a remote item; anything but a string becomes "". */
  function SeedComment(item: CF.Json): string {
    match CF.Field(item, "comment")
    case JStr(s) => s
    case _ => ""
  }

  /** The row a remote item seeds. */
  function SeedRow(item: CF.Json, now: string): Row {
    Row(SeedComment(item), now, now)
  }

  /** The loop of `initializeFromCloudflare` over the listed items: the
      first failing statement ends it. */
  function Seeded(parse: Parser, items: CF.PhpArray, rows: map<string, Row>, faults: seq<bool>, now: string): Store
    decreases |items|
  {
    if items == [] then Store(Done, rows, faults)
    else
      var a := SeedAddress(items[0].1);
      if a.None? then Seeded(parse, items[1..], rows, faults, now)
      else
        var s := InsertRow(parse, rows, faults, a.value, SeedRow(items[0].1, now));
        if s.status.Raised? then s else Seeded(parse, items[1..], s.rows, s.faults, now)
  }

  /** `initializeDefaultIps`: the two loopback rows, both stamped `now`. */
  function Defaulted(parse: Parser, rows: map<string, Row>, faults: seq<bool>, now: string): Store {
    var s := InsertRow(parse, rows, faults, LoopbackV4, Row(LoopbackV4Description, now, now));
    if s.status.Raised? then s
    else InsertRow(parse, s.rows, s.faults, LoopbackV6, Row(LoopbackV6Description, now, now))
  }

  /** What `loadAllowedIps` writes into an empty table: the remote items when
      the listing succeeded and is non-empty, then the loopback defaults if
      the table is still empty. */
  function Bootstrap(parse: Parser, listing: Option<CF.PhpArray>, faults: seq<bool>, now: string): Store {
    var s := if listing.Some? && listing.value != [] then Seeded(parse, listing.value, map[], faults, now)
             else Store(Done, map[], faults);
    if s.status.Raised? || s.rows != map[] then s else Defaulted(parse, s.rows, s.faults, now)
  }

  /** The defaults: with no failing statement exactly the two loopback rows
      are written; a failure of the first statement leaves the table empty. */
  lemma DefaultsExactly(parse: Parser, faults: seq<bool>, now: string)
    ensures NoFaults(faults) ==>
      Defaulted(parse, map[], faults, now) ==
        Store(Done, map[LoopbackV4 := Row(LoopbackV4Description, now, now),
                        LoopbackV6 := Row(LoopbackV6Description, now, now)], Rest(Rest(faults)))
    ensures |faults| > 0 && faults[0] ==>
      Defaulted(parse, map[], faults, now) == Store(Raised(WriteFailure), map[], Rest(faults))
  {
    assert ValidateIpFormat(parse, LoopbackV4) && ValidateIpFormat(parse, LoopbackV6);
    if NoFaults(faults) && |faults| > 1 {
      assert !faults[1];
    }
  }

  /** A bootstrap that succeeds always leaves a non-empty table. */
  lemma BootstrapNonEmpty(parse: Parser, listing: Option<CF.PhpArray>, faults: seq<bool>, now: string)
    ensures Bootstrap(parse, listing, faults, now).status.Done? ==> Bootstrap(parse, listing, faults, now).rows != map[]
  {
    var s := if listing.Some? && listing.value != [] then Seeded(parse, listing.value, map[], faults, now)
             else Store(Done, map[], faults);
    if s.status.Done? && s.rows == map[] {
      assert ValidateIpFormat(parse, LoopbackV4);
      var d := InsertRow(parse, s.rows, s.faults, LoopbackV4, Row(LoopbackV4Description, now, now));
      if d.status.Done? {
        assert LoopbackV4 in d.rows;
        assert LoopbackV4 in Defaulted(parse, s.rows, s.faults, now).rows;
      }
    }
  }

  /** Without a usable listing the bootstrap is exactly the defaults. */
  lemma BootstrapWithoutListing(parse: Parser, faults: seq<bool>, now: string)
    ensures NoFaults(faults) ==>
      Bootstrap(parse, None, faults, now).rows ==
        map[LoopbackV4 := Row(LoopbackV4Description, now, now), LoopbackV6 := Row(LoopbackV6Description, now, now)]
  {
    DefaultsExactly(parse, faults, now);
  }

  /** Seeding is insert-or-ignore: every row that was there is kept as it was. */
  lemma {:induction false} SeededKeepsRows(parse: Parser, items: CF.PhpArray, rows: map<string, Row>, faults: seq<bool>, now: string)
    ensures var r := Seeded(parse, items, rows, faults, now);
      forall k :: k in rows ==> k in r.rows && r.rows[k] == rows[k]
    decreases |items|
  {
    if items != [] {
      var a := SeedAddress(items[0].1);
      if a.None? {
        SeededKeepsRows(parse, items[1..], rows, faults, now);
      } else {
        var s := InsertRow(parse, rows, faults, a.value, SeedRow(items[0].1, now));
        if s.status.Done? {
          SeededKeepsRows(parse, items[1..], s.rows, s.faults, now);
        }
      }
    }
  }

  /** Every row seeding adds is a valid entry taken from one of the items,
      stamped with the seeding time. */
  lemma {:induction false} SeededRowsFromItems(parse: Parser, items: CF.PhpArray, rows: map<string, Row>, faults: seq<bool>, now: string, k: string)
    requires k in Seeded(parse, items, rows, faults, now).rows && k !in rows
    ensures ValidateIpFormat(parse, k)
    ensures exists i :: 0 <= i < |items| && SeedAddress(items[i].1) == Some(k)
    ensures Seeded(parse, items, rows, faults, now).rows[k].createdAt == now
    ensures Seeded(parse, items, rows, faults, now).rows[k].updatedAt == now
    decreases |items|
  {
    var a := SeedAddress(items[0].1);
    if a.None? {
      SeededRowsFromItems(parse, items[1..], rows, faults, now, k);
      var i :| 0 <= i < |items[1..]| && SeedAddress(items[1..][i].1) == Some(k);
      assert items[i + 1] == items[1..][i];
    } else {
      var s := InsertRow(parse, rows, faults, a.value, SeedRow(items[0].1, now));
      if s.status.Raised? {
        assert false;
      } else if k in s.rows {
        assert k == a.value;
        SeededKeepsRows(parse, items[1..], s.rows, s.faults, now);
      } else {
        SeededRowsFromItems(parse, items[1..], s.rows, s.faults, now, k);
        var i :| 0 <= i < |items[1..]| && SeedAddress(items[1..][i].1) == Some(k);
        assert items[i + 1] == items[1..][i];
      }
    }
  }

  /** With no failing statement seeding succeeds and every item with a valid
      address ends up in the table. */
  lemma {:induction false} SeededComplete(parse: Parser, items: CF.PhpArray, rows: map<string, Row>, faults: seq<bool>, now: string)
    requires NoFaults(faults)
    ensures Seeded(parse, items, rows, faults, now).status == Done
    ensures forall i :: 0 <= i < |items| && SeedAddress(items[i].1).Some? && ValidateIpFormat(parse, SeedAddress(items[i].1).value) ==>
      SeedAddress(items[i].1).value in Seeded(parse, items, rows, faults, now).rows
    decreases |items|
  {
    if items != [] {
      var r := Seeded(parse, items, rows, faults, now);
      var a := SeedAddress(items[0].1);
      var next := rows;
      var rest := faults;
      if a.Some? {
        var s := InsertRow(parse, rows, faults, a.value, SeedRow(items[0].1, now));
        assert s.status == Done;
        next, rest := s.rows, s.faults;
        assert NoFaults(rest);
      }
      assert r == Seeded(parse, items[1..], next, rest, now);
      SeededComplete(parse, items[1..], next, rest, now);
      SeededKeepsRows(parse, items[1..], next, rest, now);
      forall i | 0 <= i < |items| && SeedAddress(items[i].1).Some? && ValidateIpFormat(parse, SeedAddress(items[i].1).value)
        ensures SeedAddress(items[i].1).value in r.rows
      {
        if i > 0 {
          assert items[i] == items[1..][i - 1];
        }
      }
    }
  }

  // --------------------------------------------------------------- queries

  /** `isIpAllowed`: a bare address that some snapshot entry matches. */
  predicate Allowed(parse: Parser, entries: seq<Entry>, ip: string) {
    parse(ip).Some? && exists i :: 0 <= i < |entries| && Matches(parse, ip, entries[i].ip)
  }

  /** `ipEntryExists`: some snapshot entry has exactly this key. */
  predicate Listed(entries: seq<Entry>, ip: string) {
    exists i :: 0 <= i < |entries| && entries[i].ip == ip
  }

  /** A CIDR string or any other non-address is never allowed. */
  lemma OnlyBareAddressesAllowed(parse: Parser, entries: seq<Entry>, ip: string)
    ensures '/' in ip ==> !Allowed(parse, entries, ip)
    ensures !ValidateIpFormat(parse, ip) ==> !Allowed(parse, entries, ip)
  {
  }

  /** A bare address with an entry of its own is allowed. */
  lemma ListedAddressAllowed(parse: Parser, entries: seq<Entry>, ip: string)
    requires parse(ip).Some? && Listed(entries, ip)
    ensures Allowed(parse, entries, ip)
  {
    var i :| 0 <= i < |entries| && entries[i].ip == ip;
    ExactEntryMatchesOnlyItself(parse, ip, ip);
  }

  /** The first snapshot entry with the given key. */
  function FirstEntry(entries: seq<Entry>, ip: string): Option<Entry>
    decreases |entries|
  {
    if entries == [] then None
    else if entries[0].ip == ip then Some(entries[0])
    else FirstEntry(entries[1..], ip)
  }

  lemma {:induction false} FirstEntryMeaning(entries: seq<Entry>, ip: string)
    ensures FirstEntry(entries, ip).None? <==> !Listed(entries, ip)
    ensures FirstEntry(entries, ip).Some? ==> FirstEntry(entries, ip).value.ip == ip
    ensures FirstEntry(entries, ip).Some? ==>
      exists i :: 0 <= i < |entries| && entries[i] == FirstEntry(entries, ip).value &&
        (forall j :: 0 <= j < i ==> entries[j].ip != ip)
    decreases |entries|
  {
    if entries != [] && entries[0].ip != ip {
      var tail := entries[1..];
      FirstEntryMeaning(tail, ip);
      if Listed(entries, ip) {
        var i :| 0 <= i < |entries| && entries[i].ip == ip;
        assert tail[i - 1] == entries[i];
      }
      if Listed(tail, ip) {
        var i :| 0 <= i < |tail| && tail[i].ip == ip;
        assert entries[i + 1] == tail[i];
      }
      if FirstEntry(tail, ip).Some? {
        var i :| 0 <= i < |tail| && tail[i] == FirstEntry(tail, ip).value
          && forall j :: 0 <= j < i ==> tail[j].ip != ip;
        assert entries[i + 1] == tail[i];
        forall j | 0 <= j < i + 1 ensures entries[j].ip != ip {
          if j > 0 { assert entries[j] == tail[j - 1]; }
        }
      }
    } else if entries != [] {
      assert entries[0] == FirstEntry(entries, ip).value;
    }
  }

  // -------------------------------------------------------------- settings

  /** `$settings[$key] ?? $default` cast with `(int)`, clamped to [lo, hi]. */
  function Clamp(lo: int, hi: int, v: int): int {
    if v < lo then lo else if v > hi then hi else v
  }

  /** PHP's `(int)` on a decoded JSON value. */
  function PhpIntCast(j: CF.Json): int {
    match j
    case JNull => 0
    case JBool(b) => if b then 1 else 0
    case JInt(n) => n
    case JStr(s) => StringIntCast(s)
    case JArray(e) => if e == [] then 0 else 1
  }

  /** `getSessionTimeout` on the decoded settings. */
  function SessionTimeout(settings: CF.Json): (t: int)
    ensures 300 <= t <= 86400
  {
    Clamp(300, 86400, PhpIntCast(CF.Or(CF.Field(settings, "session_timeout"), CF.JInt(1800))))
  }

  /** `getDefaultPerPage` on the decoded settings. */
  function DefaultPerPage(settings: CF.Json): (n: int)
    ensures 1 <= n <= 100
  {
    Clamp(1, 100, PhpIntCast(CF.Or(CF.Field(settings, "default_per_page"), CF.JInt(10))))
  }

  /** A missing setting takes its default; a stored integer in range is kept. */
  lemma SettingsDefaults(settings: CF.Json, n: int)
    ensures CF.Field(settings, "session_timeout") == CF.JNull ==> SessionTimeout(settings) == 1800
    ensures CF.Field(settings, "session_timeout") == CF.JInt(n) && 300 <= n <= 86400 ==> SessionTimeout(settings) == n
    ensures CF.Field(settings, "default_per_page") == CF.JNull ==> DefaultPerPage(settings) == 10
    ensures CF.Field(settings, "default_per_page") == CF.JInt(n) && 1 <= n <= 100 ==> DefaultPerPage(settings) == n
  {
  }

  /** The settings text of the config table, `'{}'` when the row is missing. */
  function SettingsText(config: map<string, string>): string {
    if "settings" in config then config["settings"] else "{}"
  }

  /** `if (getConfig(k) === null) setConfig(k, v)`. */
  function WithSetting(config: map<string, string>, key: string, value: string): map<string, string> {
    if key in config then config else config[key := value]
  }

  /** The settings a fresh database decodes to give the two stored defaults. */
  lemma FreshSettings(settings: CF.Json)
    requires settings == CF.JArray([(CF.StrKey("session_timeout"), CF.JInt(86400)),
                                    (CF.StrKey("default_per_page"), CF.JInt(10))])
    ensures SessionTimeout(settings) == 86400 && DefaultPerPage(settings) == 10
  {
  }

  /** The listing `initializeFromCloudflare` works on: none when the request failed. */
  function RemoteListing(cfg: CF.Config, st: CF.ClientState): Option<CF.PhpArray> {
    var l := CF.ListItemsStep(cfg, st, false);
    if l.result.Ok? then Some(l.result.value) else None
  }

  /** A snapshot is empty exactly when its table is. */
  lemma SnapshotEmpty(s: seq<Entry>, rows: map<string, Row>)
    requires IsSnapshotOf(s, rows)
    ensures s == [] <==> rows == map[]
  {
    if rows != map[] {
      var k :| k in rows;
      SnapshotHasKey(s, rows, k);
    }
    if s != [] {
      SnapshotHasKey(s, rows, s[0].ip);
    }
  }

  /** A change `AuthService` asks of the remote list. */
  datatype Mutation = UpsertOf(ip: string, comment: string) | DeleteOf(ip: string) | UpdateOf(ip: string, comment: string)

  /** What the client method for a change does to the client. */
  function Mutated(cfg: CF.Config, st: CF.ClientState, m: Mutation): CF.Effect {
    match m
    case UpsertOf(ip, comment) => CF.UpsertStep(cfg, st, ip, comment)
    case DeleteOf(ip) => CF.DeleteStep(cfg, st, ip)
    case UpdateOf(ip, comment) => CF.UpdateStep(cfg, st, ip, comment)
  }

  /** No remote, or a remote change that succeeded. */
  predicate Permits(e: Option<CF.Effect>) {
    e.None? || e.value.status.Done?
  }

  // ----------------------------------------------------------------- rename

  /** How the remote phase of `renameAllowedIp` ended, whether the new
      address was already listed remotely, and the client afterwards. */
  datatype Phase = Phase(status: Status, existed: bool, state: CF.ClientState)

  /** The remote phase of `renameAllowedIp`: look the new address up, upsert
      it, then delete the original one when the addresses differ. A failure
      of the lookup propagates as it is; a failure after it first deletes
      the new address again when it was not listed before and the addresses
      differ (an error of that delete is swallowed). */
  function RemotePhase(cfg: CF.Config, st: CF.ClientState, orig: string, target: string, description: string): Phase {
    var f := CF.FindStep(cfg, st, target);
    if f.result.Threw? then Phase(Raised(f.result.error), false, f.state)
    else
      var existed := f.result.value.Some?;
      var u := CF.UpsertStep(cfg, f.state, target, description);
      var d := if u.status.Done? && orig != target then CF.DeleteStep(cfg, u.state, orig) else u;
      if d.status.Done? then Phase(Done, existed, d.state)
      else if orig != target && !existed then Phase(d.status, existed, CF.DeleteStep(cfg, d.state, target).state)
      else Phase(d.status, existed, d.state)
  }

  /** The best-effort restore after a local failure: delete the new address
      unless it was listed before, then upsert the original one with its old
      description; the first error ends it and is swallowed. */
  function Restored(cfg: CF.Config, st: CF.ClientState, orig: string, target: string, existed: bool, description: string): CF.ClientState {
    var d := if existed then CF.Effect(Done, st) else CF.DeleteStep(cfg, st, target);
    if d.status.Raised? then d.state else CF.UpsertStep(cfg, d.state, orig, description).state
  }

  /** When the lookup succeeds and the upsert of the new address fails, its
      error is what the phase raises; the original address is never deleted
      then. */
  lemma RemotePhaseUpsertFailure(cfg: CF.Config, st: CF.ClientState, orig: string, target: string, description: string)
    requires CF.FindStep(cfg, st, target).result.Ok?
    requires CF.UpsertStep(cfg, CF.FindStep(cfg, st, target).state, target, description).status.Raised?
    ensures RemotePhase(cfg, st, orig, target, description).status ==
      CF.UpsertStep(cfg, CF.FindStep(cfg, st, target).state, target, description).status
  {
  }

  /** A different new address that was listed remotely is never deleted by
      the compensation: the phase ends where the failed step left it. */
  lemma RemotePhaseKeepsListedNew(cfg: CF.Config, st: CF.ClientState, orig: string, target: string, description: string)
    requires CF.FindStep(cfg, st, target).result.Ok? && CF.FindStep(cfg, st, target).result.value.Some?
    requires RemotePhase(cfg, st, orig, target, description).status.Raised?
    ensures RemotePhase(cfg, st, orig, target, description).existed
    ensures var f := CF.FindStep(cfg, st, target);
      var u := CF.UpsertStep(cfg, f.state, target, description);
      RemotePhase(cfg, st, orig, target, description).state ==
        if u.status.Raised? || orig == target then u.state else CF.DeleteStep(cfg, u.state, orig).state
  {
  }

  /** The second write statement fails. */
  predicate SecondFails(faults: seq<bool>) {
    |faults| > 1 && faults[1]
  }

  // ---------------------------------------------------------- the service

  class AuthService {
    const parse: Parser
    const db: Database
    /** `$this->cloudflareClient`: null when no remote list is configured. */
    const remote: CF.Client?
    /** `$this->allowedIps`, the snapshot the queries consult. */
    var allowedIps: seq<Entry>

    /** The fields `__construct` sets before it initialises the schema
        (see `Open`). */
    constructor (parse: Parser, db: Database, remote: CF.Client?)
      ensures this.parse == parse && this.db == db && this.remote == remote
      ensures allowedIps == []
    {
      this.parse := parse;
      this.db := db;
      this.remote := remote;
      allowedIps := [];
    }

    /** The objects of the remote client. */
    function Footprint(): set<object> {
      if remote == null then {} else {remote, remote.transport}
    }

    twostate predicate RemoteKept()
      reads Footprint()
    {
      remote != null ==> remote.State() == old(remote.State())
    }

    twostate predicate TableKept()
      reads db
    {
      db.rows == old(db.rows) && db.saved == old(db.saved) && db.faults == old(db.faults) && db.config == old(db.config)
    }

    /** `isIpAllowed`: a linear scan with `matchIp`. */
    method IsIpAllowed(ip: string) returns (b: bool)
      ensures b <==> Allowed(parse, allowedIps, ip)
    {
      if parse(ip).None? {
        return false;
      }
      var i := 0;
      while i < |allowedIps|
        invariant 0 <= i <= |allowedIps|
        invariant forall j :: 0 <= j < i ==> !Matches(parse, ip, allowedIps[j].ip)
      {
        var m := MatchIp(parse, ip, allowedIps[i].ip);
        if m {
          return true;
        }
        i := i + 1;
      }
      return false;
    }

    /** `ipEntryExists`: a linear scan of the snapshot. */
    method IpEntryExists(ip: string) returns (b: bool)
      ensures b <==> Listed(allowedIps, ip)
    {
      var i := 0;
      while i < |allowedIps|
        invariant 0 <= i <= |allowedIps|
        invariant forall j :: 0 <= j < i ==> allowedIps[j].ip != ip
      {
        if allowedIps[i].ip == ip {
          return true;
        }
        i := i + 1;
      }
      return false;
    }

    /** The lookup of `$existing` in `renameAllowedIp`. */
    method FindEntry(ip: string) returns (e: Option<Entry>)
      ensures e == FirstEntry(allowedIps, ip)
    {
      var i := 0;
      while i < |allowedIps|
        invariant 0 <= i <= |allowedIps|
        invariant FirstEntry(allowedIps[i..], ip) == FirstEntry(allowedIps, ip)
      {
        assert allowedIps[i..][1..] == allowedIps[i + 1..];
        if allowedIps[i].ip == ip {
          return Some(allowedIps[i]);
        }
        i := i + 1;
      }
      return None;
    }

    /** `getConfig`. */
    method GetConfig(key: string) returns (v: Option<string>)
      ensures v.Some? <==> key in db.config
      ensures v.Some? ==> v.value == db.config[key]
    {
      v := db.SelectConfig(key);
    }

    /** `setConfig`: update, and insert when no row was updated; either way
        the key ends up holding the value. */
    method SetConfig(key: string, value: string)
      modifies db
      ensures db.config == old(db.config)[key := value]
      ensures db.rows == old(db.rows) && db.saved == old(db.saved) && db.faults == old(db.faults)
    {
      var count := db.UpdateConfig(key, value);
      if count == 0 {
        var s := db.InsertConfig(key, value);
      }
    }

    /** The config part of `initSchema`: the two settings are written only
        when missing. The password hash is computed by the caller. */
    method InitSchema(adminHash: string)
      modifies db
      ensures db.config == WithSetting(WithSetting(old(db.config), "admin_password", adminHash), "settings", DefaultSettingsText)
      ensures db.rows == old(db.rows) && db.saved == old(db.saved) && db.faults == old(db.faults)
    {
      var p := GetConfig("admin_password");
      if p.None? {
        SetConfig("admin_password", adminHash);
      }
      var t := GetConfig("settings");
      if t.None? {
        SetConfig("settings", DefaultSettingsText);
      }
    }

    /** `getSessionTimeout`, with `json_decode` as a parameter. */
    method GetSessionTimeout(decode: string -> CF.Json) returns (t: int)
      ensures t == SessionTimeout(decode(SettingsText(db.config)))
    {
      var text := GetConfig("settings");
      var settings := decode(if text.Some? then text.value else "{}");
      t := SessionTimeout(settings);
    }

    /** `getDefaultPerPage`, with `json_decode` as a parameter. */
    method GetDefaultPerPage(decode: string -> CF.Json) returns (n: int)
      ensures n == DefaultPerPage(decode(SettingsText(db.config)))
    {
      var text := GetConfig("settings");
      var settings := decode(if text.Some? then text.value else "{}");
      n := DefaultPerPage(settings);
    }

    /** `insertAllowedIpRow`: a missing creation time is `now`, a missing
        update time the creation time. */
    method InsertAllowedIpRow(ip: string, description: string, createdAt: Option<string>, updatedAt: Option<string>, now: string)
      returns (s: Status)
      modifies db
      ensures var c := if createdAt.Some? then createdAt.value else now;
        var u := if updatedAt.Some? then updatedAt.value else c;
        Store(s, db.rows, db.faults) == InsertRow(parse, old(db.rows), old(db.faults), ip, Row(description, c, u))
      ensures db.saved == old(db.saved) && db.config == old(db.config)
    {
      if !ValidateIpFormat(parse, ip) {
        return Done;
      }
      var c := if createdAt.Some? then createdAt.value else now;
      var u := if updatedAt.Some? then updatedAt.value else c;
      s := db.InsertOrIgnore(ip, Row(description, c, u));
    }

    /** `initializeFromCloudflare`: a failed listing is swallowed; a failing
        insert propagates. */
    method InitializeFromCloudflare(now: string) returns (s: Status)
      modifies db, Footprint()
      ensures remote == null ==> s == Done && TableKept()
      ensures remote != null ==>
        var l := CF.ListItemsStep(remote.config, old(remote.State()), false);
        remote.State() == l.state &&
        Store(s, db.rows, db.faults) ==
          if l.result.Ok? && l.result.value != [] then Seeded(parse, l.result.value, old(db.rows), old(db.faults), now)
          else Store(Done, old(db.rows), old(db.faults))
      ensures db.saved == old(db.saved) && db.config == old(db.config)
    {
      if remote == null {
        return Done;
      }
      var listed := remote.ListItems(false);
      if listed.Threw? || listed.value == [] {
        return Done;
      }
      var items := listed.value;
      ghost var rows0, faults0 := db.rows, db.faults;
      var i := 0;
      while i < |items|
        modifies db
        invariant 0 <= i <= |items|
        invariant Seeded(parse, items[i..], db.rows, db.faults, now) == Seeded(parse, items, rows0, faults0, now)
        invariant db.saved == old(db.saved) && db.config == old(db.config)
      {
        assert items[i..][0] == items[i] && items[i..][1..] == items[i + 1..];
        var a := SeedAddress(items[i].1);
        if a.Some? {
          var st := InsertAllowedIpRow(a.value, SeedComment(items[i].1), Some(now), Some(now), now);
          if st.Raised? {
            return st;
          }
        }
        i := i + 1;
      }
      return Done;
    }

    /** `initializeDefaultIps`. */
    method InitializeDefaultIps(now: string) returns (s: Status)
      modifies db
      ensures Store(s, db.rows, db.faults) == Defaulted(parse, old(db.rows), old(db.faults), now)
      ensures db.saved == old(db.saved) && db.config == old(db.config)
    {
      s := InsertAllowedIpRow(LoopbackV4, LoopbackV4Description, None, None, now);
      if s.Raised? {
        return;
      }
      s := InsertAllowedIpRow(LoopbackV6, LoopbackV6Description, None, None, now);
    }

    /** `loadAllowedIps`: the snapshot of a non-empty table; an empty table is
        first bootstrapped. */
    method LoadAllowedIps(now: string) returns (s: Status)
      modifies this, db, Footprint()
      ensures old(db.rows) != map[] ==> s == Done && TableKept() && RemoteKept()
      ensures old(db.rows) == map[] ==>
        Store(s, db.rows, db.faults) ==
          Bootstrap(parse, if remote == null then None else RemoteListing(remote.config, old(remote.State())), old(db.faults), now)
      ensures old(db.rows) == map[] && remote != null ==>
        remote.State() == CF.ListItemsStep(remote.config, old(remote.State()), false).state
      ensures s.Done? ==> IsSnapshotOf(allowedIps, db.rows) && db.rows != map[]
      ensures s.Raised? ==> allowedIps == []
      ensures db.saved == old(db.saved) && db.config == old(db.config)
    {
      var snap := db.SelectAll();
      allowedIps := snap;
      SnapshotEmpty(snap, db.rows);
      if snap != [] {
        return Done;
      }
      s := BootstrapTable(now);
    }

    /** The part of `loadAllowedIps` that runs on an empty table. */
    method BootstrapTable(now: string) returns (s: Status)
      requires db.rows == map[]
      modifies this, db, Footprint()
      ensures Store(s, db.rows, db.faults) ==
        Bootstrap(parse, if remote == null then None else RemoteListing(remote.config, old(remote.State())), old(db.faults), now)
      ensures remote != null ==> remote.State() == CF.ListItemsStep(remote.config, old(remote.State()), false).state
      ensures s.Done? ==> IsSnapshotOf(allowedIps, db.rows) && db.rows != map[]
      ensures s.Raised? ==> allowedIps == []
      ensures db.saved == old(db.saved) && db.config == old(db.config)
    {
      allowedIps := [];
      ghost var listing := if remote == null then None else RemoteListing(remote.config, old(remote.State()));
      ghost var faults0 := db.faults;
      s := InitializeFromCloudflare(now);
      if s.Raised? {
        return;
      }
      var snap := db.SelectAll();
      SnapshotEmpty(snap, db.rows);
      if snap != [] {
        allowedIps := snap;
        return Done;
      }
      s := InitializeDefaultIps(now);
      BootstrapNonEmpty(parse, listing, faults0, now);
      if s.Raised? {
        return;
      }
      snap := db.SelectAll();
      allowedIps := snap;
    }

    /** The body of `__construct` after the connection is opened: the schema
        defaults, then the first load. */
    method Open(adminHash: string, now: string) returns (s: Status)
      modifies this, db, Footprint()
      ensures db.config == WithSetting(WithSetting(old(db.config), "admin_password", adminHash), "settings", DefaultSettingsText)
      ensures old(db.rows) != map[] ==> s == Done && db.rows == old(db.rows) && RemoteKept()
      ensures old(db.rows) == map[] ==>
        Store(s, db.rows, db.faults) ==
          Bootstrap(parse, if remote == null then None else RemoteListing(remote.config, old(remote.State())), old(db.faults), now)
      ensures old(db.rows) == map[] && remote != null ==>
        remote.State() == CF.ListItemsStep(remote.config, old(remote.State()), false).state
      ensures s.Done? ==> IsSnapshotOf(allowedIps, db.rows) && db.rows != map[]
      ensures s.Raised? ==> allowedIps == []
    {
      InitSchema(adminHash);
      s := LoadAllowedIps(now);
    }
  
    /** The remote change `m` would make from the current client state;
        None without a remote. */
    ghost function Remote(m: Mutation): Option<CF.Effect>
      reads Footprint()
    {
      if remote == null then None else Some(Mutated(remote.config, remote.State(), m))
    }

    /** The client is in the state the change left it in. */
    ghost predicate RemoteBecame(e: Option<CF.Effect>)
      reads Footprint()
    {
      remote != null ==> e.Some? && remote.State() == e.value.state
    }

    /** Nothing observable changed. */
    twostate predicate Kept()
      reads this, db, Footprint()
    {
      allowedIps == old(allowedIps) && TableKept() && RemoteKept()
    }

    /** A transaction can begin and its first write statement succeeds. */
    predicate CanWrite()
      reads db
    {
      !db.InTransaction() && !db.NextFails()
    }

    /** `commit` followed by `loadAllowedIps` on a table that is not empty:
        the reload only takes the snapshot. */
    method CommitAndReload(now: string)
      requires db.InTransaction() && db.rows != map[]
      modifies this, db, Footprint()
      ensures IsSnapshotOf(allowedIps, db.rows) && !db.InTransaction()
      ensures db.rows == old(db.rows) && db.faults == old(db.faults) && db.config == old(db.config)
      ensures RemoteKept()
    {
      db.Commit();
      var l := LoadAllowedIps(now);
    }

    /** `addAllowedIp`. The remote upsert runs inside the transaction, after
        the local insert: when it fails the insert is rolled back. */
    method AddAllowedIp(ip: string, description: string, now: string) returns (r: Result<bool>)
      modifies this, db, Footprint()
      ensures !ValidateIpFormat(parse, ip) ==>
        r == Threw(InvalidArgumentException("Invalid IP format: " + ip)) && Kept()
      ensures ValidateIpFormat(parse, ip) && old(Listed(allowedIps, ip)) ==> r == Ok(false) && Kept()
      ensures ValidateIpFormat(parse, ip) && old(!Listed(allowedIps, ip)) && !(old(CanWrite()) && ip !in old(db.rows)) ==>
        r.Threw? && db.rows == old(db.rows) && allowedIps == old(allowedIps) && RemoteKept()
      ensures ValidateIpFormat(parse, ip) && old(!Listed(allowedIps, ip)) && old(CanWrite()) && ip !in old(db.rows) ==>
        var e := old(Remote(UpsertOf(ip, description)));
        RemoteBecame(e) &&
        if Permits(e) then
          r == Ok(true) && db.rows == old(db.rows)[ip := Row(description, now, now)] && IsSnapshotOf(allowedIps, db.rows)
        else
          r == Threw(e.value.status.error) && db.rows == old(db.rows) && allowedIps == old(allowedIps)
      ensures r == Ok(true) ==> Listed(allowedIps, ip)
      ensures db.saved == old(db.saved) && db.config == old(db.config)
    {
      if !ValidateIpFormat(parse, ip) {
        return Threw(InvalidArgumentException("Invalid IP format: " + ip));
      }
      var present := IpEntryExists(ip);
      if present {
        return Ok(false);
      }
      var b := db.BeginTransaction();
      if b.Raised? {
        return Threw(b.error);
      }
      var ins := db.Insert(ip, Row(description, now, now));
      if ins.Raised? {
        db.RollBack();
        return Threw(ins.error);
      }
      if remote != null {
        var u := remote.UpsertItem(ip, description);
        if u.Raised? {
          db.RollBack();
          return Threw(u.error);
        }
      }
      assert ip in db.rows;
      CommitAndReload(now);
      SnapshotHasKey(allowedIps, db.rows, ip);
      return Ok(true);
    }

    /** Adding the same address twice: the second call finds the entry. */
    method AddTwice(ip: string, description: string, now: string) returns (first: Result<bool>, second: Result<bool>)
      modifies this, db, Footprint()
      ensures first == Ok(true) ==> second == Ok(false)
    {
      first := AddAllowedIp(ip, description, now);
      second := AddAllowedIp(ip, description, now);
    }

    /** `removeAllowedIp`. The remote delete runs inside the transaction,
        after the local delete. Removing the last row makes the reload
        bootstrap the table again. */
    method RemoveAllowedIp(ip: string, now: string) returns (r: Result<bool>)
      modifies this, db, Footprint()
      ensures old(!Listed(allowedIps, ip)) ==> r == Ok(false) && Kept()
      ensures old(Listed(allowedIps, ip)) && old(!CanWrite()) ==>
        r.Threw? && db.rows == old(db.rows) && allowedIps == old(allowedIps) && RemoteKept()
      ensures old(Listed(allowedIps, ip)) && old(CanWrite()) && ip !in old(db.rows) ==>
        r == Ok(false) && db.rows == old(db.rows) && allowedIps == old(allowedIps) && RemoteKept()
      ensures old(Listed(allowedIps, ip)) && old(CanWrite()) && ip in old(db.rows) ==>
        var e := old(Remote(DeleteOf(ip)));
        if !Permits(e) then
          r == Threw(e.value.status.error) && db.rows == old(db.rows) && allowedIps == old(allowedIps) && RemoteBecame(e)
        else if old(db.rows) - {ip} != map[] then
          r == Ok(true) && db.rows == old(db.rows) - {ip} && IsSnapshotOf(allowedIps, db.rows)
          && !Listed(allowedIps, ip) && RemoteBecame(e)
        else
          var b := Bootstrap(parse, if e.None? then None else RemoteListing(remote.config, e.value.state), Rest(old(db.faults)), now);
          db.rows == b.rows && db.faults == b.faults && r == (if b.status.Done? then Ok(true) else Threw(b.status.error))
          && (remote != null ==> remote.State() == CF.ListItemsStep(remote.config, e.value.state, false).state)
          && (b.status.Raised? ==> allowedIps == [])
      ensures r == Ok(true) ==> IsSnapshotOf(allowedIps, db.rows) && db.rows != map[]
      ensures db.saved == old(db.saved) && db.config == old(db.config)
    {
      var listed := IpEntryExists(ip);
      if !listed {
        return Ok(false);
      }
      var b := db.BeginTransaction();
      if b.Raised? {
        return Threw(b.error);
      }
      var d := db.Delete(ip);
      if d.Threw? {
        db.RollBack();
        return Threw(d.error);
      }
      if d.value == 0 {
        db.RollBack();
        return Ok(false);
      }
      if remote != null {
        var s := remote.DeleteItemByIp(ip);
        if s.Raised? {
          db.RollBack();
          return Threw(s.error);
        }
      }
      db.Commit();
      var l := LoadAllowedIps(now);
      if l.Raised? {
        return Threw(l.error);
      }
      if db.rows == old(db.rows) - {ip} {
        SnapshotHasKey(allowedIps, db.rows, ip);
      }
      return Ok(true);
    }

    /** `updateIpEntry` with `$data['description']` as an optional string:
        no validation and no snapshot check, the row count decides. */
    method UpdateIpEntry(ip: string, description: Option<string>, now: string) returns (r: Result<bool>)
      modifies this, db, Footprint()
      ensures description.None? ==> r == Ok(false) && Kept()
      ensures description.Some? && old(!CanWrite()) ==>
        r.Threw? && db.rows == old(db.rows) && allowedIps == old(allowedIps) && RemoteKept()
      ensures description.Some? && old(CanWrite()) && ip !in old(db.rows) ==>
        r == Ok(false) && db.rows == old(db.rows) && allowedIps == old(allowedIps) && RemoteKept()
      ensures description.Some? && old(CanWrite()) && ip in old(db.rows) ==>
        var e := old(Remote(UpdateOf(ip, description.value)));
        RemoteBecame(e) &&
        if Permits(e) then
          r == Ok(true) && IsSnapshotOf(allowedIps, db.rows)
          && db.rows == old(db.rows)[ip := Row(description.value, old(db.rows)[ip].createdAt, now)]
        else
          r == Threw(e.value.status.error) && db.rows == old(db.rows) && allowedIps == old(allowedIps)
      ensures db.saved == old(db.saved) && db.config == old(db.config)
    {
      if description.None? {
        return Ok(false);
      }
      var b := db.BeginTransaction();
      if b.Raised? {
        return Threw(b.error);
      }
      var u := db.Update(ip, description.value, now);
      if u.Threw? {
        db.RollBack();
        return Threw(u.error);
      }
      if u.value == 0 {
        db.RollBack();
        return Ok(false);
      }
      if remote != null {
        var s := remote.UpdateItemComment(ip, description.value);
        if s.Raised? {
          db.RollBack();
          return Threw(s.error);
        }
      }
      assert ip in db.rows;
      CommitAndReload(now);
      return Ok(true);
    }

    /** The remote phase `renameAllowedIp` would run from the current client
        state; None without a remote. */
    ghost function RenamePhase(orig: string, target: string, description: string): Option<Phase>
      reads Footprint()
    {
      if remote == null then None else Some(RemotePhase(remote.config, remote.State(), orig, target, description))
    }

    /** The client is in the given state (and there is one exactly when there
        is a remote). */
    ghost predicate RemoteIn(st: Option<CF.ClientState>)
      reads Footprint()
    {
      remote != null ==> st.Some? && remote.State() == st.value
    }

    /** The checks `renameAllowedIp` makes before touching anything. */
    predicate RenamePasses(orig: string, target: string)
      reads this
    {
      ValidateIpFormat(parse, target) && Listed(allowedIps, orig) && (orig == target || !Listed(allowedIps, target))
    }

    /** The remote phase of `renameAllowedIp`, outside any transaction. */
    method RenameRemote(orig: string, target: string, description: string) returns (s: Status, existed: bool)
      modifies Footprint()
      ensures remote == null ==> s == Done && !existed
      ensures remote != null ==>
        Phase(s, existed, remote.State()) == RemotePhase(remote.config, old(remote.State()), orig, target, description)
    {
      if remote == null {
        return Done, false;
      }
      var found := remote.FindItemByIp(target);
      if found.Threw? {
        return Raised(found.error), false;
      }
      existed := found.value.Some?;
      s := remote.UpsertItem(target, description);
      if s.Done? && orig != target {
        s := remote.DeleteItemByIp(orig);
      }
      if s.Raised? && orig != target && !existed {
        var ignored := remote.DeleteItemByIp(target);
      }
    }

    /** The best-effort remote restore of `renameAllowedIp`. */
    method RestoreRemote(orig: string, target: string, existed: bool, description: string)
      modifies Footprint()
      ensures remote != null ==>
        remote.State() == Restored(remote.config, old(remote.State()), orig, target, existed, description)
    {
      if remote == null {
        return;
      }
      if !existed {
        var d := remote.DeleteItemByIp(target);
        if d.Raised? {
          return;
        }
      }
      var u := remote.UpsertItem(orig, description);
    }

    /** The transactional phase of `renameAllowedIp`. Every local failure
        rolls back; when the addresses differ it also restores the remote. */
    method RenameLocal(orig: string, target: string, description: string, createdAt: string, now: string,
                       existed: bool, previous: string)
      returns (r: Result<bool>)
      modifies this, db, Footprint()
      ensures old(db.InTransaction()) ==> r.Threw? && Kept()
      ensures !old(db.InTransaction()) ==>
        var succeeds := !old(db.NextFails()) && orig in old(db.rows) &&
          (orig == target || (target !in old(db.rows) && !SecondFails(old(db.faults))));
        if succeeds then
          r == Ok(true) && RemoteKept() && IsSnapshotOf(allowedIps, db.rows) &&
          db.rows == if orig == target then old(db.rows)[orig := Row(description, old(db.rows)[orig].createdAt, now)]
                     else (old(db.rows) - {orig})[target := Row(description, createdAt, now)]
        else
          r != Ok(true) && db.rows == old(db.rows) && allowedIps == old(allowedIps) &&
          (orig == target ==> RemoteKept()) &&
          (orig != target && remote != null ==>
            remote.State() == Restored(remote.config, old(remote.State()), orig, target, existed, previous))
      ensures !old(db.InTransaction()) && !old(db.NextFails()) && orig !in old(db.rows) ==> r == Ok(false)
      ensures r.Ok? && r.value == false ==> !old(db.InTransaction()) && !old(db.NextFails()) && orig !in old(db.rows)
      ensures db.saved == old(db.saved) && db.config == old(db.config)
    {
      var b := db.BeginTransaction();
      if b.Raised? {
        return Threw(b.error);
      }
      if orig == target {
        var u := db.Update(orig, description, now);
        if u.Threw? {
          db.RollBack();
          return Threw(u.error);
        }
        if u.value == 0 {
          db.RollBack();
          return Ok(false);
        }
      } else {
        var d := db.Delete(orig);
        if d.Threw? {
          db.RollBack();
          RestoreRemote(orig, target, existed, previous);
          return Threw(d.error);
        }
        if d.value == 0 {
          db.RollBack();
          RestoreRemote(orig, target, existed, previous);
          return Ok(false);
        }
        var ins := db.Insert(target, Row(description, createdAt, now));
        if ins.Raised? {
          db.RollBack();
          RestoreRemote(orig, target, existed, previous);
          return Threw(ins.error);
        }
      }
      assert target in db.rows;
      CommitAndReload(now);
      return Ok(true);
    }

    /** `renameAllowedIp` once its checks have passed: the remote phase,
        then the local transaction. */
    method RenameChecked(orig: string, target: string, description: string, now: string,
                         createdAt: string, previous: string) returns (r: Result<bool>)
      modifies this, db, Footprint()
      ensures
        var p := old(RenamePhase(orig, target, description));
        var after := if p.Some? then Some(p.value.state) else None;
        if p.Some? && p.value.status.Raised? then
          r == Threw(p.value.status.error) && TableKept() && allowedIps == old(allowedIps) && RemoteIn(after)
        else if old(db.InTransaction()) then
          r.Threw? && TableKept() && allowedIps == old(allowedIps) && RemoteIn(after)
        else
          var succeeds := !old(db.NextFails()) && orig in old(db.rows) &&
            (orig == target || (target !in old(db.rows) && !SecondFails(old(db.faults))));
          if succeeds then
            r == Ok(true) && RemoteIn(after) && IsSnapshotOf(allowedIps, db.rows) &&
            db.rows == if orig == target then old(db.rows)[orig := Row(description, old(db.rows)[orig].createdAt, now)]
                       else (old(db.rows) - {orig})[target := Row(description, createdAt, now)]
          else
            r != Ok(true) && db.rows == old(db.rows) && allowedIps == old(allowedIps) &&
            (r == Ok(false) <==> !old(db.NextFails()) && orig !in old(db.rows)) &&
            (orig == target ==> RemoteIn(after)) &&
            (orig != target && p.Some? ==>
              RemoteIn(Some(Restored(remote.config, p.value.state, orig, target, p.value.existed, previous))))
      ensures db.saved == old(db.saved) && db.config == old(db.config)
    {
      var s, existed := RenameRemote(orig, target, description);
      if s.Raised? {
        return Threw(s.error);
      }
      r := RenameLocal(orig, target, description, createdAt, now, existed, previous);
    }

    /** `renameAllowedIp`: the checks, then the remote phase, then the local
        transaction; `created_at` is taken from the snapshot entry of the
        original address. */
    method RenameAllowedIp(orig: string, target: string, description: string, now: string) returns (r: Result<bool>)
      modifies this, db, Footprint()
      ensures !ValidateIpFormat(parse, target) ==>
        r == Threw(InvalidArgumentException("Invalid IP format: " + target)) && Kept()
      ensures ValidateIpFormat(parse, target) && !old(RenamePasses(orig, target)) ==> r == Ok(false) && Kept()
      ensures old(RenamePasses(orig, target)) ==>
        var p := old(RenamePhase(orig, target, description));
        var after := if p.Some? then Some(p.value.state) else None;
        if p.Some? && p.value.status.Raised? then
          r == Threw(p.value.status.error) && TableKept() && allowedIps == old(allowedIps) && RemoteIn(after)
        else if old(db.InTransaction()) then
          r.Threw? && TableKept() && allowedIps == old(allowedIps) && RemoteIn(after)
        else
          var existing := old(FirstEntry(allowedIps, orig));
          var createdAt := if existing.Some? then existing.value.createdAt else now;
          var previous := if existing.Some? then existing.value.description else "";
          var succeeds := !old(db.NextFails()) && orig in old(db.rows) &&
            (orig == target || (target !in old(db.rows) && !SecondFails(old(db.faults))));
          if succeeds then
            r == Ok(true) && RemoteIn(after) && IsSnapshotOf(allowedIps, db.rows) &&
            db.rows == if orig == target then old(db.rows)[orig := Row(description, old(db.rows)[orig].createdAt, now)]
                       else (old(db.rows) - {orig})[target := Row(description, createdAt, now)]
          else
            r != Ok(true) && db.rows == old(db.rows) && allowedIps == old(allowedIps) &&
            (r == Ok(false) <==> !old(db.NextFails()) && orig !in old(db.rows)) &&
            (orig == target ==> RemoteIn(after)) &&
            (orig != target && p.Some? ==>
              RemoteIn(Some(Restored(remote.config, p.value.state, orig, target, p.value.existed, previous))))
      ensures r == Ok(true) && old(IsSnapshotOf(allowedIps, db.rows)) ==>
        target in db.rows && db.rows[target].createdAt == old(db.rows)[orig].createdAt
      ensures db.saved == old(db.saved) && db.config == old(db.config)
    {
      if !ValidateIpFormat(parse, target) {
        return Threw(InvalidArgumentException("Invalid IP format: " + target));
      }
      var hasOrig := IpEntryExists(orig);
      if !hasOrig {
        return Ok(false);
      }
      if orig != target {
        var hasTarget := IpEntryExists(target);
        if hasTarget {
          return Ok(false);
        }
      }
      var existing := FindEntry(orig);
      var createdAt := if existing.Some? then existing.value.createdAt else now;
      var previous := if existing.Some? then existing.value.description else "";
      ghost var snapshotted := IsSnapshotOf(allowedIps, db.rows);
      ghost var rows0 := db.rows;
      FirstEntryMeaning(allowedIps, orig);
      r := RenameChecked(orig, target, description, now, createdAt, previous);
      if snapshotted && existing.Some? {
        assert createdAt == rows0[orig].createdAt;
      }
    }
  }
}
