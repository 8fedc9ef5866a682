/** The local store behind AuthService.php: the SQLite tables `allowed_ips`
    and `config` reached through PDO, as an object holding the rows, the
    configuration pairs and an explicit transaction (a saved copy of the rows
    that a rollback restores). Timestamps are the opaque `Y-m-d H:i:s` strings
    `date()` produces; they are ordered as SQLite orders TEXT, character by
    character. */
module LocalStore {
  import opened Wrappers

  /** A row of `allowed_ips` without its key. */
  datatype Row = Row(description: string, createdAt: string, updatedAt: string)

  /** A row of `allowed_ips` as `fetchAll` returns it. */
  datatype Entry = Entry(ip: string, description: string, createdAt: string, updatedAt: string)

  function EntryOf(ip: string, row: Row): Entry {
    Entry(ip, row.description, row.createdAt, row.updatedAt)
  }

  function RowOf(e: Entry): Row {
    Row(e.description, e.createdAt, e.updatedAt)
  }

  // ------------------------------------------------------ text ordering

  /** SQLite's BINARY collation on TEXT: character-by-character comparison,
      a proper prefix ordered first. */
  predicate LexLe(a: string, b: string) {
    if a == [] then true
    else if b == [] then false
    else if a[0] != b[0] then a[0] < b[0]
    else LexLe(a[1..], b[1..])
  }

  lemma {:induction false} LexLeTotal(a: string, b: string)
    ensures LexLe(a, b) || LexLe(b, a)
  {
    if a != [] && b != [] && a[0] == b[0] {
      LexLeTotal(a[1..], b[1..]);
    }
  }

  lemma {:induction false} LexLeRefl(a: string)
    ensures LexLe(a, a)
  {
    if a != [] {
      LexLeRefl(a[1..]);
    }
  }

  lemma {:induction false} LexLeTrans(a: string, b: string, c: string)
    requires LexLe(a, b) && LexLe(b, c)
    ensures LexLe(a, c)
  {
    if a != [] && b != [] && c != [] && a[0] == b[0] && b[0] == c[0] {
      LexLeTrans(a[1..], b[1..], c[1..]);
    }
  }

  // ------------------------------------------------------------ snapshot

  function IpsOf(s: seq<Entry>): set<string> {
    set i | 0 <= i < |s| :: s[i].ip
  }

  predicate SortedByCreation(s: seq<Entry>) {
    forall i, j :: 0 <= i < j < |s| ==> LexLe(s[i].createdAt, s[j].createdAt)
  }

  /** `SELECT * FROM allowed_ips ORDER BY created_at ASC`: every row exactly
      once, ascending by creation time (rows with equal times in no
      particular order). */
  predicate IsSnapshotOf(s: seq<Entry>, rows: map<string, Row>) {
    && IpsOf(s) == rows.Keys
    && (forall i :: 0 <= i < |s| ==> s[i].ip in rows && rows[s[i].ip] == RowOf(s[i]))
    && (forall i, j :: 0 <= i < j < |s| ==> s[i].ip != s[j].ip)
    && SortedByCreation(s)
  }

  lemma IpsOfAppend(s: seq<Entry>, e: Entry)
    ensures IpsOf(s + [e]) == IpsOf(s) + {e.ip}
  {
    var t := s + [e];
    forall x | x in IpsOf(t) ensures x in IpsOf(s) + {e.ip} {
      var i :| 0 <= i < |t| && t[i].ip == x;
      if i < |s| { assert s[i] == t[i]; }
    }
    forall x | x in IpsOf(s) ensures x in IpsOf(t) {
      var i :| 0 <= i < |s| && s[i].ip == x;
      assert t[i] == s[i];
    }
    assert t[|s|].ip == e.ip;
  }

  /** A snapshot lists exactly the stored keys, each once, so it is as long as the table. */
  lemma SnapshotSize(s: seq<Entry>, rows: map<string, Row>)
    requires IsSnapshotOf(s, rows)
    ensures |s| == |rows|
  {
    DistinctKeys(s);
    assert |rows| == |rows.Keys|;
  }

  /** Entries with pairwise distinct keys have as many keys as entries. */
  lemma {:induction false} DistinctKeys(s: seq<Entry>)
    requires forall i, j :: 0 <= i < j < |s| ==> s[i].ip != s[j].ip
    ensures |IpsOf(s)| == |s|
  {
    if s != [] {
      var init := s[..|s| - 1];
      assert forall i :: 0 <= i < |init| ==> init[i] == s[i];
      DistinctKeys(init);
      assert IpsOf(s) == IpsOf(init) + {s[|s| - 1].ip} by {
        forall x | x in IpsOf(s) ensures x in IpsOf(init) + {s[|s| - 1].ip} {
          var i :| 0 <= i < |s| && s[i].ip == x;
          if i < |init| { assert init[i] == s[i]; }
        }
      }
      assert s[|s| - 1].ip !in IpsOf(init);
    }
  }

  /** Snapshot membership and table membership agree. */
  lemma SnapshotHasKey(s: seq<Entry>, rows: map<string, Row>, ip: string)
    requires IsSnapshotOf(s, rows)
    ensures ip in rows <==> exists i :: 0 <= i < |s| && s[i].ip == ip
  {
    if ip in rows {
      assert ip in IpsOf(s);
    }
  }

  /** The loop invariant of `SelectAll`: `s` is a sorted snapshot of the
      rows taken so far, and each of them comes no later than every row
      still left in `rest`. */
  predicate Selecting(rows: map<string, Row>, s: seq<Entry>, rest: set<string>) {
    && rest <= rows.Keys
    && IpsOf(s) + rest == rows.Keys && IpsOf(s) !! rest
    && (forall i :: 0 <= i < |s| ==> s[i].ip in rows && rows[s[i].ip] == RowOf(s[i]))
    && (forall i, j :: 0 <= i < j < |s| ==> s[i].ip != s[j].ip)
    && SortedByCreation(s)
    && (forall i, k :: 0 <= i < |s| && k in rest ==> LexLe(s[i].createdAt, rows[k].createdAt))
  }

  /** Taking an earliest remaining row keeps the invariant. */
  lemma SelectingStep(rows: map<string, Row>, s: seq<Entry>, rest: set<string>, k: string)
    requires Selecting(rows, s, rest) && k in rest
    requires forall j :: j in rest ==> LexLe(rows[k].createdAt, rows[j].createdAt)
    ensures Selecting(rows, s + [EntryOf(k, rows[k])], rest - {k})
  {
    IpsOfAppend(s, EntryOf(k, rows[k]));
    var t := s + [EntryOf(k, rows[k])];
    assert forall i :: 0 <= i < |s| ==> t[i] == s[i];
  }

  // ------------------------------------------------------------ database

  /** The exception a failing write statement throws. */
  const WriteFailure := PDOException("disk I/O error")

  /** `INSERT OR IGNORE` on the table: an existing row is kept. */
  function WithDefault(rows: map<string, Row>, ip: string, row: Row): map<string, Row> {
    if ip in rows then rows else rows[ip := row]
  }

  /** The PDO connection with its two tables. `faults` is the failure oracle
      of the write statements on `allowed_ips`: each such statement consumes
      its head, and `true` makes that statement throw a PDOException without
      changing anything. */
  class Database {
    var rows: map<string, Row>
    var config: map<string, string>
    /** The rows as they were when the open transaction began, if one is open. */
    var saved: Option<map<string, Row>>
    var faults: seq<bool>

    constructor (rows: map<string, Row>, config: map<string, string>, faults: seq<bool>)
      ensures this.rows == rows && this.config == config && this.faults == faults
      ensures saved.None?
    {
      this.rows := rows;
      this.config := config;
      this.faults := faults;
      this.saved := None;
    }

    predicate InTransaction()
      reads this
    {
      saved.Some?
    }

    /** Whether the next write statement fails. */
    predicate NextFails()
      reads this
    {
      |faults| > 0 && faults[0]
    }

    function RemainingFaults(): seq<bool>
      reads this
    {
      if |faults| > 0 then faults[1..] else []
    }

    /** `beginTransaction`: PDO refuses to nest transactions. */
    method BeginTransaction() returns (r: Status)
      modifies this
      ensures r.Done? <==> old(!InTransaction())
      ensures saved == if r.Done? then Some(old(rows)) else old(saved)
      ensures rows == old(rows) && config == old(config) && faults == old(faults)
    {
      if saved.Some? {
        return Raised(PDOException("There is already an active transaction"));
      }
      saved := Some(rows);
      return Done;
    }

    method Commit()
      requires InTransaction()
      modifies this
      ensures saved.None?
      ensures rows == old(rows) && config == old(config) && faults == old(faults)
    {
      saved := None;
    }

    method RollBack()
      requires InTransaction()
      modifies this
      ensures rows == old(saved.value) && saved.None?
      ensures config == old(config) && faults == old(faults)
    {
      rows := saved.value;
      saved := None;
    }

    /** `INSERT INTO allowed_ips ...`: throws on a fault or when the key is
        taken (PRIMARY KEY constraint). */
    method Insert(ip: string, row: Row) returns (r: Status)
      modifies this
      ensures faults == old(RemainingFaults())
      ensures r.Done? <==> !old(NextFails()) && ip !in old(rows)
      ensures rows == if r.Done? then old(rows)[ip := row] else old(rows)
      ensures saved == old(saved) && config == old(config)
    {
      var fails := NextFails();
      faults := RemainingFaults();
      if fails {
        return Raised(WriteFailure);
      }
      if ip in rows {
        return Raised(PDOException("UNIQUE constraint failed: allowed_ips.ip"));
      }
      rows := rows[ip := row];
      return Done;
    }

    /** `INSERT OR IGNORE INTO allowed_ips ...`: an existing key is left as it is. */
    method InsertOrIgnore(ip: string, row: Row) returns (r: Status)
      modifies this
      ensures faults == old(RemainingFaults())
      ensures r == if old(NextFails()) then Raised(WriteFailure) else Done
      ensures rows == if r.Done? then WithDefault(old(rows), ip, row) else old(rows)
      ensures saved == old(saved) && config == old(config)
    {
      var fails := NextFails();
      faults := RemainingFaults();
      if fails {
        return Raised(WriteFailure);
      }
      if ip !in rows {
        rows := rows[ip := row];
      }
      return Done;
    }

    /** `DELETE FROM allowed_ips WHERE ip = :ip`, returning `rowCount()`. */
    method Delete(ip: string) returns (r: Result<nat>)
      modifies this
      ensures faults == old(RemainingFaults())
      ensures old(NextFails()) ==> r.Threw? && rows == old(rows)
      ensures !old(NextFails()) ==> r == Ok(if ip in old(rows) then 1 else 0) && rows == old(rows) - {ip}
      ensures saved == old(saved) && config == old(config)
    {
      var fails := NextFails();
      faults := RemainingFaults();
      if fails {
        return Threw(WriteFailure);
      }
      var count := if ip in rows then 1 else 0;
      rows := rows - {ip};
      return Ok(count);
    }

    /** `UPDATE allowed_ips SET description = :d, updated_at = :u WHERE ip = :ip`,
        returning `rowCount()`. */
    method Update(ip: string, description: string, updatedAt: string) returns (r: Result<nat>)
      modifies this
      ensures faults == old(RemainingFaults())
      ensures old(NextFails()) ==> r.Threw? && rows == old(rows)
      ensures !old(NextFails()) && ip !in old(rows) ==> r == Ok(0) && rows == old(rows)
      ensures !old(NextFails()) && ip in old(rows) ==>
        r == Ok(1) && rows == old(rows)[ip := Row(description, old(rows)[ip].createdAt, updatedAt)]
      ensures saved == old(saved) && config == old(config)
    {
      var fails := NextFails();
      faults := RemainingFaults();
      if fails {
        return Threw(WriteFailure);
      }
      if ip !in rows {
        return Ok(0);
      }
      rows := rows[ip := Row(description, rows[ip].createdAt, updatedAt)];
      return Ok(1);
    }

    /** `SELECT * FROM allowed_ips ORDER BY created_at ASC`, by repeatedly
        taking a row with the least creation time among those left. */
    method SelectAll() returns (s: seq<Entry>)
      ensures IsSnapshotOf(s, rows)
    {
      s := [];
      var rest := rows.Keys;
      while rest != {}
        invariant Selecting(rows, s, rest)
        decreases rest
      {
        var k := EarliestKey(rest);
        SelectingStep(rows, s, rest, k);
        s := s + [EntryOf(k, rows[k])];
        rest := rest - {k};
      }
    }

    /** A key of `keys` whose row has the least creation time. */
    method EarliestKey(keys: set<string>) returns (k: string)
      requires keys != {} && keys <= rows.Keys
      ensures k in keys
      ensures forall j :: j in keys ==> LexLe(rows[k].createdAt, rows[j].createdAt)
    {
      k :| k in keys;
      var todo := keys - {k};
      LexLeRefl(rows[k].createdAt);
      assert keys - todo == {k};
      while todo != {}
        invariant k in keys && todo <= keys
        invariant forall j :: j in keys - todo ==> LexLe(rows[k].createdAt, rows[j].createdAt)
        decreases todo
      {
        var j :| j in todo;
        if !LexLe(rows[k].createdAt, rows[j].createdAt) {
          LexLeTotal(rows[k].createdAt, rows[j].createdAt);
          forall x | x in keys - todo
            ensures LexLe(rows[j].createdAt, rows[x].createdAt)
          {
            LexLeTrans(rows[j].createdAt, rows[k].createdAt, rows[x].createdAt);
          }
          LexLeRefl(rows[j].createdAt);
          k := j;
        }
        todo := todo - {j};
      }
    }

    /** `SELECT value FROM config WHERE key = :k`. */
    method SelectConfig(key: string) returns (v: Option<string>)
      ensures v == if key in config then Some(config[key]) else None
    {
      v := if key in config then Some(config[key]) else None;
    }

    /** `UPDATE config SET value = :v WHERE key = :k`, returning `rowCount()`. */
    method UpdateConfig(key: string, value: string) returns (count: nat)
      modifies this
      ensures count == if key in old(config) then 1 else 0
      ensures config == if key in old(config) then old(config)[key := value] else old(config)
      ensures rows == old(rows) && saved == old(saved) && faults == old(faults)
    {
      if key in config {
        config := config[key := value];
        return 1;
      }
      return 0;
    }

    /** `INSERT INTO config (key, value) VALUES (:k, :v)`. */
    method InsertConfig(key: string, value: string) returns (r: Status)
      modifies this
      ensures r.Done? <==> key !in old(config)
      ensures config == if r.Done? then old(config)[key := value] else old(config)
      ensures rows == old(rows) && saved == old(saved) && faults == old(faults)
    {
      if key in config {
        return Raised(PDOException("UNIQUE constraint failed: config.key"));
      }
      config := config[key := value];
      return Done;
    }
  }
}
