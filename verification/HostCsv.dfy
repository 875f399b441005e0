/** Exporting the host list to CSV records and merging such records back in (src-tauri/src/data/host_csv.rs),
    at the level of records: quoting and the UTF-8 encoding belong to the csv crate. */
module HostCsv {
  import opened Wrappers
  import opened GroupForest
  import opened GroupPaths
  import opened HostTables
  import opened StableSort
  import opened Text

  const SEMICOLON := ';'

  datatype HostRecord = HostRecord(
    hostLabel: string, hostname: string, port: nat, groupPath: string, identityLabel: string,
    identityUsername: string, notes: string, tags: string)

  /** A host as `hosts::list` returns it, with its tags. */
  datatype ListedHost = ListedHost(host: Host, tags: seq<Tag>)

  type Snapshot = map<string, ListedHost>

  datatype Warning = Warning(row: nat, hostLabel: string, identityLabel: string, identityUsername: string)

  datatype ImportSummary = ImportSummary(imported: nat, updated: nat, warnings: seq<Warning>)

  // ---------------------------------------------------------------- export

  /** The identities collected into a `HashMap` by id: the last of several wins. */
  function IdentityById(identities: seq<Identity>, id: Id): Option<Identity> {
    if identities == [] then None
    else if identities[|identities| - 1].id == id then Some(identities[|identities| - 1])
    else IdentityById(identities[..|identities| - 1], id)
  }

  function OrBlank(s: Option<string>): string { if s.Some? then s.value else "" }

  /** A host's record, given its group's path. */
  function RecordWith(db: Db, h: Host, path: string): HostRecord {
    var identity := if h.identityId.Some? then IdentityById(db.identities, h.identityId.value) else None;
    HostRecord(
      h.hostLabel, h.hostname, h.port, path,
      if identity.Some? then identity.value.identityLabel else "",
      if identity.Some? then identity.value.username else "",
      OrBlank(h.notes),
      Join(LabelsOf(TagsOf(db.tagTable.tags, db.links, h.id)), SEMICOLON))
  }

  function GroupPathOf(groups: seq<Group>, groupId: Option<Id>): string {
    if groupId.Some? then PathOf(groups, groupId.value) else ""
  }

  function RecordOf(db: Db, h: Host): HostRecord { RecordWith(db, h, GroupPathOf(db.forest.groups, h.groupId)) }

  ghost predicate IsExport(db: Db, records: seq<HostRecord>) {
    |records| == |db.hosts| && forall k :: 0 <= k < |records| ==> records[k] == RecordOf(db, db.hosts[k])
  }

  // ---------------------------------------------------------------- import, one row

  function FindIdentity(identities: seq<Identity>, text: string, username: string): (id: Option<Id>)
    ensures id.Some?
        ==> exists i :: i in identities && i.id == id.value && i.identityLabel == text && i.username == username
    ensures id.None? <==> forall i :: i in identities ==> !(i.identityLabel == text && i.username == username)
  {
    if identities == [] then None
    else if identities[0].identityLabel == text && identities[0].username == username then Some(identities[0].id)
    else FindIdentity(identities[1..], text, username)
  }

  /** Both cells have to be filled in and both have to match. */
  function IdentityFor(identities: seq<Identity>, rec: HostRecord): Option<Id> {
    if Trim(rec.identityUsername) == "" || Trim(rec.identityLabel) == "" then None
    else FindIdentity(identities, rec.identityLabel, rec.identityUsername)
  }

  predicate Warned(identities: seq<Identity>, rec: HostRecord) {
    IdentityFor(identities, rec).None? && Trim(rec.identityUsername) != ""
  }

  /** An identity is linked only when label and user name are both given and both its own: a row that names a user
      alone, or a blank label, never gets one. */
  lemma IdentityNeedsBoth(identities: seq<Identity>, rec: HostRecord)
    ensures forall id :: IdentityFor(identities, rec) == Some(id) ==>
              (exists i :: i in identities && i.id == id && Names(rec, i))
    ensures IdentityFor(identities, rec).None? <==> forall i :: i in identities ==> !Names(rec, i)
  {
  }

  /** Of several such identities the first in the list is linked. */
  lemma {:induction false} FirstIdentity(identities: seq<Identity>, text: string, username: string)
    ensures FindIdentity(identities, text, username).Some? ==>
              exists k :: 0 <= k < |identities| && FindIdentity(identities, text, username) == Some(identities[k].id)
                          && identities[k].identityLabel == text && identities[k].username == username
                          && forall m :: 0 <= m < k ==>
                               !(identities[m].identityLabel == text && identities[m].username == username)
  {
    if identities != [] && !(identities[0].identityLabel == text && identities[0].username == username) {
      var rest := identities[1..];
      FirstIdentity(rest, text, username);
      if FindIdentity(rest, text, username).Some? {
        var k :| 0 <= k < |rest| && FindIdentity(rest, text, username) == Some(rest[k].id)
                 && rest[k].identityLabel == text && rest[k].username == username
                 && forall m :: 0 <= m < k ==> !(rest[m].identityLabel == text && rest[m].username == username);
        assert identities[k + 1] == rest[k];
        forall m | 0 <= m < k + 1
          ensures !(identities[m].identityLabel == text && identities[m].username == username)
        {
          if m > 0 { assert identities[m] == rest[m - 1]; }
        }
      }
    }
  }

  /** The row gives both cells of the identity. */
  predicate Names(rec: HostRecord, i: Identity) {
    && Trim(rec.identityLabel) != "" && Trim(rec.identityUsername) != ""
    && i.identityLabel == rec.identityLabel && i.username == rec.identityUsername
  }

  function NotesOf(rec: HostRecord): Option<string> { if Trim(rec.notes) == "" then None else Some(rec.notes) }

  /** The hosts by label, each with its tags: of several hosts with one label the last wins. */
  function ByHostLabel(db: Db, hosts: seq<Host>): Snapshot {
    if hosts == [] then map[]
    else
      var last := hosts[|hosts| - 1];
      ByHostLabel(db, hosts[..|hosts| - 1])
        [last.hostLabel := ListedHost(last, TagsOf(db.tagTable.tags, db.links, last.id))]
  }

  function Existing(db: Db): Snapshot { ByHostLabel(db, db.hosts) }

  /** The tags a row gives its host: for a known host an empty cell means the tags it had when the import began. */
  function RowTags(tagTable: TagTable, existing: Snapshot, rec: HostRecord): (TagTable, seq<Id>) {
    var texts := Cells(rec.tags, SEMICOLON);
    if rec.hostLabel in existing && texts == [] then (tagTable, IdsOf(existing[rec.hostLabel].tags))
    else GetOrCreateAll(tagTable, texts)
  }

  /** What a row writes to its host; the columns the format does not carry come from the known host. */
  function RowInput(existing: Snapshot, rec: HostRecord, groupId: Option<Id>, identityId: Option<Id>, tagIds: seq<Id>)
    : HostInput
  {
    if rec.hostLabel in existing then
      var h := existing[rec.hostLabel].host;
      HostInput(groupId, rec.hostLabel, rec.hostname, rec.port, identityId, h.vpnProfileId, h.color, h.icon,
                NotesOf(rec), h.sortOrder, tagIds)
    else
      HostInput(groupId, rec.hostLabel, rec.hostname, rec.port, identityId, None, None, None, NotesOf(rec), 0, tagIds)
  }

  function WriteRow(db: Db, existing: Snapshot, rec: HostRecord, input: HostInput): Attempt {
    if rec.hostLabel in existing then UpdateHost(db, existing[rec.hostLabel].host.id, input)
    else CreateHost(db, input)
  }

  function RowImported(db: Db, existing: Snapshot, rec: HostRecord): Attempt {
    var (forest, groupId) := ResolvePath(db.forest, rec.groupPath);
    var (tagTable, tagIds) := RowTags(db.tagTable, existing, rec);
    var input := RowInput(existing, rec, groupId, IdentityFor(db.identities, rec), tagIds);
    WriteRow(db.(forest := forest, tagTable := tagTable), existing, rec, input)
  }

  /** Row after row, until one fails. */
  function RowsImported(db: Db, existing: Snapshot, records: seq<HostRecord>): Attempt {
    if records == [] then Attempt(db, true)
    else
      var before := RowsImported(db, existing, records[..|records| - 1]);
      if before.ok then RowImported(before.db, existing, records[|records| - 1]) else before
  }

  function NewCount(existing: Snapshot, records: seq<HostRecord>): (n: nat)
    ensures n <= |records|
  {
    if records == [] then 0
    else NewCount(existing, records[..|records| - 1]) + (if records[|records| - 1].hostLabel in existing then 0 else 1)
  }

  function WarningsOf(identities: seq<Identity>, records: seq<HostRecord>): seq<Warning> {
    if records == [] then []
    else
      var last := records[|records| - 1];
      WarningsOf(identities, records[..|records| - 1])
      + if Warned(identities, last)
        then [Warning(|records| + 1, last.hostLabel, last.identityLabel, last.identityUsername)]
        else []
  }

  lemma {:induction false} FailureStops(db: Db, existing: Snapshot, records: seq<HostRecord>, n: nat)
    requires n <= |records| && !RowsImported(db, existing, records[..n]).ok
    ensures RowsImported(db, existing, records) == RowsImported(db, existing, records[..n])
  {
    if n == |records| {
      assert records[..n] == records;
    } else {
      assert records[..|records| - 1][..n] == records[..n];
      FailureStops(db, existing, records[..|records| - 1], n);
    }
  }

  lemma {:induction false} RowsKeepIdentities(db: Db, existing: Snapshot, records: seq<HostRecord>)
    ensures RowsImported(db, existing, records).db.identities == db.identities
  {
    if records != [] {
      RowsKeepIdentities(db, existing, records[..|records| - 1]);
    }
  }

  /** One more row: what it adds to the counts, the warnings and the database. */
  lemma OneMoreRow(db: Db, existing: Snapshot, records: seq<HostRecord>, i: nat)
    requires i < |records|
    ensures var before, rec := RowsImported(db, existing, records[..i]), records[i];
            && (before.ok ==> RowsImported(db, existing, records[..i + 1]) == RowImported(before.db, existing, rec))
            && before.db.identities == db.identities
            && NewCount(existing, records[..i + 1])
               == NewCount(existing, records[..i]) + (if rec.hostLabel in existing then 0 else 1)
            && WarningsOf(db.identities, records[..i + 1])
               == WarningsOf(db.identities, records[..i])
                  + (if Warned(db.identities, rec)
                     then [Warning(i + 2, rec.hostLabel, rec.identityLabel, rec.identityUsername)]
                     else [])
  {
    assert records[..i + 1][..i] == records[..i];
    RowsKeepIdentities(db, existing, records[..i]);
  }

  // ---------------------------------------------------------------- the database connection

  /** The SQLite connection every function of the module is handed. */
  class Connection {
    var db: Db

    constructor (db: Db)
      ensures this.db == db
    {
      this.db := db;
    }

    method GetOrCreateTag(text: string) returns (id: Id)
      modifies this
      ensures (db.tagTable, id) == GetOrCreate(old(db.tagTable), text)
      ensures db == old(db).(tagTable := db.tagTable)
    {
      var trimmed := Trim(text);
      var existing := FindTag(db.tagTable.tags, trimmed);
      if existing.Some? {
        return existing.value;
      }
      id := db.tagTable.nextId;
      db := db.(tagTable := TagTable(Insert(db.tagTable.tags, Tag(id, trimmed), ByTagLabel), id + 1));
    }

    method ResolveTagIds(texts: seq<string>) returns (ids: seq<Id>)
      modifies this
      ensures (db.tagTable, ids) == GetOrCreateAll(old(db.tagTable), texts)
      ensures db == old(db).(tagTable := db.tagTable)
    {
      ids := [];
      for i := 0 to |texts|
        invariant (db.tagTable, ids) == GetOrCreateAll(old(db.tagTable), texts[..i])
        invariant db == old(db).(tagTable := db.tagTable)
      {
        assert texts[..i + 1][..i] == texts[..i];
        var id := GetOrCreateTag(texts[i]);
        ids := ids + [id];
      }
      assert texts[..|texts|] == texts;
    }

    method SetHostTags(host: Id, tagIds: seq<Id>) returns (ok: bool)
      modifies this
      ensures (db.links, ok) == HostTables.SetHostTags(old(db.links), host, tagIds)
      ensures db == old(db).(links := db.links)
    {
      db := db.(links := Unlinked(db.links, host));
      for i := 0 to |tagIds|
        invariant LinkAll(db.links, host, tagIds[i..]) == HostTables.SetHostTags(old(db.links), host, tagIds)
        invariant db == old(db).(links := db.links)
      {
        if (host, tagIds[i]) in db.links {
          return false;
        }
        db := db.(links := db.links + {(host, tagIds[i])});
        assert tagIds[i..][1..] == tagIds[i + 1..];
      }
      ok := true;
    }

    method CreateHost(input: HostInput) returns (ok: bool)
      modifies this
      ensures Attempt(db, ok) == HostTables.CreateHost(old(db), input)
    {
      var id := db.nextHost;
      db := db.(hosts := Insert(db.hosts, NewHost(id, input), BySortOrderOf), nextHost := id + 1);
      ok := SetHostTags(id, input.tagIds);
    }

    method UpdateHost(id: Id, input: HostInput) returns (ok: bool)
      modifies this
      ensures Attempt(db, ok) == HostTables.UpdateHost(old(db), id, input)
    {
      if !HasHost(db.hosts, id) {
        return false;
      }
      db := db.(hosts := UpdateRow(db.hosts, id, input));
      ok := SetHostTags(id, input.tagIds);
    }

    method ExportCsv() returns (records: seq<HostRecord>)
      ensures IsExport(db, records)
    {
      var byId := ById(db.forest.groups);
      records := [];
      for i := 0 to |db.hosts|
        invariant |records| == i
        invariant forall k :: 0 <= k < i ==> records[k] == RecordOf(db, db.hosts[k])
      {
        var h := db.hosts[i];
        var path := "";
        if h.groupId.Some? {
          path := GroupPath(h.groupId.value, byId);
        }
        assert path == GroupPathOf(db.forest.groups, h.groupId);
        records := records + [RecordWith(db, h, path)];
      }
    }

    method ImportRow(existing: Snapshot, rec: HostRecord, cache: Cache) returns (ok: bool, newCache: Cache)
      requires CacheOk(db.forest.groups, cache)
      modifies this
      ensures Attempt(db, ok) == RowImported(old(db), existing, rec)
      ensures CacheOk(db.forest.groups, newCache)
    {
      var forest, groupId, cached := ResolveGroupPath(db.forest, rec.groupPath, cache);
      newCache := cached;
      db := db.(forest := forest);
      var identityId := IdentityFor(db.identities, rec);
      var texts := Cells(rec.tags, SEMICOLON);
      if rec.hostLabel in existing {
        var known := existing[rec.hostLabel];
        var tagIds := IdsOf(known.tags);
        if texts != [] {
          tagIds := ResolveTagIds(texts);
        }
        ok := UpdateHost(known.host.id, RowInput(existing, rec, groupId, identityId, tagIds));
      } else {
        var tagIds := ResolveTagIds(texts);
        ok := CreateHost(RowInput(existing, rec, groupId, identityId, tagIds));
      }
    }

    /** The import: on failure everything written so far stays. */
    method ImportCsv(records: seq<HostRecord>) returns (r: Result<ImportSummary, string>)
      modifies this
      ensures db == RowsImported(old(db), Existing(old(db)), records).db
      ensures r.Ok? <==> RowsImported(old(db), Existing(old(db)), records).ok
      ensures r.Ok? ==> r.value == ImportSummary(
        NewCount(Existing(old(db)), records), |records| - NewCount(Existing(old(db)), records),
        WarningsOf(old(db).identities, records))
    {
      var identities := db.identities;
      var existing := Existing(db);
      var cache: Cache := map[];
      var imported, updated, warnings := 0, 0, [];
      for i := 0 to |records|
        invariant Attempt(db, true) == RowsImported(old(db), existing, records[..i])
        invariant imported == NewCount(existing, records[..i]) && updated == i - imported
        invariant warnings == WarningsOf(identities, records[..i])
        invariant CacheOk(db.forest.groups, cache)
      {
        var rec := records[i];
        OneMoreRow(old(db), existing, records, i);
        if Warned(identities, rec) {
          warnings := warnings + [Warning(i + 2, rec.hostLabel, rec.identityLabel, rec.identityUsername)];
        }
        if rec.hostLabel in existing { updated := updated + 1; } else { imported := imported + 1; }
        var ok;
        ok, cache := ImportRow(existing, rec, cache);
        if !ok {
          FailureStops(old(db), existing, records, i + 1);
          return Err("UNIQUE constraint failed: host_tags.host_id, host_tags.tag_id");
        }
      }
      assert records[..|records|] == records;
      r := Ok(ImportSummary(imported, updated, warnings));
    }
  }
}
