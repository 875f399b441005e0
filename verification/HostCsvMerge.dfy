/** What an import may and may not do to a database, for any records, whether it runs to the end or fails on the
    way (src-tauri/src/data/host_csv.rs:183-310). */
module HostCsvMerge {
  import opened Wrappers
  import opened GroupForest
  import opened GroupPaths
  import opened HostTables
  import opened HostCsv
  import opened StableSort
  import opened Text

  /** Equal in id, label and every column the CSV does not carry. */
  ghost predicate SameLocal(g: Host, h: Host) {
    && g.id == h.id && g.hostLabel == h.hostLabel && g.vpnProfileId == h.vpnProfileId && g.color == h.color
    && g.icon == h.icon && g.sortOrder == h.sortOrder && g.lastConnectedAt == h.lastConnectedAt
    && g.isFavorite == h.isFavorite
  }

  ghost predicate KeptIn(hosts: seq<Host>, h: Host) { exists g :: g in hosts && SameLocal(h, g) }

  ghost predicate SameLinks(a: Links, b: Links, host: Id) { forall tag :: (host, tag) in a <==> (host, tag) in b }

  /** Groups and tags are only added, every host keeps what the CSV does not carry, and a host whose label is not
      among those touched keeps everything. */
  ghost predicate Merged(before: Db, after: Db, touched: set<string>) {
    && Grown(before.forest, after.forest)
    && (forall tag :: tag in before.tagTable.tags ==> tag in after.tagTable.tags)
    && after.identities == before.identities
    && (forall h :: h in before.hosts ==> KeptIn(after.hosts, h))
    && (forall h :: h in before.hosts && h.hostLabel !in touched
          ==> h in after.hosts && SameLinks(before.links, after.links, h.id))
  }

  lemma MergedTransitive(a: Db, b: Db, c: Db, s: set<string>, t: set<string>)
    requires Merged(a, b, s) && Merged(b, c, t)
    ensures Merged(a, c, s + t)
  {
    forall h | h in a.hosts ensures KeptIn(c.hosts, h) {
      var g :| g in b.hosts && SameLocal(h, g);
      var k :| k in c.hosts && SameLocal(g, k);
    }
    forall h | h in c.forest.groups && h !in a.forest.groups ensures a.forest.nextId <= h.id {
      if h in b.forest.groups { }
    }
  }

  /** The snapshot taken when the import began still describes hosts of the database. */
  ghost predicate KnownHost(db: Db, text: string, e: ListedHost) {
    && e.host.hostLabel == text && KeptIn(db.hosts, e.host)
    && DistinctIds(e.tags) && forall tag :: tag in e.tags ==> tag in db.tagTable.tags
  }

  ghost predicate SnapshotOk(db: Db, existing: Snapshot) {
    forall text :: text in existing ==> KnownHost(db, text, existing[text])
  }

  lemma {:induction false} SnapshotDescribes(db: Db, hosts: seq<Host>)
    requires DbOk(db) && forall h :: h in hosts ==> h in db.hosts
    ensures SnapshotOk(db, ByHostLabel(db, hosts))
  {
    if hosts != [] {
      var last := hosts[|hosts| - 1];
      SnapshotDescribes(db, hosts[..|hosts| - 1]);
      TagsOfAreDistinct(db.tagTable.tags, db.links, last.id);
      assert last in db.hosts && SameLocal(last, last);
    }
  }

  lemma SnapshotSurvives(before: Db, after: Db, touched: set<string>, existing: Snapshot)
    requires SnapshotOk(before, existing) && Merged(before, after, touched)
    ensures SnapshotOk(after, existing)
  {
    forall text | text in existing ensures KnownHost(after, text, existing[text]) {
      var e := existing[text];
      assert KnownHost(before, text, e);
      var g :| g in before.hosts && SameLocal(e.host, g);
      var h :| h in after.hosts && SameLocal(g, h);
    }
  }

  // ---------------------------------------------------------------- the parts of one row

  ghost predicate TagsExist(t: TagTable, ids: seq<Id>) {
    forall id :: id in ids ==> exists tag :: tag in t.tags && tag.id == id
  }

  /** A row's tags are distinct exactly when the cell repeats no label. */
  lemma RowTagsOk(db: Db, existing: Snapshot, rec: HostRecord)
    requires DbOk(db) && SnapshotOk(db, existing)
    ensures var (t, ids) := RowTags(db.tagTable, existing, rec);
      && TagsOk(t) && TagsExist(t, ids)
      && (forall tag :: tag in db.tagTable.tags ==> tag in t.tags)
      && (NoRepeats(ids) <==> NoRepeats(Cells(rec.tags, SEMICOLON)))
  {
    var texts := Cells(rec.tags, SEMICOLON);
    var (t, ids) := RowTags(db.tagTable, existing, rec);
    if rec.hostLabel in existing && texts == [] {
      assert KnownHost(db, rec.hostLabel, existing[rec.hostLabel]);
    } else {
      GetOrCreateAllOk(db.tagTable, texts);
      CellTagsDistinct(t, texts, ids);
    }
  }

  lemma CellTagsDistinct(t: TagTable, texts: seq<string>, ids: seq<Id>)
    requires TagsOk(t) && |texts| == |ids| && AllClean(texts, SEMICOLON)
    requires forall k :: 0 <= k < |ids| ==> HasTag(t, Trim(texts[k]), ids[k])
    ensures TagsExist(t, ids) && (NoRepeats(ids) <==> NoRepeats(texts))
  {
    forall k | 0 <= k < |ids| ensures HasTag(t, texts[k], ids[k]) {
      assert Clean(texts[k], SEMICOLON);
      TrimLeavesTrimmed(texts[k]);
    }
    forall i, j | 0 <= i < j < |ids| ensures ids[i] == ids[j] <==> texts[i] == texts[j] {
      TagIsUnique(t, texts[i], ids[i], texts[j], ids[j]);
    }
  }

  /** Groups and tags created, nothing else. */
  lemma GrownTablesMerge(db: Db, forest: Forest, tagTable: TagTable)
    requires DbOk(db) && Grown(db.forest, forest) && TagsOk(tagTable)
    requires forall tag :: tag in db.tagTable.tags ==> tag in tagTable.tags
    ensures DbOk(db.(forest := forest, tagTable := tagTable))
    ensures Merged(db, db.(forest := forest, tagTable := tagTable), {})
  {
    var after := db.(forest := forest, tagTable := tagTable);
    forall l | l in after.links ensures exists tag :: tag in tagTable.tags && tag.id == l.1 {
      var tag :| tag in db.tagTable.tags && tag.id == l.1;
      assert tag in tagTable.tags;
    }
    forall h | h in db.hosts ensures KeptIn(db.hosts, h) { assert SameLocal(h, h); }
  }

  lemma LinksOk(db: Db, links: Links, ok: bool, host: Id, tagIds: seq<Id>, nextHost: Id)
    requires DbOk(db) && TagsExist(db.tagTable, tagIds) && host < nextHost && db.nextHost <= nextHost
    requires (links, ok) == SetHostTags(db.links, host, tagIds)
    ensures forall l :: l in links ==> l.0 < nextHost
    ensures forall l :: l in links ==> exists tag :: tag in db.tagTable.tags && tag.id == l.1
    ensures forall other :: other != host ==> SameLinks(db.links, links, other)
    ensures ok <==> NoRepeats(tagIds)
  {
    SetHostTagsOk(db.links, host, tagIds);
    var kept := Unlinked(db.links, host);
    assert Unlinked(links, host) == kept;
    forall l | l in links ensures l in db.links || (l.0 == host && l.1 in tagIds) {
      if l.0 != host { assert l in Unlinked(links, host); }
    }
    forall other: Id, tag: Id | other != host ensures (other, tag) in db.links <==> (other, tag) in links {
      assert (other, tag) in db.links <==> (other, tag) in kept;
      assert (other, tag) in links <==> (other, tag) in Unlinked(links, host);
    }
  }

  lemma HostAt(db: Db, g: Host, h: Host)
    requires HostsOk(db) && g in db.hosts && h in db.hosts && g.id == h.id
    ensures g == h
  {
    var i :| 0 <= i < |db.hosts| && db.hosts[i] == g;
    var j :| 0 <= j < |db.hosts| && db.hosts[j] == h;
  }

  /** The rewritten row keeps the local columns of the host it was. */
  lemma RewrittenRowKeeps(db: Db, known: Host, input: HostInput, h: Host)
    requires HostsOk(db) && KeptIn(db.hosts, known) && h in db.hosts
    requires input.hostLabel == known.hostLabel && input.vpnProfileId == known.vpnProfileId
    requires input.color == known.color && input.icon == known.icon && input.sortOrder == known.sortOrder
    ensures KeptIn(UpdateRow(db.hosts, known.id, input), h)
    ensures h.hostLabel != known.hostLabel ==> h in UpdateRow(db.hosts, known.id, input) && h.id != known.id
  {
    var rows := UpdateRow(db.hosts, known.id, input);
    var row :| row in db.hosts && SameLocal(known, row);
    var k :| 0 <= k < |db.hosts| && db.hosts[k] == h;
    if h.id == known.id { HostAt(db, h, row); }
    assert rows[k] in rows && SameLocal(h, rows[k]);
  }

  lemma UpdatedRows(db: Db, known: Host, input: HostInput)
    requires HostsOk(db) && KeptIn(db.hosts, known)
    requires input.hostLabel == known.hostLabel && input.vpnProfileId == known.vpnProfileId
    requires input.color == known.color && input.icon == known.icon && input.sortOrder == known.sortOrder
    ensures var rows := UpdateRow(db.hosts, known.id, input);
      && (forall h :: h in db.hosts ==> KeptIn(rows, h))
      && (forall h :: h in db.hosts && h.hostLabel != known.hostLabel ==> h in rows && h.id != known.id)
      && HostsOk(db.(hosts := rows))
  {
    var rows := UpdateRow(db.hosts, known.id, input);
    forall h | h in db.hosts
      ensures KeptIn(rows, h) && (h.hostLabel != known.hostLabel ==> h in rows && h.id != known.id)
    {
      RewrittenRowKeeps(db, known, input, h);
    }
    forall h | h in rows ensures h.id < db.nextHost {
      var k :| 0 <= k < |rows| && rows[k] == h;
      assert db.hosts[k] in db.hosts;
    }
  }

  lemma UpdateMerges(db: Db, known: Host, input: HostInput)
    requires DbOk(db) && KeptIn(db.hosts, known) && TagsExist(db.tagTable, input.tagIds)
    requires input.hostLabel == known.hostLabel && input.vpnProfileId == known.vpnProfileId
    requires input.color == known.color && input.icon == known.icon && input.sortOrder == known.sortOrder
    ensures var a := UpdateHost(db, known.id, input);
      DbOk(a.db) && Merged(db, a.db, {known.hostLabel}) && (a.ok <==> NoRepeats(input.tagIds))
  {
    var row :| row in db.hosts && SameLocal(known, row);
    assert HasHost(db.hosts, known.id);
    UpdatedRows(db, known, input);
    var (links, ok) := SetHostTags(db.links, known.id, input.tagIds);
    LinksOk(db, links, ok, known.id, input.tagIds, db.nextHost);
  }

  lemma SpliceKeepsHosts(hosts: seq<Host>, made: Host, at: nat)
    requires at <= |hosts| && forall i, j :: 0 <= i < j < |hosts| ==> hosts[i].id != hosts[j].id
    requires forall k :: 0 <= k < |hosts| ==> hosts[k].id < made.id
    ensures var rows := hosts[..at] + [made] + hosts[at..];
      && (forall i, j :: 0 <= i < j < |rows| ==> rows[i].id != rows[j].id)
      && (forall h :: h in rows <==> h in hosts || h == made)
  {
    assert hosts == hosts[..at] + hosts[at..];
  }

  lemma CreatedRows(db: Db, input: HostInput)
    requires HostsOk(db)
    ensures var rows := Insert(db.hosts, NewHost(db.nextHost, input), BySortOrderOf);
      && (forall h :: h in db.hosts ==> h in rows)
      && HostsOk(db.(hosts := rows, nextHost := db.nextHost + 1))
  {
    var made := NewHost(db.nextHost, input);
    var at := InsertPosition(db.hosts, made, BySortOrderOf);
    forall k | 0 <= k < |db.hosts| ensures db.hosts[k].id < db.nextHost {
      assert db.hosts[k] in db.hosts;
    }
    SpliceKeepsHosts(db.hosts, made, at);
  }

  lemma CreateMerges(db: Db, input: HostInput)
    requires DbOk(db) && TagsExist(db.tagTable, input.tagIds)
    ensures var a := CreateHost(db, input);
      DbOk(a.db) && Merged(db, a.db, {}) && (a.ok <==> NoRepeats(input.tagIds))
  {
    CreatedRows(db, input);
    var a := CreateHost(db, input);
    var (links, ok) := SetHostTags(db.links, db.nextHost, input.tagIds);
    LinksOk(db, links, ok, db.nextHost, input.tagIds, db.nextHost + 1);
    forall h | h in db.hosts ensures KeptIn(a.db.hosts, h) { assert SameLocal(h, h); }
  }

  // ---------------------------------------------------------------- one row, all rows

  /** The database after a row's groups and tags have been looked up or created. */
  function Prepared(db: Db, existing: Snapshot, rec: HostRecord): Db {
    db.(forest := ResolvePath(db.forest, rec.groupPath).0, tagTable := RowTags(db.tagTable, existing, rec).0)
  }

  /** All that matters about a stretch of an import. */
  ghost predicate Progress(before: Db, after: Db, existing: Snapshot, touched: set<string>) {
    DbOk(after) && SnapshotOk(after, existing) && Merged(before, after, touched)
  }

  lemma ProgressTransitive(a: Db, b: Db, c: Db, existing: Snapshot, s: set<string>, t: set<string>)
    requires Progress(a, b, existing, s) && Progress(b, c, existing, t)
    ensures Progress(a, c, existing, s + t)
  {
    MergedTransitive(a, b, c, s, t);
  }

  lemma RowPrepared(db: Db, existing: Snapshot, rec: HostRecord)
    requires DbOk(db) && SnapshotOk(db, existing)
    ensures Progress(db, Prepared(db, existing, rec), existing, {})
    ensures TagsExist(Prepared(db, existing, rec).tagTable, RowTags(db.tagTable, existing, rec).1)
    ensures NoRepeats(RowTags(db.tagTable, existing, rec).1) <==> NoRepeats(Cells(rec.tags, SEMICOLON))
  {
    ResolveGrowsForest(db.forest, Segments(rec.groupPath));
    RowTagsOk(db, existing, rec);
    GrownTablesMerge(db, ResolvePath(db.forest, rec.groupPath).0, RowTags(db.tagTable, existing, rec).0);
    SnapshotSurvives(db, Prepared(db, existing, rec), {}, existing);
  }

  /** The label of the host a row rewrites; a label unknown when the import began gets a new host instead. */
  function TouchedBy(existing: Snapshot, rec: HostRecord): set<string> {
    if rec.hostLabel in existing then {rec.hostLabel} else {}
  }

  lemma WriteMerges(db: Db, existing: Snapshot, rec: HostRecord, input: HostInput)
    requires DbOk(db) && SnapshotOk(db, existing) && TagsExist(db.tagTable, input.tagIds)
    requires input == RowInput(existing, rec, input.groupId, input.identityId, input.tagIds)
    ensures var a := WriteRow(db, existing, rec, input);
      DbOk(a.db) && Merged(db, a.db, TouchedBy(existing, rec)) && (a.ok <==> NoRepeats(input.tagIds))
  {
    if rec.hostLabel in existing {
      assert KnownHost(db, rec.hostLabel, existing[rec.hostLabel]);
      UpdateMerges(db, existing[rec.hostLabel].host, input);
    } else {
      CreateMerges(db, input);
    }
  }

  lemma RowWritten(before: Db, db: Db, existing: Snapshot, rec: HostRecord, input: HostInput)
    requires Progress(before, db, existing, {}) && TagsExist(db.tagTable, input.tagIds)
    requires input == RowInput(existing, rec, input.groupId, input.identityId, input.tagIds)
    ensures Progress(before, WriteRow(db, existing, rec, input).db, existing, TouchedBy(existing, rec))
    ensures WriteRow(db, existing, rec, input).ok <==> NoRepeats(input.tagIds)
  {
    var after := WriteRow(db, existing, rec, input).db;
    WriteMerges(db, existing, rec, input);
    SnapshotSurvives(db, after, TouchedBy(existing, rec), existing);
    MergedTransitive(before, db, after, {}, TouchedBy(existing, rec));
    assert {} + TouchedBy(existing, rec) == TouchedBy(existing, rec);
  }

  lemma RowMerges(db: Db, existing: Snapshot, rec: HostRecord)
    requires DbOk(db) && SnapshotOk(db, existing)
    ensures Progress(db, RowImported(db, existing, rec).db, existing, TouchedBy(existing, rec))
    ensures RowImported(db, existing, rec).ok <==> NoRepeats(Cells(rec.tags, SEMICOLON))
  {
    var input := RowInput(existing, rec, ResolvePath(db.forest, rec.groupPath).1, IdentityFor(db.identities, rec),
                          RowTags(db.tagTable, existing, rec).1);
    RowPrepared(db, existing, rec);
    RowWritten(db, Prepared(db, existing, rec), existing, rec, input);
  }

  /** The labels of the known hosts with a row. */
  function Touched(existing: Snapshot, records: seq<HostRecord>): set<string> {
    set r | r in records && r.hostLabel in existing :: r.hostLabel
  }

  lemma MergedNothing(db: Db)
    requires DbOk(db)
    ensures Merged(db, db, {})
  {
    forall h | h in db.hosts ensures KeptIn(db.hosts, h) { assert SameLocal(h, h); }
  }

  ghost predicate CellsDistinct(records: seq<HostRecord>) {
    forall r :: r in records ==> NoRepeats(Cells(r.tags, SEMICOLON))
  }

  lemma {:induction false} RowsMerge(db: Db, existing: Snapshot, records: seq<HostRecord>)
    requires DbOk(db) && SnapshotOk(db, existing)
    ensures Progress(db, RowsImported(db, existing, records).db, existing, Touched(existing, records))
    ensures RowsImported(db, existing, records).ok <==> CellsDistinct(records)
  {
    if records == [] {
      MergedNothing(db);
    } else {
      var front, last := records[..|records| - 1], records[|records| - 1];
      var before := RowsImported(db, existing, front);
      RowsMerge(db, existing, front);
      LastRecord(existing, records);
      if before.ok {
        RowMerges(before.db, existing, last);
        ProgressTransitive(db, before.db, RowImported(before.db, existing, last).db, existing,
                           Touched(existing, front), TouchedBy(existing, last));
      } else {
        MoreTouched(db, before.db, existing, Touched(existing, front), Touched(existing, records));
      }
    }
  }

  lemma LastRecord(existing: Snapshot, records: seq<HostRecord>)
    requires records != []
    ensures var front, last := records[..|records| - 1], records[|records| - 1];
      && Touched(existing, records) == Touched(existing, front) + TouchedBy(existing, last)
      && (CellsDistinct(records) <==> CellsDistinct(front) && NoRepeats(Cells(last.tags, SEMICOLON)))
  {
    assert records == records[..|records| - 1] + [records[|records| - 1]];
  }

  lemma MoreTouched(before: Db, after: Db, existing: Snapshot, s: set<string>, t: set<string>)
    requires Progress(before, after, existing, s) && s <= t
    ensures Progress(before, after, existing, t)
  {
  }

  /** An import succeeds exactly when no row repeats a tag, for any records and any database. */
  lemma ImportSucceedsIffTagsDistinct(db: Db, records: seq<HostRecord>)
    requires DbOk(db)
    ensures RowsImported(db, Existing(db), records).ok <==> CellsDistinct(records)
  {
    SnapshotDescribes(db, db.hosts);
    RowsMerge(db, Existing(db), records);
  }

  /** Whatever is imported, and wherever it stops: no host is lost, no host changes but those whose label was known
      and has a row, groups and tags are only added, siblings stay distinct, and all keys stay intact. */
  lemma ImportMerges(db: Db, records: seq<HostRecord>)
    requires DbOk(db)
    ensures var after := RowsImported(db, Existing(db), records).db;
            DbOk(after) && Merged(db, after, Touched(Existing(db), records))
  {
    SnapshotDescribes(db, db.hosts);
    RowsMerge(db, Existing(db), records);
  }

  /** What a row that succeeded has put into its host: every cell, read as the format says. */
  ghost predicate Shows(db: Db, h: Host, rec: HostRecord, groupId: Option<Id>, tagIds: seq<Id>) {
    && h in db.hosts && h.hostLabel == rec.hostLabel && h.hostname == rec.hostname && h.port == rec.port
    && h.groupId == groupId && h.identityId == IdentityFor(db.identities, rec) && h.notes == NotesOf(rec)
    && forall tag :: (h.id, tag) in db.links <==> tag in tagIds
  }

  /** The host a row writes to: the known one, or a new one. */
  function RowHost(existing: Snapshot, rec: HostRecord, nextHost: Id): Id {
    if rec.hostLabel in existing then existing[rec.hostLabel].host.id else nextHost
  }

  /** The columns a row leaves alone are the known host's, or blank. */
  ghost predicate LocalColumns(existing: Snapshot, rec: HostRecord, h: Host) {
    if rec.hostLabel in existing then SameLocal(existing[rec.hostLabel].host, h)
    else
      && h.vpnProfileId.None? && h.color.None? && h.icon.None? && h.sortOrder == 0 && h.lastConnectedAt.None?
      && !h.isFavorite
  }

  /** The row's own host shows its cells. */
  ghost predicate RowShown(db: Db, existing: Snapshot, rec: HostRecord, id: Id, groupId: Option<Id>, tagIds: seq<Id>) {
    exists h: Host :: h.id == id && LocalColumns(existing, rec, h) && Shows(db, h, rec, groupId, tagIds)
  }

  lemma LinksAreCell(links: Links, host: Id, tagIds: seq<Id>)
    requires SetHostTags(links, host, tagIds).1
    ensures forall tag :: (host, tag) in SetHostTags(links, host, tagIds).0 <==> tag in tagIds
  {
    SetHostTagsOk(links, host, tagIds);
    forall tag: Id | tag in tagIds ensures (host, tag) in SetHostTags(links, host, tagIds).0 {
      assert (host, tag) in LinksTo(host, tagIds);
    }
  }

  lemma WrittenRow(db: Db, existing: Snapshot, rec: HostRecord, input: HostInput)
    requires DbOk(db) && SnapshotOk(db, existing)
    requires input == RowInput(existing, rec, input.groupId, IdentityFor(db.identities, rec), input.tagIds)
    requires WriteRow(db, existing, rec, input).ok
    ensures RowShown(WriteRow(db, existing, rec, input).db, existing, rec, RowHost(existing, rec, db.nextHost),
                     input.groupId, input.tagIds)
  {
    var after := WriteRow(db, existing, rec, input).db;
    if rec.hostLabel in existing {
      assert KnownHost(db, rec.hostLabel, existing[rec.hostLabel]);
      var id := existing[rec.hostLabel].host.id;
      LinksAreCell(db.links, id, input.tagIds);
      var row :| row in db.hosts && SameLocal(existing[rec.hostLabel].host, row);
      var k :| 0 <= k < |db.hosts| && db.hosts[k] == row;
      assert after.hosts[k] in after.hosts;
      assert Shows(after, after.hosts[k], rec, input.groupId, input.tagIds);
    } else {
      LinksAreCell(db.links, db.nextHost, input.tagIds);
      var made := NewHost(db.nextHost, input);
      var at := InsertPosition(db.hosts, made, BySortOrderOf);
      assert after.hosts[at] == made;
      assert Shows(after, made, rec, input.groupId, input.tagIds);
    }
  }

  /** A row that succeeds leaves a host with its label, the known one or a new one, that shows exactly its cells: the
      group its path resolves to, the identity both cells name, its notes or none, and its tags, or the old ones for an
      empty cell. */
  lemma RowIsWritten(db: Db, existing: Snapshot, rec: HostRecord)
    requires DbOk(db) && SnapshotOk(db, existing)
    ensures RowImported(db, existing, rec).ok ==>
      RowShown(RowImported(db, existing, rec).db, existing, rec, RowHost(existing, rec, db.nextHost),
               ResolvePath(db.forest, rec.groupPath).1, RowTags(db.tagTable, existing, rec).1)
  {
    if RowImported(db, existing, rec).ok {
      RowPrepared(db, existing, rec);
      WrittenRow(Prepared(db, existing, rec), existing, rec,
                 RowInput(existing, rec, ResolvePath(db.forest, rec.groupPath).1, IdentityFor(db.identities, rec),
                          RowTags(db.tagTable, existing, rec).1));
    }
  }

  /** `imported` counts the hosts the import added. */
  lemma {:induction false} ImportCountsHosts(db: Db, existing: Snapshot, records: seq<HostRecord>)
    ensures var a := RowsImported(db, existing, records);
            a.ok ==> |a.db.hosts| == |db.hosts| + NewCount(existing, records)
  {
    if records != [] {
      var front, last := records[..|records| - 1], records[|records| - 1];
      ImportCountsHosts(db, existing, front);
      var before := RowsImported(db, existing, front).db;
      var input := RowInput(existing, last, ResolvePath(before.forest, last.groupPath).1,
                            IdentityFor(before.identities, last), RowTags(before.tagTable, existing, last).1);
      InsertMembers(before.hosts, NewHost(before.nextHost, input), BySortOrderOf);
    }
  }
}
