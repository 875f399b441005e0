/** What a whole import leaves in the database for the records it was given, and what stops it
    (src-tauri/src/data/host_csv.rs:181-310). */
module HostCsvOutcome {
  import opened Wrappers
  import opened GroupForest
  import opened GroupPaths
  import opened HostTables
  import opened HostCsv
  import opened HostCsvMerge
  import opened Text

  /** The host carries the tag with this label. */
  ghost predicate HasLabel(db: Db, host: Id, text: string) {
    exists tag :: tag in db.tagTable.tags && tag.tagLabel == text && (host, tag.id) in db.links
  }

  /** The labels a record asks for: its cell's, or, for a known host and an empty cell, those the host had. */
  ghost predicate Asks(existing: Snapshot, rec: HostRecord, text: string) {
    if rec.hostLabel in existing && Cells(rec.tags, SEMICOLON) == [] then
      exists tag :: tag in existing[rec.hostLabel].tags && tag.tagLabel == text
    else text in Cells(rec.tags, SEMICOLON)
  }

  /** The host shows every cell of the record, as the tables now read. */
  ghost predicate ShowsCells(db: Db, existing: Snapshot, h: Host, rec: HostRecord) {
    && h in db.hosts && h.hostLabel == rec.hostLabel && h.hostname == rec.hostname && h.port == rec.port
    && Exists(db.forest.groups, Segments(rec.groupPath))
    && h.groupId == Walk(db.forest.groups, Segments(rec.groupPath))
    && h.identityId == IdentityFor(db.identities, rec) && h.notes == NotesOf(rec)
    && forall text :: HasLabel(db, h.id, text) <==> Asks(existing, rec, text)
  }

  ghost predicate Shown(db: Db, existing: Snapshot, rec: HostRecord, id: Id) {
    exists h: Host :: h.id == id && LocalColumns(existing, rec, h) && ShowsCells(db, existing, h, rec)
  }

  // ---------------------------------------------------------------- tags by label

  lemma TagAt(t: TagTable, a: Tag, b: Tag)
    requires TagsOk(t) && a in t.tags && b in t.tags && a.id == b.id
    ensures a == b
  {
    var i :| 0 <= i < |t.tags| && t.tags[i] == a;
    var j :| 0 <= j < |t.tags| && t.tags[j] == b;
  }

  /** The ids a row links are those of the labels it asks for. */
  lemma RowTagsAsked(db: Db, existing: Snapshot, rec: HostRecord, tag: Tag)
    requires DbOk(db) && SnapshotOk(db, existing) && tag in RowTags(db.tagTable, existing, rec).0.tags
    ensures tag.id in RowTags(db.tagTable, existing, rec).1 <==> Asks(existing, rec, tag.tagLabel)
  {
    var texts := Cells(rec.tags, SEMICOLON);
    var (t, ids) := RowTags(db.tagTable, existing, rec);
    if rec.hostLabel in existing && texts == [] {
      var tags := existing[rec.hostLabel].tags;
      assert KnownHost(db, rec.hostLabel, existing[rec.hostLabel]);
      if tag.id in ids {
        var k :| 0 <= k < |ids| && ids[k] == tag.id;
        assert tags[k] in tags;
        TagAt(t, tags[k], tag);
      }
      if other :| other in tags && other.tagLabel == tag.tagLabel {
        assert HasTag(t, tag.tagLabel, tag.id) && HasTag(t, tag.tagLabel, other.id);
        TagIsUnique(t, tag.tagLabel, tag.id, tag.tagLabel, other.id);
        var k :| 0 <= k < |tags| && tags[k] == other;
        assert ids[k] == tag.id;
      }
    } else {
      GetOrCreateAllOk(db.tagTable, texts);
      CellIdsAsked(t, texts, ids, tag);
    }
  }

  lemma CellIdsAsked(t: TagTable, texts: seq<string>, ids: seq<Id>, tag: Tag)
    requires TagsOk(t) && |texts| == |ids| && AllClean(texts, SEMICOLON) && tag in t.tags
    requires forall k :: 0 <= k < |ids| ==> HasTag(t, Trim(texts[k]), ids[k])
    ensures tag.id in ids <==> tag.tagLabel in texts
  {
    assert HasTag(t, tag.tagLabel, tag.id);
    forall k | 0 <= k < |ids| ensures ids[k] == tag.id <==> texts[k] == tag.tagLabel {
      assert Clean(texts[k], SEMICOLON);
      TrimLeavesTrimmed(texts[k]);
      TagIsUnique(t, texts[k], ids[k], tag.tagLabel, tag.id);
    }
  }

  /** Every label asked for has a tag after the row. */
  lemma AskedHasTag(db: Db, existing: Snapshot, rec: HostRecord, text: string)
    requires DbOk(db) && SnapshotOk(db, existing) && Asks(existing, rec, text)
    ensures exists tag :: tag in RowTags(db.tagTable, existing, rec).0.tags && tag.tagLabel == text
  {
    var texts := Cells(rec.tags, SEMICOLON);
    var (t, ids) := RowTags(db.tagTable, existing, rec);
    if rec.hostLabel in existing && texts == [] {
      assert KnownHost(db, rec.hostLabel, existing[rec.hostLabel]);
    } else {
      GetOrCreateAllOk(db.tagTable, texts);
      var k :| 0 <= k < |texts| && texts[k] == text;
      assert Clean(texts[k], SEMICOLON);
      TrimLeavesTrimmed(text);
      assert HasTag(t, text, ids[k]);
    }
  }

  // ---------------------------------------------------------------- one row

  lemma RowTables(db: Db, existing: Snapshot, rec: HostRecord)
    ensures var after := RowImported(db, existing, rec).db;
            && after.forest == ResolvePath(db.forest, rec.groupPath).0
            && after.tagTable == RowTags(db.tagTable, existing, rec).0
            && after.identities == db.identities
  {
  }

  lemma RowShows(db: Db, existing: Snapshot, rec: HostRecord)
    requires DbOk(db) && SnapshotOk(db, existing) && RowImported(db, existing, rec).ok
    ensures Shown(RowImported(db, existing, rec).db, existing, rec, RowHost(existing, rec, db.nextHost))
  {
    var after := RowImported(db, existing, rec).db;
    var tagIds := RowTags(db.tagTable, existing, rec).1;
    RowTables(db, existing, rec);
    RowIsWritten(db, existing, rec);
    var h: Host :| h.id == RowHost(existing, rec, db.nextHost) && LocalColumns(existing, rec, h)
             && Shows(after, h, rec, ResolvePath(db.forest, rec.groupPath).1, tagIds);
    ResolvedPathExists(db.forest, Segments(rec.groupPath));
    forall text ensures HasLabel(after, h.id, text) <==> Asks(existing, rec, text) {
      if HasLabel(after, h.id, text) {
        var tag :| tag in after.tagTable.tags && tag.tagLabel == text && (h.id, tag.id) in after.links;
        RowTagsAsked(db, existing, rec, tag);
      }
      if Asks(existing, rec, text) {
        AskedHasTag(db, existing, rec, text);
        var tag :| tag in after.tagTable.tags && tag.tagLabel == text;
        RowTagsAsked(db, existing, rec, tag);
      }
    }
    assert ShowsCells(after, existing, h, rec);
  }

  lemma LabelsStay(before: Db, after: Db, touched: set<string>, h: Host, text: string)
    requires DbOk(before) && DbOk(after) && Merged(before, after, touched)
    requires h in before.hosts && h.hostLabel !in touched
    ensures HasLabel(before, h.id, text) <==> HasLabel(after, h.id, text)
  {
    assert SameLinks(before.links, after.links, h.id);
    if HasLabel(after, h.id, text) {
      var tag :| tag in after.tagTable.tags && tag.tagLabel == text && (h.id, tag.id) in after.links;
      assert (h.id, tag.id) in before.links;
      var old' :| old' in before.tagTable.tags && old'.id == tag.id;
      TagAt(after.tagTable, old', tag);
    }
  }

  /** A host outside what was touched goes on showing what it showed. */
  lemma ShowsSurvives(before: Db, after: Db, touched: set<string>, existing: Snapshot, h: Host, rec: HostRecord)
    requires DbOk(before) && DbOk(after) && Merged(before, after, touched)
    requires rec.hostLabel !in touched
    requires Walk(after.forest.groups, Segments(rec.groupPath)) == Walk(before.forest.groups, Segments(rec.groupPath))
    ensures ShowsCells(before, existing, h, rec) ==> ShowsCells(after, existing, h, rec)
  {
    if ShowsCells(before, existing, h, rec) {
      forall text ensures HasLabel(after, h.id, text) <==> Asks(existing, rec, text) {
        LabelsStay(before, after, touched, h, text);
      }
    }
  }

  /** A row moves no path that leads somewhere. */
  lemma PathStays(db: Db, existing: Snapshot, next: HostRecord, path: seq<string>)
    requires Exists(db.forest.groups, path)
    ensures Walk(RowImported(db, existing, next).db.forest.groups, path) == Walk(db.forest.groups, path)
  {
    RowTables(db, existing, next);
    ResolveKeepsPaths(db.forest, Segments(next.groupPath), path);
  }

  /** A row that does not rewrite a record's host leaves the record shown. */
  lemma StillShown(db: Db, existing: Snapshot, next: HostRecord, rec: HostRecord, id: Id)
    requires DbOk(db) && SnapshotOk(db, existing) && Shown(db, existing, rec, id)
    requires rec.hostLabel !in TouchedBy(existing, next)
    ensures Shown(RowImported(db, existing, next).db, existing, rec, id)
  {
    var h: Host :| h.id == id && LocalColumns(existing, rec, h) && ShowsCells(db, existing, h, rec);
    RowMerges(db, existing, next);
    PathStays(db, existing, next, Segments(rec.groupPath));
    ShowsSurvives(db, RowImported(db, existing, next).db, TouchedBy(existing, next), existing, h, rec);
  }

  // ---------------------------------------------------------------- the whole import

  /** No later row rewrites this one's host: a new label's row has a host of its own. */
  ghost predicate NotOverridden(existing: Snapshot, records: seq<HostRecord>, k: nat)
    requires k < |records|
  {
    records[k].hostLabel !in existing || forall m :: k < m < |records| ==> records[m].hostLabel != records[k].hostLabel
  }

  lemma RowsKeepTables(db: Db, existing: Snapshot, records: seq<HostRecord>)
    requires DbOk(db) && SnapshotOk(db, existing)
    ensures DbOk(RowsImported(db, existing, records).db) && SnapshotOk(RowsImported(db, existing, records).db, existing)
  {
    RowsMerge(db, existing, records);
  }

  /** The host a row is written to: the known one of its label, or the next of those the import adds. */
  function HostOfRow(db: Db, existing: Snapshot, records: seq<HostRecord>, k: nat): Id
    requires k < |records|
  {
    if records[k].hostLabel in existing then existing[records[k].hostLabel].host.id
    else db.nextHost + NewCount(existing, records[..k])
  }

  lemma {:induction false} NextHostAfter(db: Db, existing: Snapshot, records: seq<HostRecord>)
    ensures var attempt := RowsImported(db, existing, records);
            attempt.ok ==> attempt.db.nextHost == db.nextHost + NewCount(existing, records)
  {
    if records != [] {
      NextHostAfter(db, existing, records[..|records| - 1]);
    }
  }

  /** The last row shows itself. */
  lemma LastRowShows(db: Db, existing: Snapshot, records: seq<HostRecord>)
    requires DbOk(db) && SnapshotOk(db, existing) && records != []
    ensures var attempt := RowsImported(db, existing, records);
            attempt.ok ==>
              Shown(attempt.db, existing, records[|records| - 1], HostOfRow(db, existing, records, |records| - 1))
  {
    var front := records[..|records| - 1];
    RowsKeepTables(db, existing, front);
    NextHostAfter(db, existing, front);
    if RowsImported(db, existing, records).ok {
      RowShows(RowsImported(db, existing, front).db, existing, records[|records| - 1]);
    }
  }

  /** And leaves the rows before it shown whose hosts it does not rewrite. */
  lemma EarlierRowShows(db: Db, existing: Snapshot, records: seq<HostRecord>, rec: HostRecord, id: Id)
    requires DbOk(db) && SnapshotOk(db, existing) && records != []
    requires rec.hostLabel !in TouchedBy(existing, records[|records| - 1])
    ensures var front := RowsImported(db, existing, records[..|records| - 1]);
            var attempt := RowsImported(db, existing, records);
            attempt.ok ==> front.ok && (Shown(front.db, existing, rec, id) ==> Shown(attempt.db, existing, rec, id))
  {
    var front := RowsImported(db, existing, records[..|records| - 1]);
    RowsKeepTables(db, existing, records[..|records| - 1]);
    if RowsImported(db, existing, records).ok && Shown(front.db, existing, rec, id) {
      StillShown(front.db, existing, records[|records| - 1], rec, id);
    }
  }

  lemma BeforeLast(existing: Snapshot, records: seq<HostRecord>, k: nat)
    requires k < |records| - 1 && NotOverridden(existing, records, k)
    ensures var front := records[..|records| - 1]; front[k] == records[k] && NotOverridden(existing, front, k)
    ensures records[k].hostLabel !in TouchedBy(existing, records[|records| - 1])
  {
  }

  lemma {:induction false} RowsShow(db: Db, existing: Snapshot, records: seq<HostRecord>, k: nat)
    requires DbOk(db) && SnapshotOk(db, existing) && k < |records| && NotOverridden(existing, records, k)
    ensures var attempt := RowsImported(db, existing, records);
            attempt.ok ==> Shown(attempt.db, existing, records[k], HostOfRow(db, existing, records, k))
    decreases |records|
  {
    if k == |records| - 1 {
      LastRowShows(db, existing, records);
    } else {
      BeforeLast(existing, records, k);
      RowsShow(db, existing, records[..|records| - 1], k);
      assert records[..|records| - 1][..k] == records[..k];
      EarlierRowShows(db, existing, records, records[k], HostOfRow(db, existing, records, k));
    }
  }

  /** After a successful import every record is shown, cell for cell, by its own host, the known one or one added for
      it, with the group its path leads to and exactly the labels it asks for; what the format does not carry is the
      known host's, or blank. But for a record that rewrote a known host when a later one of its label did so again. */
  lemma ImportShowsRecords(db: Db, records: seq<HostRecord>, k: nat)
    requires DbOk(db) && k < |records| && NotOverridden(Existing(db), records, k)
    ensures var attempt := RowsImported(db, Existing(db), records);
            attempt.ok ==> Shown(attempt.db, Existing(db), records[k], HostOfRow(db, Existing(db), records, k))
  {
    SnapshotDescribes(db, db.hosts);
    RowsShow(db, Existing(db), records, k);
  }

  // ---------------------------------------------------------------- what stops an import

  const EMPTY_DB := Db(Forest([], 0), [], TagTable([], 0), [], 0, {})

  /** One record with the tag cell "a;a", and the import fails. */
  lemma RepeatedTagFails()
    ensures var rec := HostRecord("web", "10.0.0.1", 22, "", "", "", "", "a;a");
            DbOk(EMPTY_DB) && !RowsImported(EMPTY_DB, Existing(EMPTY_DB), [rec]).ok
  {
    var rec := HostRecord("web", "10.0.0.1", 22, "", "", "", "", "a;a");
    var cells := ["a", "a"];
    assert cells[1..] == ["a"];
    assert Join(cells, SEMICOLON) == "a" + [SEMICOLON] + "a" == rec.tags;
    CellsOfJoin(cells, SEMICOLON);
    assert cells[0] == cells[1] && !NoRepeats(cells);
    assert rec in [rec];
    ImportSucceedsIffTagsDistinct(EMPTY_DB, [rec]);
  }
}
