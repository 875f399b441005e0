/** Importing what was just exported changes nothing (src-tauri/src/data/host_csv.rs:38-310). */
module HostCsvRoundTrip {
  import opened Wrappers
  import opened GroupForest
  import opened GroupPaths
  import opened HostTables
  import opened HostCsv
  import opened Text

  ghost predicate HasGroup(groups: seq<Group>, id: Id) { exists g :: g in groups && g.id == id }

  ghost predicate HasIdentity(identities: seq<Identity>, id: Id) { exists i :: i in identities && i.id == id }

  ghost predicate DistinctHostLabels(hosts: seq<Host>) {
    forall i, j :: 0 <= i < j < |hosts| ==> hosts[i].hostLabel != hosts[j].hostLabel
  }

  /** Identities that label and user name tell apart, neither of them blank. */
  ghost predicate TellableIdentities(identities: seq<Identity>) {
    && (forall i, j :: 0 <= i < j < |identities| ==>
          && identities[i].id != identities[j].id
          && !(identities[i].identityLabel == identities[j].identityLabel
               && identities[i].username == identities[j].username))
    && (forall i :: i in identities ==> Trim(i.identityLabel) != "" && Trim(i.username) != "")
  }

  /** What one host needs for its record to say everything the import writes back. */
  ghost predicate Describable(db: Db, h: Host) {
    && (h.groupId.Some? ==> HasGroup(db.forest.groups, h.groupId.value))
    && (h.identityId.Some? ==> HasIdentity(db.identities, h.identityId.value))
    && (h.notes.Some? ==> Trim(h.notes.value) != "")
  }

  ghost predicate Exportable(db: Db) {
    && DbOk(db) && WellNamed(db.forest.groups) && DistinctHostLabels(db.hosts) && TellableIdentities(db.identities)
    && (forall tag :: tag in db.tagTable.tags ==> Clean(tag.tagLabel, SEMICOLON))
    && (forall h :: h in db.hosts ==> Describable(db, h))
  }

  // ---------------------------------------------------------------- the cells of one record

  lemma GroupCellReadsBack(db: Db, h: Host)
    requires WellNamed(db.forest.groups) && (h.groupId.Some? ==> HasGroup(db.forest.groups, h.groupId.value))
    ensures ResolvePath(db.forest, RecordOf(db, h).groupPath) == (db.forest, h.groupId)
  {
    if h.groupId.Some? {
      ResolveInvertsGroupPath(db.forest, h.groupId.value);
    } else {
      TrimLeavesTrimmed("");
      BlankPath(db.forest, "");
    }
  }

  lemma {:induction false} IdentityIsFound(identities: seq<Identity>, i: Identity)
    requires TellableIdentities(identities) && i in identities
    ensures IdentityById(identities, i.id) == Some(i)
  {
    var last := |identities| - 1;
    if i != identities[last] {
      var k :| 0 <= k < |identities| && identities[k] == i;
      assert i == identities[..last][k];
      IdentityIsFound(identities[..last], i);
    }
  }

  lemma PairIsFound(identities: seq<Identity>, i: Identity)
    requires TellableIdentities(identities) && i in identities
    ensures FindIdentity(identities, i.identityLabel, i.username) == Some(i.id)
  {
    var found := FindIdentity(identities, i.identityLabel, i.username);
    var j :| j in identities && j.id == found.value && j.identityLabel == i.identityLabel && j.username == i.username;
    var m :| 0 <= m < |identities| && identities[m] == i;
    var n :| 0 <= n < |identities| && identities[n] == j;
  }

  lemma IdentityCellsReadBack(db: Db, h: Host)
    requires TellableIdentities(db.identities)
        && (h.identityId.Some? ==> HasIdentity(db.identities, h.identityId.value))
    ensures IdentityFor(db.identities, RecordOf(db, h)) == h.identityId
    ensures !Warned(db.identities, RecordOf(db, h))
  {
    TrimLeavesTrimmed("");
    if h.identityId.Some? {
      var i :| i in db.identities && i.id == h.identityId.value;
      IdentityIsFound(db.identities, i);
      PairIsFound(db.identities, i);
    }
  }

  lemma NotesCellReadsBack(db: Db, h: Host)
    requires h.notes.Some? ==> Trim(h.notes.value) != ""
    ensures NotesOf(RecordOf(db, h)) == h.notes
  {
    TrimLeavesTrimmed("");
  }

  lemma TagCellReadsBack(db: Db, h: Host, existing: Snapshot)
    requires TagsOk(db.tagTable) && forall tag :: tag in db.tagTable.tags ==> Clean(tag.tagLabel, SEMICOLON)
    requires h.hostLabel in existing
    requires existing[h.hostLabel].tags == TagsOf(db.tagTable.tags, db.links, h.id)
    ensures RowTags(db.tagTable, existing, RecordOf(db, h))
         == (db.tagTable, IdsOf(TagsOf(db.tagTable.tags, db.links, h.id)))
  {
    var tags := TagsOf(db.tagTable.tags, db.links, h.id);
    var texts, ids := LabelsOf(tags), IdsOf(tags);
    forall k | 0 <= k < |tags| ensures Clean(texts[k], SEMICOLON) && HasTag(db.tagTable, texts[k], ids[k]) {
      assert tags[k] in db.tagTable.tags;
    }
    CellsOfJoin(texts, SEMICOLON);
    if texts != [] {
      ExistingTagsAreFound(db.tagTable, texts, ids);
    }
  }

  // ---------------------------------------------------------------- writing the row back

  lemma SameRowWritten(db: Db, h: Host, input: HostInput)
    requires HostsOk(db) && h in db.hosts && Rewritten(h, input) == h
    ensures UpdateRow(db.hosts, h.id, input) == db.hosts
  {
    var at :| 0 <= at < |db.hosts| && db.hosts[at] == h;
    forall k | 0 <= k < |db.hosts| ensures UpdateRow(db.hosts, h.id, input)[k] == db.hosts[k] {
      if db.hosts[k].id == h.id { assert k == at; }
    }
  }

  lemma SameTagsWritten(db: Db, h: Host)
    requires DbOk(db)
    ensures SetHostTags(db.links, h.id, IdsOf(TagsOf(db.tagTable.tags, db.links, h.id))) == (db.links, true)
  {
    var tags := TagsOf(db.tagTable.tags, db.links, h.id);
    var ids := IdsOf(tags);
    TagsOfAreDistinct(db.tagTable.tags, db.links, h.id);
    SetHostTagsOk(db.links, h.id, ids);
    forall l | l in db.links && l.0 == h.id ensures l in LinksTo(h.id, ids) {
      var tag :| tag in db.tagTable.tags && tag.id == l.1;
      assert (h.id, tag.id) == l && tag in tags;
      var k :| 0 <= k < |tags| && tags[k] == tag;
      assert ids[k] == l.1;
    }
    forall l | l in LinksTo(h.id, ids) ensures l in db.links {
      var k :| 0 <= k < |ids| && ids[k] == l.1;
      assert tags[k] in tags;
    }
    assert Unlinked(db.links, h.id) + LinksTo(h.id, ids) == db.links;
  }

  lemma {:induction false} SnapshotHolds(db: Db, hosts: seq<Host>, h: Host)
    requires DistinctHostLabels(hosts) && h in hosts
    ensures h.hostLabel in ByHostLabel(db, hosts)
    ensures ByHostLabel(db, hosts)[h.hostLabel] == ListedHost(h, TagsOf(db.tagTable.tags, db.links, h.id))
  {
    var last := |hosts| - 1;
    if h != hosts[last] {
      var k :| 0 <= k < |hosts| && hosts[k] == h;
      assert h == hosts[..last][k];
      SnapshotHolds(db, hosts[..last], h);
    }
  }

  /** Importing a host's own record leaves the database as it is. */
  lemma RowReadsBack(db: Db, h: Host)
    requires Exportable(db) && h in db.hosts
    ensures RowImported(db, Existing(db), RecordOf(db, h)) == Attempt(db, true)
    ensures h.hostLabel in Existing(db) && !Warned(db.identities, RecordOf(db, h))
  {
    var existing, rec := Existing(db), RecordOf(db, h);
    assert Describable(db, h);
    SnapshotHolds(db, db.hosts, h);
    GroupCellReadsBack(db, h);
    IdentityCellsReadBack(db, h);
    NotesCellReadsBack(db, h);
    TagCellReadsBack(db, h, existing);
    SameRowWritten(db, h,
        RowInput(existing, rec, h.groupId, h.identityId, IdsOf(TagsOf(db.tagTable.tags, db.links, h.id))));
    SameTagsWritten(db, h);
    assert HasHost(db.hosts, h.id);
  }

  ghost predicate IsRecordOfHost(db: Db, rec: HostRecord) { exists h :: h in db.hosts && rec == RecordOf(db, h) }

  /** Any of the exported rows, in any order and any number of times. */
  lemma {:induction false} RowsReadBack(db: Db, records: seq<HostRecord>)
    requires Exportable(db)
    requires forall rec :: rec in records ==> IsRecordOfHost(db, rec)
    ensures RowsImported(db, Existing(db), records) == Attempt(db, true)
    ensures NewCount(Existing(db), records) == 0 && WarningsOf(db.identities, records) == []
  {
    if records != [] {
      var last := |records| - 1;
      RowsReadBack(db, records[..last]);
      assert IsRecordOfHost(db, records[last]);
      var h :| h in db.hosts && records[last] == RecordOf(db, h);
      RowReadsBack(db, h);
    }
  }

  /** Export then import is the identity: nothing imported, every host updated to what it was, no warning. */
  lemma ExportThenImport(db: Db, records: seq<HostRecord>)
    requires Exportable(db) && IsExport(db, records)
    ensures RowsImported(db, Existing(db), records) == Attempt(db, true)
    ensures NewCount(Existing(db), records) == 0 && WarningsOf(db.identities, records) == []
  {
    forall rec | rec in records ensures IsRecordOfHost(db, rec) {
      var k :| 0 <= k < |records| && records[k] == rec;
      assert db.hosts[k] in db.hosts;
    }
    RowsReadBack(db, records);
  }
}
