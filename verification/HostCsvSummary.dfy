/** What an import reports and whom it takes for known, and what an export says of a host, each in terms of the tables
    and records alone (src-tauri/src/data/host_csv.rs:70-98, 188-237). */
module HostCsvSummary {
  import opened Wrappers
  import opened GroupForest
  import opened GroupPaths
  import opened HostTables
  import opened HostCsv
  import opened Text

  // ---------------------------------------------------------------- warnings

  /** The record names a user, and no identity with a label carries both its label and that user. */
  ghost predicate Unmatched(identities: seq<Identity>, rec: HostRecord) {
    && Trim(rec.identityUsername) != ""
    && forall i :: i in identities ==>
         !(i.identityLabel == rec.identityLabel && i.username == rec.identityUsername && Trim(i.identityLabel) != "")
  }

  /** The rows that are warned about: exactly the unmatched ones, in order. */
  ghost predicate UnmatchedRows(identities: seq<Identity>, records: seq<HostRecord>, ks: seq<nat>) {
    && Increasing(ks)
    && (forall j :: 0 <= j < |ks| ==> ks[j] < |records|)
    && forall k :: 0 <= k < |records| ==> (k in ks <==> Unmatched(identities, records[k]))
  }

  lemma WarnedIffUnmatched(identities: seq<Identity>, rec: HostRecord)
    ensures Warned(identities, rec) <==> Unmatched(identities, rec)
  {
  }

  lemma OneMoreUnmatched(identities: seq<Identity>, front: seq<HostRecord>, last: HostRecord, ks: seq<nat>)
    requires UnmatchedRows(identities, front, ks)
    ensures UnmatchedRows(identities, front + [last], ks + if Unmatched(identities, last) then [|front|] else [])
  {
    var all, ks' := front + [last], ks + if Unmatched(identities, last) then [|front|] else [];
    forall k | 0 <= k < |all| ensures k in ks' <==> Unmatched(identities, all[k]) {
      if k < |front| { assert all[k] == front[k]; }
    }
  }

  /** What is said of each of these rows: its number in the file, its label and both identity cells. */
  ghost predicate WarningsFor(warnings: seq<Warning>, records: seq<HostRecord>, ks: seq<nat>) {
    && |warnings| == |ks|
    && forall j :: 0 <= j < |ks| ==>
         && ks[j] < |records|
         && warnings[j].row == ks[j] + 2 && warnings[j].hostLabel == records[ks[j]].hostLabel
         && warnings[j].identityLabel == records[ks[j]].identityLabel
         && warnings[j].identityUsername == records[ks[j]].identityUsername
  }

  /** There is one warning for each row that names a user without a saved identity, in the order of the rows. */
  lemma {:induction false} WarningsNameUnmatched(identities: seq<Identity>, records: seq<HostRecord>)
    returns (ks: seq<nat>)
    ensures UnmatchedRows(identities, records, ks) && WarningsFor(WarningsOf(identities, records), records, ks)
  {
    ks := [];
    if records != [] {
      var front, last := records[..|records| - 1], records[|records| - 1];
      ks := WarningsNameUnmatched(identities, front);
      assert records == front + [last];
      OneMoreUnmatched(identities, front, last, ks);
      WarnedIffUnmatched(identities, last);
      if Unmatched(identities, last) { ks := ks + [|front|]; }
    }
  }

  // ---------------------------------------------------------------- known hosts

  /** The last host with the label. */
  ghost predicate LastWithLabel(hosts: seq<Host>, text: string, k: nat) {
    k < |hosts| && hosts[k].hostLabel == text && forall m :: k < m < |hosts| ==> hosts[m].hostLabel != text
  }

  /** What is known of a label is the last host with it, and its tags. */
  ghost predicate KnownAs(db: Db, hosts: seq<Host>, text: string, e: ListedHost) {
    && (exists k: nat :: LastWithLabel(hosts, text, k) && hosts[k] == e.host)
    && forall tag :: tag in e.tags <==> tag in db.tagTable.tags && (e.host.id, tag.id) in db.links
  }

  lemma KnownBefore(db: Db, front: seq<Host>, last: Host, text: string, e: ListedHost)
    requires KnownAs(db, front, text, e) && last.hostLabel != text
    ensures KnownAs(db, front + [last], text, e)
  {
    var k: nat :| LastWithLabel(front, text, k) && front[k] == e.host;
    assert LastWithLabel(front + [last], text, k);
  }

  /** A label is known exactly if a host carries it, and stands for the last host that does. */
  lemma {:induction false} KnownAreTheHosts(db: Db, hosts: seq<Host>, text: string)
    ensures text in ByHostLabel(db, hosts) <==> exists h :: h in hosts && h.hostLabel == text
    ensures text in ByHostLabel(db, hosts) ==> KnownAs(db, hosts, text, ByHostLabel(db, hosts)[text])
  {
    if hosts != [] {
      var front, last := hosts[..|hosts| - 1], hosts[|hosts| - 1];
      KnownAreTheHosts(db, front, text);
      assert hosts == front + [last];
      if last.hostLabel == text {
        assert LastWithLabel(hosts, text, |front|);
      } else if text in ByHostLabel(db, front) {
        KnownBefore(db, front, last, text, ByHostLabel(db, front)[text]);
      }
    }
  }

  ghost function NewRows(db: Db, records: seq<HostRecord>): set<nat> {
    set k: nat | k < |records| && forall h :: h in db.hosts ==> h.hostLabel != records[k].hostLabel
  }

  lemma OneMoreNew(db: Db, front: seq<HostRecord>, last: HostRecord)
    ensures var known := exists h :: h in db.hosts && h.hostLabel == last.hostLabel;
            NewRows(db, front + [last]) == NewRows(db, front) + if known then {} else {|front|}
  {
  }

  /** The rows counted as imported are those whose label no host carried when the import began. */
  lemma {:induction false} NewAreTheUnknown(db: Db, records: seq<HostRecord>)
    ensures NewCount(Existing(db), records) == |NewRows(db, records)|
  {
    if records == [] {
      assert NewRows(db, records) == {};
    } else {
      var front, last := records[..|records| - 1], records[|records| - 1];
      NewAreTheUnknown(db, front);
      KnownAreTheHosts(db, db.hosts, last.hostLabel);
      OneMoreNew(db, front, last);
      assert records == front + [last];
    }
  }

  // ---------------------------------------------------------------- export

  /** The identity a host refers to, the last of several with its id. */
  ghost predicate IsIdentityOf(identities: seq<Identity>, id: Id, k: nat) {
    k < |identities| && identities[k].id == id && forall m :: k < m < |identities| ==> identities[m].id != id
  }

  lemma {:induction false} IdentityIsLast(identities: seq<Identity>, id: Id)
    ensures IdentityById(identities, id).None? <==> forall i :: i in identities ==> i.id != id
    ensures IdentityById(identities, id).Some? ==>
              exists k: nat :: IsIdentityOf(identities, id, k) && IdentityById(identities, id).value == identities[k]
  {
    if identities != [] {
      var last := |identities| - 1;
      IdentityIsLast(identities[..last], id);
      if identities[last].id == id {
        assert IsIdentityOf(identities, id, last);
      } else if IdentityById(identities, id).Some? {
        var k: nat :| IsIdentityOf(identities[..last], id, k)
                 && IdentityById(identities[..last], id).value == identities[..last][k];
        assert IsIdentityOf(identities, id, k);
      }
    }
  }

  /** A record's identity cells are those of the host's identity, and both blank if it has none. */
  ghost predicate IdentityCells(db: Db, h: Host, rec: HostRecord) {
    if h.identityId.Some? && exists i :: i in db.identities && i.id == h.identityId.value then
      exists k: nat :: IsIdentityOf(db.identities, h.identityId.value, k)
                  && rec.identityLabel == db.identities[k].identityLabel
                  && rec.identityUsername == db.identities[k].username
    else rec.identityLabel == "" && rec.identityUsername == ""
  }

  /** A tag the host carries. */
  ghost predicate Carries(db: Db, h: Host, text: string) {
    exists tag :: tag in db.tagTable.tags && tag.tagLabel == text && (h.id, tag.id) in db.links
  }

  /** A tags cell reads back as the labels of the host's tags, if they can stand in a cell. */
  lemma TagCellSays(db: Db, h: Host)
    requires forall tag :: tag in db.tagTable.tags ==> Clean(tag.tagLabel, SEMICOLON)
    ensures forall text :: text in Cells(RecordOf(db, h).tags, SEMICOLON) <==> Carries(db, h, text)
  {
    var tags := TagsOf(db.tagTable.tags, db.links, h.id);
    var texts := LabelsOf(tags);
    forall k | 0 <= k < |texts| ensures Clean(texts[k], SEMICOLON) { assert tags[k] in tags; }
    CellsOfJoin(texts, SEMICOLON);
    forall text ensures text in texts <==> Carries(db, h, text) {
      if text in texts {
        var k :| 0 <= k < |texts| && texts[k] == text;
        assert tags[k] in tags;
      }
      if Carries(db, h, text) {
        var tag :| tag in db.tagTable.tags && tag.tagLabel == text && (h.id, tag.id) in db.links;
        var k :| 0 <= k < |tags| && tags[k] == tag;
        assert texts[k] == text;
      }
    }
  }

  /** What an exported record says, whether or not it could be read back: the host's own columns, its identity, and its
      group's path if it has one. */
  lemma RecordSays(db: Db, h: Host)
    ensures var rec := RecordOf(db, h);
            && rec.hostLabel == h.hostLabel && rec.hostname == h.hostname && rec.port == h.port
            && rec.notes == (if h.notes.Some? then h.notes.value else "")
            && IdentityCells(db, h, rec)
            && (h.groupId.None? ==> rec.groupPath == "")
            && (h.groupId.Some? ==> rec.groupPath == PathOf(db.forest.groups, h.groupId.value))
  {
    if h.identityId.Some? { IdentityIsLast(db.identities, h.identityId.value); }
  }
}
