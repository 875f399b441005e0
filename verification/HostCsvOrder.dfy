/** The lists stay in the order the statements ask for: tags by label, hosts by sort order, whatever is imported
    (src-tauri/src/data/tags.rs:16-20, src-tauri/src/data/hosts.rs:46-50). */
module HostCsvOrder {
  import opened Wrappers
  import opened GroupForest
  import opened GroupPaths
  import opened HostTables
  import opened HostCsv
  import opened HostCsvMerge
  import opened StableSort
  import opened Text

  // ---------------------------------------------------------------- the order of labels

  /** Texts compare as equal exactly when they are, and the other way round with the other sign. */
  lemma {:induction false} CompareTextSigns(a: string, b: string)
    ensures CompareText(a, b) == 0 <==> a == b
    ensures CompareText(a, b) == -CompareText(b, a)
  {
    if a != "" && b != "" {
      CompareTextSigns(a[1..], b[1..]);
      assert a == [a[0]] + a[1..] && b == [b[0]] + b[1..];
    }
  }

  lemma {:induction false} CompareTextTransitive(a: string, b: string, c: string)
    requires CompareText(a, b) <= 0 && CompareText(b, c) <= 0
    ensures CompareText(a, c) <= 0
  {
    if a != "" && b != "" && c != "" && a[0] == b[0] && b[0] == c[0] {
      CompareTextTransitive(a[1..], b[1..], c[1..]);
    }
  }

  /** A text comes before the longer ones it begins, and otherwise the first differing character decides. */
  lemma {:induction false} CompareTextMeans(shared: string, a: string, b: string)
    requires a != "" && b != "" ==> a[0] != b[0]
    ensures CompareText(shared + a, shared + b) < 0 <==> b != "" && (a == "" || a[0] < b[0])
  {
    if shared == "" {
      assert shared + a == a && shared + b == b;
    } else {
      CompareTextMeans(shared[1..], a, b);
      assert (shared + a)[1..] == shared[1..] + a && (shared + b)[1..] == shared[1..] + b;
    }
  }

  lemma LabelsConsistent(tags: set<Tag>)
    ensures Consistent(tags, ByTagLabel)
  {
    forall x, y | x in tags && y in tags ensures ByTagLabel(x, y) <= 0 || ByTagLabel(y, x) <= 0 {
      CompareTextSigns(x.tagLabel, y.tagLabel);
    }
    forall x, y, z | x in tags && y in tags && z in tags && ByTagLabel(x, y) <= 0 && ByTagLabel(y, z) <= 0
      ensures ByTagLabel(x, z) <= 0
    {
      CompareTextTransitive(x.tagLabel, y.tagLabel, z.tagLabel);
    }
  }

  // ---------------------------------------------------------------- tags

  lemma {:induction false} TagsStaySorted(t: TagTable, texts: seq<string>)
    requires Sorted(t.tags, ByTagLabel)
    ensures Sorted(GetOrCreateAll(t, texts).0.tags, ByTagLabel)
  {
    if texts != [] {
      var last := |texts| - 1;
      var u := GetOrCreateAll(t, texts[..last]).0;
      TagsStaySorted(t, texts[..last]);
      var made := Tag(u.nextId, Trim(texts[last]));
      var all := (set tag | tag in u.tags) + {made};
      LabelsConsistent(all);
      InsertSorts(u.tags, made, ByTagLabel, all);
    }
  }

  // ---------------------------------------------------------------- hosts

  lemma RewrittenStaySorted(db: Db, known: Host, input: HostInput)
    requires HostsOk(db) && KeptIn(db.hosts, known) && input.sortOrder == known.sortOrder
    requires Sorted(db.hosts, BySortOrderOf)
    ensures Sorted(UpdateRow(db.hosts, known.id, input), BySortOrderOf)
  {
    var row :| row in db.hosts && SameLocal(known, row);
    var rows := UpdateRow(db.hosts, known.id, input);
    forall k | 0 <= k < |rows| ensures rows[k].sortOrder == db.hosts[k].sortOrder {
      if db.hosts[k].id == known.id { HostAt(db, db.hosts[k], row); }
    }
    forall i, j | 0 <= i < j < |rows| ensures BySortOrderOf(rows[i], rows[j]) <= 0 {
      assert BySortOrderOf(db.hosts[i], db.hosts[j]) <= 0;
    }
  }

  lemma CreatedStaySorted(hosts: seq<Host>, made: Host)
    requires Sorted(hosts, BySortOrderOf)
    ensures Sorted(Insert(hosts, made, BySortOrderOf), BySortOrderOf)
  {
    InsertSorts(hosts, made, BySortOrderOf, (set h | h in hosts) + {made});
  }

  ghost predicate InOrder(db: Db) { Sorted(db.tagTable.tags, ByTagLabel) && Sorted(db.hosts, BySortOrderOf) }

  lemma RowStaysInOrder(db: Db, existing: Snapshot, rec: HostRecord)
    requires DbOk(db) && SnapshotOk(db, existing) && InOrder(db)
    ensures InOrder(RowImported(db, existing, rec).db)
  {
    var (forest, groupId) := ResolvePath(db.forest, rec.groupPath);
    var (tagTable, tagIds) := RowTags(db.tagTable, existing, rec);
    var input := RowInput(existing, rec, groupId, IdentityFor(db.identities, rec), tagIds);
    TagsStaySorted(db.tagTable, Cells(rec.tags, SEMICOLON));
    if rec.hostLabel in existing {
      assert KnownHost(db, rec.hostLabel, existing[rec.hostLabel]);
      RewrittenStaySorted(db, existing[rec.hostLabel].host, input);
    } else {
      CreatedStaySorted(db.hosts, NewHost(db.nextHost, input));
    }
  }

  lemma {:induction false} RowsStayInOrder(db: Db, existing: Snapshot, records: seq<HostRecord>)
    requires DbOk(db) && SnapshotOk(db, existing) && InOrder(db)
    ensures InOrder(RowsImported(db, existing, records).db)
  {
    if records != [] {
      var front := records[..|records| - 1];
      RowsStayInOrder(db, existing, front);
      RowsMerge(db, existing, front);
      if RowsImported(db, existing, front).ok {
        RowStaysInOrder(RowsImported(db, existing, front).db, existing, records[|records| - 1]);
      }
    }
  }

  /** Whatever is imported, and wherever it stops, tags stay listed by label and hosts by sort order. */
  lemma ListsStayInOrder(db: Db, records: seq<HostRecord>)
    requires DbOk(db) && InOrder(db)
    ensures InOrder(RowsImported(db, Existing(db), records).db)
  {
    SnapshotDescribes(db, db.hosts);
    RowsStayInOrder(db, Existing(db), records);
  }
}
