/** The tables behind the host list, and the few statements the CSV import runs on them: tags
    (src-tauri/src/data/tags.rs), hosts (src-tauri/src/data/hosts.rs), groups and identities. Rows are kept in the
    order in which the corresponding `list` returns them. */
module HostTables {
  import opened Wrappers
  import opened GroupForest
  import opened GroupPaths
  import opened StableSort
  import opened Text

  datatype Identity = Identity(id: Id, identityLabel: string, username: string)

  datatype Tag = Tag(id: Id, tagLabel: string)

  datatype TagTable = TagTable(tags: seq<Tag>, nextId: Id)

  datatype Host = Host(
    id: Id, groupId: Option<Id>, hostLabel: string, hostname: string, port: nat, identityId: Option<Id>,
    vpnProfileId: Option<Id>, color: Option<string>, icon: Option<string>, notes: Option<string>, sortOrder: int,
    lastConnectedAt: Option<string>, isFavorite: bool)

  /** What `hosts::create` and `hosts::update` take: a host without id, last connection and favourite mark. */
  datatype HostInput = HostInput(
    groupId: Option<Id>, hostLabel: string, hostname: string, port: nat, identityId: Option<Id>,
    vpnProfileId: Option<Id>, color: Option<string>, icon: Option<string>, notes: Option<string>, sortOrder: int,
    tagIds: seq<Id>)

  /** The host_tags table; (host id, tag id) is its primary key. */
  type Links = set<(Id, Id)>

  datatype Db = Db(
    forest: Forest, identities: seq<Identity>, tagTable: TagTable, hosts: seq<Host>, nextHost: Id, links: Links)

  // ---------------------------------------------------------------- tags

  ghost predicate DistinctIds(tags: seq<Tag>) { forall i, j :: 0 <= i < j < |tags| ==> tags[i].id != tags[j].id }

  ghost predicate DistinctLabels(tags: seq<Tag>) {
    forall i, j :: 0 <= i < j < |tags| ==> tags[i].tagLabel != tags[j].tagLabel
  }

  ghost predicate TagsOk(t: TagTable) {
    DistinctIds(t.tags) && DistinctLabels(t.tags) && forall tag :: tag in t.tags ==> tag.id < t.nextId
  }

  function FindTag(tags: seq<Tag>, text: string): (id: Option<Id>)
    ensures id.Some? ==> exists tag :: tag in tags && tag.id == id.value && tag.tagLabel == text
    ensures id.None? <==> forall tag :: tag in tags ==> tag.tagLabel != text
  {
    if tags == [] then None
    else if tags[0].tagLabel == text then Some(tags[0].id)
    else FindTag(tags[1..], text)
  }

  /** SQLite's binary text order: negative, zero or positive. */
  function CompareText(a: string, b: string): int {
    if a == "" then (if b == "" then 0 else -1)
    else if b == "" then 1
    else if a[0] != b[0] then (if a[0] < b[0] then -1 else 1)
    else CompareText(a[1..], b[1..])
  }

  function ByTagLabel(a: Tag, b: Tag): int { CompareText(a.tagLabel, b.tagLabel) }

  /** `tags::get_or_create`. */
  function GetOrCreate(t: TagTable, text: string): (TagTable, Id) {
    var found := FindTag(t.tags, Trim(text));
    if found.Some? then (t, found.value)
    else (TagTable(Insert(t.tags, Tag(t.nextId, Trim(text)), ByTagLabel), t.nextId + 1), t.nextId)
  }

  function GetOrCreateAll(t: TagTable, texts: seq<string>): (TagTable, seq<Id>) {
    if texts == [] then (t, [])
    else
      var last := |texts| - 1;
      var (u, ids) := GetOrCreateAll(t, texts[..last]);
      var (v, id) := GetOrCreate(u, texts[last]);
      (v, ids + [id])
  }

  /** One label, one id: what the table answers for a label it already gave an id to. */
  ghost predicate HasTag(t: TagTable, text: string, id: Id) {
    exists tag :: tag in t.tags && tag.id == id && tag.tagLabel == text
  }

  lemma TagIsUnique(t: TagTable, text: string, id: Id, other: string, otherId: Id)
    requires TagsOk(t) && HasTag(t, text, id) && HasTag(t, other, otherId)
    ensures text == other <==> id == otherId
  {
    var a :| a in t.tags && a.id == id && a.tagLabel == text;
    var b :| b in t.tags && b.id == otherId && b.tagLabel == other;
    var i :| 0 <= i < |t.tags| && t.tags[i] == a;
    var j :| 0 <= j < |t.tags| && t.tags[j] == b;
  }

  lemma NewTagRow(t: TagTable, tag: Tag)
    ensures var r := Insert(t.tags, tag, ByTagLabel); forall x :: x in r <==> x in t.tags || x == tag
  {
    var r := Insert(t.tags, tag, ByTagLabel);
    InsertMembers(t.tags, tag, ByTagLabel);
    forall x ensures x in r <==> x in t.tags || x == tag {
      assert x in r <==> x in multiset(r);
      assert x in t.tags <==> x in multiset(t.tags);
    }
  }

  lemma SpliceKeepsDistinct(tags: seq<Tag>, tag: Tag, at: nat)
    requires at <= |tags| && DistinctIds(tags) && DistinctLabels(tags)
    requires forall k :: 0 <= k < |tags| ==> tags[k].id != tag.id && tags[k].tagLabel != tag.tagLabel
    ensures DistinctIds(tags[..at] + [tag] + tags[at..]) && DistinctLabels(tags[..at] + [tag] + tags[at..])
  {
  }

  lemma NewTagOk(t: TagTable, text: string)
    requires TagsOk(t) && FindTag(t.tags, text).None?
    ensures TagsOk(TagTable(Insert(t.tags, Tag(t.nextId, text), ByTagLabel), t.nextId + 1))
  {
    var tag := Tag(t.nextId, text);
    NewTagRow(t, tag);
    forall k | 0 <= k < |t.tags| ensures t.tags[k].id < t.nextId && t.tags[k].tagLabel != text {
      assert t.tags[k] in t.tags;
    }
    var at := InsertPosition(t.tags, tag, ByTagLabel);
    SpliceKeepsDistinct(t.tags, tag, at);
  }

  lemma GetOrCreateOk(t: TagTable, text: string)
    requires TagsOk(t)
    ensures var (u, id) := GetOrCreate(t, text);
      && TagsOk(u) && HasTag(u, Trim(text), id)
      && (forall tag :: tag in t.tags ==> tag in u.tags)
  {
    var trimmed := Trim(text);
    if FindTag(t.tags, trimmed).None? {
      NewTagOk(t, trimmed);
      NewTagRow(t, Tag(t.nextId, trimmed));
      var (u, id) := GetOrCreate(t, text);
      assert Tag(t.nextId, trimmed) in u.tags;
    }
  }

  ghost predicate GotTags(t: TagTable, u: TagTable, texts: seq<string>, ids: seq<Id>) {
    && TagsOk(u) && |ids| == |texts|
    && (forall k :: 0 <= k < |ids| ==> HasTag(u, Trim(texts[k]), ids[k]))
    && (forall tag :: tag in t.tags ==> tag in u.tags)
  }

  lemma GotOneMore(t: TagTable, u: TagTable, texts: seq<string>, ids: seq<Id>, text: string)
    requires GotTags(t, u, texts, ids)
    ensures var (v, id) := GetOrCreate(u, text); GotTags(t, v, texts + [text], ids + [id])
  {
    GetOrCreateOk(u, text);
  }

  /** Every label gets the id of its own tag, whatever was created before or after it. */
  lemma {:induction false} GetOrCreateAllOk(t: TagTable, texts: seq<string>)
    requires TagsOk(t)
    ensures var (u, ids) := GetOrCreateAll(t, texts); GotTags(t, u, texts, ids)
  {
    if texts != [] {
      var last := |texts| - 1;
      GetOrCreateAllOk(t, texts[..last]);
      var (u, ids) := GetOrCreateAll(t, texts[..last]);
      GotOneMore(t, u, texts[..last], ids, texts[last]);
      assert texts == texts[..last] + [texts[last]];
    }
  }

  lemma ExistingTagIsFound(t: TagTable, text: string, id: Id)
    requires TagsOk(t) && Trimmed(text) && HasTag(t, text, id)
    ensures GetOrCreate(t, text) == (t, id)
  {
    TrimLeavesTrimmed(text);
    var found := FindTag(t.tags, text);
    assert HasTag(t, text, found.value);
    TagIsUnique(t, text, id, text, found.value);
  }

  lemma {:induction false} ExistingTagsAreFound(t: TagTable, texts: seq<string>, ids: seq<Id>)
    requires TagsOk(t) && |texts| == |ids|
    requires forall k :: 0 <= k < |texts| ==> Trimmed(texts[k]) && HasTag(t, texts[k], ids[k])
    ensures GetOrCreateAll(t, texts) == (t, ids)
  {
    if texts == [] {
      assert ids == [];
    } else {
      var last := |texts| - 1;
      var front := ids[..last];
      assert ids == front + [ids[last]];
      ExistingTagIsFound(t, texts[last], ids[last]);
      ExistingTagsAreFound(t, texts[..last], front);
    }
  }

  // ---------------------------------------------------------------- host_tags

  function Unlinked(links: Links, host: Id): Links { set l | l in links && l.0 != host }

  function LinksTo(host: Id, tagIds: seq<Id>): Links { set id | id in tagIds :: (host, id) }

  /** The INSERTs of `tags::set_host_tags`: the first repeated key fails and leaves the ones before it. */
  function LinkAll(links: Links, host: Id, tagIds: seq<Id>): (Links, bool)
    decreases tagIds
  {
    if tagIds == [] then (links, true)
    else if (host, tagIds[0]) in links then (links, false)
    else LinkAll(links + {(host, tagIds[0])}, host, tagIds[1..])
  }

  /** `tags::set_host_tags`. */
  function SetHostTags(links: Links, host: Id, tagIds: seq<Id>): (Links, bool) {
    LinkAll(Unlinked(links, host), host, tagIds)
  }

  lemma {:induction false} LinkAllOk(links: Links, host: Id, tagIds: seq<Id>)
    ensures LinkAll(links, host, tagIds).1 <==> NoRepeats(tagIds) && forall id :: id in tagIds ==> (host, id) !in links
    ensures LinkAll(links, host, tagIds).1 ==> LinkAll(links, host, tagIds).0 == links + LinksTo(host, tagIds)
    ensures links <= LinkAll(links, host, tagIds).0 <= links + LinksTo(host, tagIds)
    decreases tagIds
  {
    if tagIds != [] {
      var rest := tagIds[1..];
      assert tagIds == [tagIds[0]] + rest;
      if (host, tagIds[0]) !in links {
        LinkAllOk(links + {(host, tagIds[0])}, host, rest);
        assert NoRepeats(tagIds) <==> NoRepeats(rest) && tagIds[0] !in rest;
      }
    }
  }

  /** Replacing a host's tags succeeds exactly for distinct tags, and never touches another host's. */
  lemma SetHostTagsOk(links: Links, host: Id, tagIds: seq<Id>)
    ensures SetHostTags(links, host, tagIds).1 <==> NoRepeats(tagIds)
    ensures SetHostTags(links, host, tagIds).1
        ==> SetHostTags(links, host, tagIds).0 == Unlinked(links, host) + LinksTo(host, tagIds)
    ensures Unlinked(SetHostTags(links, host, tagIds).0, host) == Unlinked(links, host)
    ensures forall l :: l in SetHostTags(links, host, tagIds).0 && l.0 == host ==> l.1 in tagIds
  {
    LinkAllOk(Unlinked(links, host), host, tagIds);
  }

  /** The tags of one host, by label. */
  function TagsOf(tags: seq<Tag>, links: Links, host: Id): (r: seq<Tag>)
    ensures forall tag :: tag in r <==> tag in tags && (host, tag.id) in links
  {
    if tags == [] then []
    else (if (host, tags[0].id) in links then [tags[0]] else []) + TagsOf(tags[1..], links, host)
  }

  function IdsOf(tags: seq<Tag>): seq<Id> { seq(|tags|, k requires 0 <= k < |tags| => tags[k].id) }

  function LabelsOf(tags: seq<Tag>): seq<string> { seq(|tags|, k requires 0 <= k < |tags| => tags[k].tagLabel) }

  lemma {:induction false} TagsOfAreDistinct(tags: seq<Tag>, links: Links, host: Id)
    requires DistinctIds(tags)
    ensures DistinctIds(TagsOf(tags, links, host))
  {
    if tags != [] {
      var rest := TagsOf(tags[1..], links, host);
      TagsOfAreDistinct(tags[1..], links, host);
      forall k | 0 <= k < |rest| ensures rest[k].id != tags[0].id {
        assert rest[k] in tags[1..];
      }
    }
  }

  // ---------------------------------------------------------------- hosts

  function BySortOrderOf(g: Host, h: Host): int { g.sortOrder - h.sortOrder }

  /** `hosts::update`'s SET clause. */
  function Rewritten(h: Host, input: HostInput): Host {
    Host(h.id, input.groupId, input.hostLabel, input.hostname, input.port, input.identityId, input.vpnProfileId,
         input.color, input.icon, input.notes, input.sortOrder, h.lastConnectedAt, h.isFavorite)
  }

  function NewHost(id: Id, input: HostInput): Host {
    Host(id, input.groupId, input.hostLabel, input.hostname, input.port, input.identityId, input.vpnProfileId,
         input.color, input.icon, input.notes, input.sortOrder, None, false)
  }

  function UpdateRow(hosts: seq<Host>, id: Id, input: HostInput): (r: seq<Host>)
    ensures |r| == |hosts|
    ensures forall k :: 0 <= k < |r| ==> r[k] == if hosts[k].id == id then Rewritten(hosts[k], input) else hosts[k]
  {
    seq(|hosts|, k requires 0 <= k < |hosts| => if hosts[k].id == id then Rewritten(hosts[k], input) else hosts[k])
  }

  predicate HasHost(hosts: seq<Host>, id: Id) { exists h :: h in hosts && h.id == id }

  ghost predicate HostsOk(db: Db) {
    && (forall i, j :: 0 <= i < j < |db.hosts| ==> db.hosts[i].id != db.hosts[j].id)
    && (forall h :: h in db.hosts ==> h.id < db.nextHost)
  }

  /** Primary keys and foreign keys, as SQLite enforces them. */
  ghost predicate DbOk(db: Db) {
    && ForestOk(db.forest) && TagsOk(db.tagTable) && HostsOk(db)
    && (forall l :: l in db.links ==> l.0 < db.nextHost)
    && (forall l :: l in db.links ==> exists tag :: tag in db.tagTable.tags && tag.id == l.1)
  }

  /** A statement either completes or fails, leaving what it had already written. */
  datatype Attempt = Attempt(db: Db, ok: bool)

  /** `hosts::create`. */
  function CreateHost(db: Db, input: HostInput): Attempt {
    var (links, ok) := SetHostTags(db.links, db.nextHost, input.tagIds);
    Attempt(db.(hosts := Insert(db.hosts, NewHost(db.nextHost, input), BySortOrderOf), nextHost := db.nextHost + 1,
                links := links), ok)
  }

  /** `hosts::update`, for a sort order the row already has: the import never changes it. */
  function UpdateHost(db: Db, id: Id, input: HostInput): Attempt {
    if !HasHost(db.hosts, id) then Attempt(db, false)
    else
    var (links, ok) := SetHostTags(db.links, id, input.tagIds);
    Attempt(db.(hosts := UpdateRow(db.hosts, id, input), links := links), ok)
  }
}
