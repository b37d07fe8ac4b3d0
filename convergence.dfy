/** What insert achieves: afterwards the store holds the document; a store
    that already holds a document is left untouched by inserting it again,
    with no statement issued; and get returns a held document as it was
    submitted, up to the order of groups and clocks. */
module Convergence {
  import opened Wrappers
  import opened Text
  import opened Documents
  import opened Tables
  import opened Reconciler
  import opened Frame

  /** The store holds document `d`: the site row carries its name, the site
      owns exactly the document's groups with their titles, and each of
      those groups owns exactly the document's clocks with their fields. */
  ghost predicate Holds(db: Db, d: SiteDoc) {
    && d.id in db.sites && db.sites[d.id].name == d.name
    && SiteGroups(db, d.id).Keys == GroupIds(d.clockGroups)
    && (forall g :: g in d.clockGroups ==> g.id in db.groups && db.groups[g.id].title == g.title)
    && (forall g :: g in d.clockGroups ==> GroupClocks(db, g.id).Keys == ClockIds(g.clocks))
    && (forall g, c :: g in d.clockGroups && c in g.clocks ==>
          c.id in db.clocks && db.clocks[c.id] == RowOf(g.id, c))
  }

  /** Two documents with the same site, the same groups and the same
      clocks, possibly listed in another order. */
  ghost predicate SameUpToOrder(a: SiteDoc, b: SiteDoc) {
    && a.id == b.id && a.name == b.name
    && GroupIds(a.clockGroups) == GroupIds(b.clockGroups)
    && forall ga, gb :: ga in a.clockGroups && gb in b.clockGroups && ga.id == gb.id ==>
         && ga.title == gb.title
         && ClockIds(ga.clocks) == ClockIds(gb.clocks)
         && forall ca, cb :: ca in ga.clocks && cb in gb.clocks && ca.id == cb.id ==> ca == cb
  }

  // ---- convergence -------------------------------------------------------

  /** A successful clock upsert leaves the clock with the row the document
      asks for and every other row as it was. */
  lemma UpsertClockEffect(db: Db, groupId: string, c: ClockDoc, owned: map<string, ClockRow>)
    requires Valid(db)
    requires c.id in owned ==> c.id in db.clocks && db.clocks[c.id] == owned[c.id] && owned[c.id].groupId == groupId
    requires UpsertClock(db, groupId, c, owned).err.None?
    ensures var r := UpsertClock(db, groupId, c, owned);
      && c.id in r.db.clocks && r.db.clocks[c.id] == RowOf(groupId, c)
      && (forall x :: x in db.clocks ==> x in r.db.clocks)
      && (forall x :: x in r.db.clocks && x != c.id ==> x in db.clocks && r.db.clocks[x] == db.clocks[x])
  {
  }

  /** A successful run of one group's clock upserts leaves every listed
      clock with the row the document asks for, and every other row as it
      was. */
  lemma {:induction false} UpsertClocksEffect(db: Db, groupId: string, cs: seq<ClockDoc>, owned: map<string, ClockRow>)
    requires Valid(db) && DistinctClockIds(cs)
    requires forall c :: c in cs && c.id in owned ==>
      c.id in db.clocks && db.clocks[c.id] == owned[c.id] && owned[c.id].groupId == groupId
    requires UpsertClocks(db, groupId, cs, owned).err.None?
    ensures var r := UpsertClocks(db, groupId, cs, owned);
      && (forall c :: c in cs ==> c.id in r.db.clocks && r.db.clocks[c.id] == RowOf(groupId, c))
      && (forall x :: x in db.clocks ==> x in r.db.clocks)
      && (forall x :: x in r.db.clocks && x !in ClockIds(cs) ==> x in db.clocks && r.db.clocks[x] == db.clocks[x])
    decreases |cs|
  {
    if cs != [] {
      var c := cs[0];
      assert c in cs;
      var step := UpsertClock(db, groupId, c, owned);
      UpsertClockEffect(db, groupId, c, owned);
      ClocksSplit(cs);
      UpsertClocksEffect(step.db, groupId, cs[1..], owned);
    }
  }

  /** A successful pass of insertClocks for group `g` leaves the group
      owning exactly the clocks `g` lists, each with the listed fields. */
  lemma SyncGroupClocksEffect(db: Db, g: GroupDoc)
    requires Valid(db) && DistinctClockIds(g.clocks)
    requires SyncGroupClocks(db, g).err.None?
    ensures var r := SyncGroupClocks(db, g);
      && GroupClocks(r.db, g.id).Keys == ClockIds(g.clocks)
      && forall c :: c in g.clocks ==> c.id in r.db.clocks && r.db.clocks[c.id] == RowOf(g.id, c)
  {
    var owned := GroupClocks(db, g.id);
    var removed := RemovedIds(SelectClockIds(db, g.id), ClockIds(g.clocks));
    var cleared := RemoveClocks(db, removed);
    RemoveClocksRows(db, removed);
    UpsertClocksEffect(cleared, g.id, g.clocks, owned);
    var r := SyncGroupClocks(db, g);
    assert forall x :: x in GroupClocks(cleared, g.id) ==> x in ClockIds(g.clocks);
    forall c | c in g.clocks ensures c.id in GroupClocks(r.db, g.id) {
    }
  }

  /** A successful insertClocks leaves each listed group owning exactly the
      clocks it lists: groups handled later do not disturb the clocks of
      groups handled earlier. */
  lemma {:induction false} InsertClocksEffect(db: Db, gs: seq<GroupDoc>)
    requires Valid(db) && DistinctGroupIds(gs)
    requires forall g :: g in gs ==> DistinctClockIds(g.clocks)
    requires InsertClocksStep(db, gs).err.None?
    ensures var r := InsertClocksStep(db, gs);
      && (forall g :: g in gs ==> GroupClocks(r.db, g.id).Keys == ClockIds(g.clocks))
      && (forall g, c :: g in gs && c in g.clocks ==> c.id in r.db.clocks && r.db.clocks[c.id] == RowOf(g.id, c))
    decreases |gs|
  {
    if gs != [] {
      var g := gs[0];
      assert g in gs;
      SyncGroupClocksEffect(db, g);
      var step := SyncGroupClocks(db, g);
      assert DistinctGroupIds(gs[1..]);
      InsertClocksEffect(step.db, gs[1..]);
      InsertClocksKeeps(step.db, gs[1..]);
      var r := InsertClocksStep(db, gs);
      assert g.id !in GroupIds(gs[1..]);
      KeptGroupClocks(step.db, r.db, GroupIds(gs[1..]), g.id);
      assert forall h :: h in gs <==> h == g || h in gs[1..];
      forall c | c in g.clocks ensures c.id in r.db.clocks && r.db.clocks[c.id] == RowOf(g.id, c) {
        assert c.id in GroupClocks(step.db, g.id);
      }
    }
  }

  /** A successful group upsert leaves the group with the row the document
      asks for and every other row as it was. */
  lemma UpsertGroupEffect(db: Db, siteId: string, g: GroupDoc, owned: map<string, GroupRow>)
    requires Valid(db)
    requires g.id in owned ==> g.id in db.groups && db.groups[g.id] == owned[g.id] && owned[g.id].websiteId == siteId
    requires UpsertGroup(db, siteId, g, owned).err.None?
    ensures var r := UpsertGroup(db, siteId, g, owned);
      && g.id in r.db.groups && r.db.groups[g.id] == GroupRow(siteId, g.title)
      && (forall x :: x in db.groups ==> x in r.db.groups)
      && (forall x :: x in r.db.groups && x != g.id ==> x in db.groups && r.db.groups[x] == db.groups[x])
  {
  }

  /** A successful run of the group upserts leaves every listed group with
      the row the document asks for, and every other row as it was. */
  lemma {:induction false} UpsertGroupsEffect(db: Db, siteId: string, gs: seq<GroupDoc>, owned: map<string, GroupRow>)
    requires Valid(db) && DistinctGroupIds(gs)
    requires forall g :: g in gs && g.id in owned ==>
      g.id in db.groups && db.groups[g.id] == owned[g.id] && owned[g.id].websiteId == siteId
    requires UpsertGroups(db, siteId, gs, owned).err.None?
    ensures var r := UpsertGroups(db, siteId, gs, owned);
      && (forall g :: g in gs ==> g.id in r.db.groups && r.db.groups[g.id] == GroupRow(siteId, g.title))
      && (forall x :: x in db.groups ==> x in r.db.groups)
      && (forall x :: x in r.db.groups && x !in GroupIds(gs) ==> x in db.groups && r.db.groups[x] == db.groups[x])
    decreases |gs|
  {
    if gs != [] {
      var g := gs[0];
      assert g in gs;
      var step := UpsertGroup(db, siteId, g, owned);
      UpsertGroupEffect(db, siteId, g, owned);
      GroupsSplit(gs);
      UpsertGroupsEffect(step.db, siteId, gs[1..], owned);
    }
  }

  /** After a successful insert of a document whose ids are unique, the
      store holds the sanitized document. */
  lemma InsertConverges(db: Db, data: SiteDoc)
    requires Valid(db) && UniqueIds(Sanitized(data))
    requires Insert(db, data).err.None?
    ensures Holds(Insert(db, data).db, Sanitized(data))
  {
    var d := Sanitized(data);
    var afterSite := InsertSiteStep(db, d).db;
    var afterGroups := InsertGroupsStep(afterSite, d);
    InsertGroupsStepEffect(afterSite, d);
    InsertClocksEffect(afterGroups.db, d.clockGroups);
  }

  /** A successful insertGroups of a document whose group ids are distinct
      leaves the site owning exactly the listed groups, with their titles. */
  lemma InsertGroupsStepEffect(db: Db, d: SiteDoc)
    requires Valid(db) && DistinctGroupIds(d.clockGroups)
    requires InsertGroupsStep(db, d).err.None?
    ensures var r := InsertGroupsStep(db, d);
      && SiteGroups(r.db, d.id).Keys == GroupIds(d.clockGroups)
      && forall g :: g in d.clockGroups ==> g.id in r.db.groups && r.db.groups[g.id].title == g.title
  {
    var owned := SiteGroups(db, d.id);
    var removed := RemovedIds(SelectGroupIds(db, d.id), GroupIds(d.clockGroups));
    var cleared := RemoveGroups(db, removed);
    RemoveGroupsRows(db, removed);
    var r := UpsertGroups(cleared, d.id, d.clockGroups, owned);
    UpsertGroupsEffect(cleared, d.id, d.clockGroups, owned);
    forall x | x in GroupIds(d.clockGroups) ensures x in SiteGroups(r.db, d.id) {
      var g :| g in d.clockGroups && g.id == x;
    }
  }

  // ---- idempotence -------------------------------------------------------

  lemma {:induction false} UpsertGroupsQuiet(db: Db, siteId: string, gs: seq<GroupDoc>, owned: map<string, GroupRow>)
    requires Valid(db)
    requires forall g :: g in gs ==> g.id in owned && owned[g.id].title == g.title
    ensures UpsertGroups(db, siteId, gs, owned) == Run(db, None)
    decreases |gs|
  {
    if gs != [] {
      assert gs[0] in gs;
      UpsertGroupsQuiet(db, siteId, gs[1..], owned);
    }
  }

  lemma {:induction false} UpsertClocksQuiet(db: Db, groupId: string, cs: seq<ClockDoc>, owned: map<string, ClockRow>)
    requires Valid(db)
    requires forall c :: c in cs ==> c.id in owned && !Differs(c, owned[c.id])
    ensures UpsertClocks(db, groupId, cs, owned) == Run(db, None)
    decreases |cs|
  {
    if cs != [] {
      assert cs[0] in cs;
      UpsertClocksQuiet(db, groupId, cs[1..], owned);
    }
  }

  lemma {:induction false} InsertClocksQuiet(db: Db, gs: seq<GroupDoc>)
    requires Valid(db)
    requires forall g :: g in gs ==> GroupClocks(db, g.id).Keys == ClockIds(g.clocks)
    requires forall g, c :: g in gs && c in g.clocks ==> c.id in db.clocks && db.clocks[c.id] == RowOf(g.id, c)
    ensures InsertClocksStep(db, gs) == Run(db, None)
    decreases |gs|
  {
    if gs != [] {
      var g := gs[0];
      assert g in gs;
      NothingRemoved(SelectClockIds(db, g.id), ClockIds(g.clocks));
      UpsertClocksQuiet(db, g.id, g.clocks, GroupClocks(db, g.id));
      InsertClocksQuiet(db, gs[1..]);
    }
  }

  /** Inserting a document the store already holds issues no insert, no
      update and no delete, and changes nothing. */
  lemma InsertIdempotent(db: Db, data: SiteDoc)
    requires Valid(db) && Holds(db, Sanitized(data))
    ensures Insert(db, data) == Run(db, None)
  {
    var d := Sanitized(data);
    assert InsertSiteStep(db, d).db == db;
    NothingRemoved(SelectGroupIds(db, d.id), GroupIds(d.clockGroups));
    UpsertGroupsQuiet(db, d.id, d.clockGroups, SiteGroups(db, d.id));
    InsertClocksQuiet(db, d.clockGroups);
  }

  /** Calling insert a second time with the same document, when its ids are
      unique after lower-casing, issues no statement and changes nothing
      (`RepeatedClockFlips` shows why unique ids are needed). */
  lemma InsertTwice(db: Db, data: SiteDoc)
    requires Valid(db) && UniqueIds(Sanitized(data))
    requires Insert(db, data).err.None?
    ensures var once := Insert(db, data);
      Insert(once.db, data) == once
  {
    InsertConverges(db, data);
    InsertIdempotent(Insert(db, data).db, data);
  }

  /** The limit of idempotence: a group that lists one of its clocks twice,
      as `x` then `y`. Both entries are compared with the row read before
      the loop, so the pass succeeds and the last entry that differs from
      that row is the one left stored. */
  lemma RepeatedClockPass(db: Db, groupId: string, title: string, x: ClockDoc, y: ClockDoc)
    requires Valid(db) && x.id == y.id
    requires x.id in db.clocks && db.clocks[x.id].groupId == groupId
    ensures var before := db.clocks[x.id];
      var r := SyncGroupClocks(db, GroupDoc(groupId, title, [x, y]));
      && r.err == None && x.id in r.db.clocks
      && r.db.clocks[x.id] ==
        if Differs(y, before) then RowOf(groupId, y)
        else if Differs(x, before) then RowOf(groupId, x)
        else before
  {
    var cs := [x, y];
    var owned := GroupClocks(db, groupId);
    var removed := RemovedIds(SelectClockIds(db, groupId), ClockIds(cs));
    assert x in cs;
    var mid := RemoveClocks(db, removed);
    RemoveClocksRows(db, removed);
    assert x.id in mid.clocks && mid.clocks[x.id] == db.clocks[x.id] == owned[x.id];
    var first := UpsertClock(mid, groupId, x, owned);
    assert cs[1..] == [y] && [y][1..] == [];
    assert UpsertClocks(mid, groupId, cs, owned) == UpsertClocks(first.db, groupId, [y], owned);
    assert UpsertClocks(first.db, groupId, [y], owned) == UpsertClock(first.db, groupId, y, owned);
  }

  /** Such a document, with the clock's two entries differing, is never
      settled: each insert writes the entry the store does not hold, so a
      second insert changes the store again and get does not return the
      document. */
  lemma RepeatedClockFlips(db: Db, groupId: string, title: string, x: ClockDoc, y: ClockDoc)
    requires Valid(db) && x.id == y.id && Differs(x, RowOf(groupId, y))
    requires x.id in db.clocks && db.clocks[x.id] == RowOf(groupId, y)
    ensures var g := GroupDoc(groupId, title, [x, y]);
      var once := SyncGroupClocks(db, g);
      var twice := SyncGroupClocks(once.db, g);
      && once.err == None && x.id in once.db.clocks && once.db.clocks[x.id] == RowOf(groupId, x)
      && twice.err == None && x.id in twice.db.clocks && twice.db.clocks[x.id] == RowOf(groupId, y)
  {
    var g := GroupDoc(groupId, title, [x, y]);
    var once := SyncGroupClocks(db, g);
    RepeatedClockPass(db, groupId, title, x, y);
    assert !Differs(y, RowOf(groupId, y));
    assert once.db.clocks[x.id] == RowOf(groupId, x);
    assert Differs(y, RowOf(groupId, x));
    RepeatedClockPass(once.db, groupId, title, x, y);
  }

  /** Inserting a document whose site name and group titles the store
      already holds, with the site owning exactly its groups, runs only the
      clock passes. */
  lemma InsertSettledGroups(db: Db, d: SiteDoc)
    requires Valid(db) && IsSanitized(d)
    requires d.id in db.sites && db.sites[d.id].name == d.name
    requires SiteGroups(db, d.id).Keys == GroupIds(d.clockGroups)
    requires forall g :: g in d.clockGroups ==> g.id in db.groups && db.groups[g.id].title == g.title
    ensures Insert(db, d) == InsertClocksStep(db, d.clockGroups)
  {
    assert Sanitized(d) == d;
    assert InsertSiteStep(db, d).db == db;
    NothingRemoved(SelectGroupIds(db, d.id), GroupIds(d.clockGroups));
    UpsertGroupsQuiet(db, d.id, d.clockGroups, SiteGroups(db, d.id));
  }

  /** Inserting a one-group document whose site name and group title the
      store already holds, with the site owning only that group, runs only
      the group's clock pass. */
  lemma InsertSettledGroup(db: Db, data: SiteDoc)
    requires Valid(db) && IsSanitized(data) && |data.clockGroups| == 1
    requires data.id in db.sites && db.sites[data.id].name == data.name
    requires var g := data.clockGroups[0];
      SiteGroups(db, data.id).Keys == {g.id} && g.id in db.groups && db.groups[g.id].title == g.title
    ensures Insert(db, data) == SyncGroupClocks(db, data.clockGroups[0])
  {
    var g := data.clockGroups[0];
    assert data.clockGroups == [g];
    SingleGroupIds(g);
    InsertSettledGroups(db, data);
    InsertClocksOne(db, g);
  }

  lemma SingleGroupIds(g: GroupDoc)
    ensures GroupIds([g]) == {g.id}
  {
    assert g in [g];
  }

  /** insertClocks over a single group is that group's pass. */
  lemma InsertClocksOne(db: Db, g: GroupDoc)
    requires Valid(db)
    ensures InsertClocksStep(db, [g]) == SyncGroupClocks(db, g)
  {
    assert [g][1..] == [];
  }

  /** The same at the level of insert: a document that lists a clock of its
      one group twice, with differing fields, makes every insert write the
      clock again, flipping it between the two entries. */
  lemma RepeatedClockInsertFlips(db: Db, data: SiteDoc, x: ClockDoc, y: ClockDoc)
    requires Valid(db) && IsSanitized(data)
    requires |data.clockGroups| == 1 && data.clockGroups[0].clocks == [x, y]
    requires data.id in db.sites && db.sites[data.id].name == data.name
    requires var g := data.clockGroups[0];
      SiteGroups(db, data.id).Keys == {g.id} && g.id in db.groups && db.groups[g.id].title == g.title
    requires x.id == y.id && Differs(x, RowOf(data.clockGroups[0].id, y))
    requires x.id in db.clocks && db.clocks[x.id] == RowOf(data.clockGroups[0].id, y)
    ensures var groupId := data.clockGroups[0].id;
      var once := Insert(db, data);
      var twice := Insert(once.db, data);
      && once.err == None && x.id in once.db.clocks && once.db.clocks[x.id] == RowOf(groupId, x)
      && twice.err == None && x.id in twice.db.clocks && twice.db.clocks[x.id] == RowOf(groupId, y)
  {
    var g := data.clockGroups[0];
    assert g == GroupDoc(g.id, g.title, [x, y]);
    InsertSettledGroup(db, data);
    var once := SyncGroupClocks(db, g);
    assert once.db.groups == db.groups;
    InsertSettledGroup(once.db, data);
    RepeatedClockFlips(db, g.id, g.title, x, y);
  }

  // ---- round trip --------------------------------------------------------

  /** The groups get lists for a site are the views of exactly the groups
      the site owns, each listed once. */
  lemma GetGroups(db: Db, siteId: string)
    requires Valid(db) && siteId in db.sites
    ensures var v := Get(db, siteId).value;
      && GroupIds(v.clockGroups) == SiteGroups(db, siteId).Keys
      && DistinctGroupIds(v.clockGroups)
      && forall g :: g in v.clockGroups ==> g.id in db.groups && g == GroupView(db, g.id)
  {
    var gs := Get(db, siteId).value.clockGroups;
    var ids := SelectGroupIds(db, siteId);
    GetGroupsInOrder(db, siteId);
    forall g | g in gs ensures g.id in SiteGroups(db, siteId) && g == GroupView(db, g.id) {
      var k :| 0 <= k < |gs| && gs[k] == g;
      assert ids[k] in ids;
    }
    forall x | x in SiteGroups(db, siteId) ensures x in GroupIds(gs) {
      assert x in ids;
      var k :| 0 <= k < |ids| && ids[k] == x;
      assert gs[k] in gs;
    }
  }

  /** get lists the views of the site's groups in rowid order. */
  lemma GetGroupsInOrder(db: Db, siteId: string)
    requires Valid(db) && siteId in db.sites
    ensures var gs := Get(db, siteId).value.clockGroups;
      var ids := SelectGroupIds(db, siteId);
      && |gs| == |ids|
      && forall k :: 0 <= k < |ids| ==> gs[k] == GroupView(db, ids[k]) && gs[k].id == ids[k]
  {
  }

  /** A group view lists each clock of the group once, as its stored
      view, and lists no other clock. */
  lemma GroupViewClocks(db: Db, id: string)
    requires Valid(db) && id in db.groups
    ensures var v := GroupView(db, id);
      && DistinctClockIds(v.clocks)
      && (forall c :: c in v.clocks ==> c.id in GroupClocks(db, id) && c == ClockView(db, c.id))
      && (forall x :: x in GroupClocks(db, id) ==> x in ClockIds(v.clocks))
  {
    var v := GroupView(db, id);
    var cids := SelectClockIds(db, id);
    assert forall j :: 0 <= j < |cids| ==> v.clocks[j] == ClockView(db, cids[j]);
    forall c | c in v.clocks ensures c.id in GroupClocks(db, id) && c == ClockView(db, c.id) {
      var j :| 0 <= j < |v.clocks| && v.clocks[j] == c;
      assert cids[j] in cids;
    }
    forall x | x in GroupClocks(db, id) ensures x in ClockIds(v.clocks) {
      assert x in cids;
      var j :| 0 <= j < |cids| && cids[j] == x;
      assert v.clocks[j] in v.clocks;
    }
  }

  /** get on a site whose document the store holds returns that document,
      up to the order of groups and clocks, with unique ids. */
  lemma GetHeld(db: Db, d: SiteDoc)
    requires Valid(db) && Holds(db, d)
    ensures Get(db, d.id).Some?
    ensures SameUpToOrder(Get(db, d.id).value, d)
    ensures UniqueIds(Get(db, d.id).value)
  {
    var v := Get(db, d.id).value;
    GetGroups(db, d.id);
    forall ga, gb | ga in v.clockGroups && gb in d.clockGroups && ga.id == gb.id
      ensures ga.title == gb.title
      ensures ClockIds(ga.clocks) == ClockIds(gb.clocks)
      ensures forall ca, cb :: ca in ga.clocks && cb in gb.clocks && ca.id == cb.id ==> ca == cb
    {
      GroupViewHeld(db, gb, ga.id);
    }
    forall g | g in v.clockGroups ensures DistinctClockIds(g.clocks) {
      GroupViewClocks(db, g.id);
    }
  }

  /** A group whose clocks the store holds reads back exactly those clocks,
      field for field. */
  lemma GroupViewHeld(db: Db, g: GroupDoc, id: string)
    requires Valid(db) && id in db.groups && id == g.id
    requires GroupClocks(db, g.id).Keys == ClockIds(g.clocks)
    requires forall c :: c in g.clocks ==> c.id in db.clocks && db.clocks[c.id] == RowOf(g.id, c)
    ensures ClockIds(GroupView(db, id).clocks) == ClockIds(g.clocks)
    ensures forall ca, cb :: ca in GroupView(db, id).clocks && cb in g.clocks && ca.id == cb.id ==> ca == cb
  {
    var v := GroupView(db, id);
    GroupViewClocks(db, id);
    forall x | x in ClockIds(v.clocks) ensures x in ClockIds(g.clocks) {
      var c :| c in v.clocks && c.id == x;
    }
  }

  /** get after a successful insert of a document with unique ids returns
      the sanitized document, up to order, under the lower-cased site id. */
  lemma InsertThenGet(db: Db, data: SiteDoc)
    requires Valid(db) && UniqueIds(Sanitized(data))
    requires Insert(db, data).err.None?
    ensures var v := Get(Insert(db, data).db, Lower(data.id));
      v.Some? && SameUpToOrder(v.value, Sanitized(data))
  {
    InsertConverges(db, data);
    GetHeld(Insert(db, data).db, Sanitized(data));
  }
}
