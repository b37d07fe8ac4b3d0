/** The reconciliation of data/ClockData.js as functions over the tables:
    each function mirrors one loop or one branch of the source, in the same
    order, so that the statement log and the first failing insert are the
    source's. The class in module ClockData runs these steps in place. */
module Reconciler {
  import opened Wrappers
  import opened Documents
  import opened Tables

  /** The ids of `existing` that `incoming` does not list, in the order of
      `existing` (the `map`/`filter`/`includes` chain that picks the rows to
      remove). */
  function RemovedIds(existing: seq<string>, incoming: set<string>): (r: seq<string>)
    ensures forall x :: x in r <==> x in existing && x !in incoming
    ensures Distinct(existing) ==> Distinct(r)
  {
    Restrict(existing, Elems(existing) - incoming)
  }

  /** When every existing id is still listed, nothing is removed. */
  lemma {:induction false} NothingRemoved(existing: seq<string>, incoming: set<string>)
    requires forall x :: x in existing ==> x in incoming
    ensures RemovedIds(existing, incoming) == []
  {
    RestrictNothing(existing, Elems(existing) - incoming);
  }

  // ---- insertSite --------------------------------------------------------

  /** Upsert of the site row: a missing row is inserted, a row with another
      name gets only its name updated, an equal name writes nothing. */
  function InsertSiteStep(db: Db, data: SiteDoc): (r: Run)
    requires Valid(db)
    ensures Valid(r.db) && r.err == None
    ensures r.db.sites == db.sites[data.id := SiteRow(data.name)]
    ensures r.db.groups == db.groups && r.db.groupOrder == db.groupOrder
    ensures r.db.clocks == db.clocks && r.db.clockOrder == db.clockOrder
    ensures data.id !in db.sites ==> r.db.log == db.log + [InsertRow(SiteClocks, data.id)]
    ensures data.id in db.sites && db.sites[data.id].name != data.name ==>
      r.db.log == db.log + [UpdateRow(SiteClocks, data.id)]
    ensures data.id in db.sites && db.sites[data.id].name == data.name ==> r.db == db
  {
    match SelectSite(db, data.id)
    case None => InsertSite(db, data.id, SiteRow(data.name))
    case Some(row) =>
      if data.name != row.name then Run(UpdateSiteName(db, data.id, data.name), None)
      else Run(db, None)
  }

  // ---- insertGroups ------------------------------------------------------

  /** The removal loop of insertGroups: for each removed group, first all of
      its clocks, then the group row. */
  function RemoveGroups(db: Db, removed: seq<string>): (r: Db)
    requires Valid(db)
    ensures Valid(r) && r.sites == db.sites
    decreases |removed|
  {
    if removed == [] then db
    else RemoveGroups(DeleteGroup(DeleteGroupClocks(db, removed[0]), removed[0]), removed[1..])
  }

  /** After the removal loop of insertGroups the removed groups and every
      clock of theirs are gone, and every other row is as it was. */
  lemma {:induction false} RemoveGroupsRows(db: Db, removed: seq<string>)
    requires Valid(db)
    ensures var r := RemoveGroups(db, removed);
      && (forall g :: g in r.groups <==> g in db.groups && g !in removed)
      && (forall g :: g in r.groups ==> r.groups[g] == db.groups[g])
      && (forall c :: c in r.clocks <==> c in db.clocks && db.clocks[c].groupId !in removed)
      && (forall c :: c in r.clocks ==> r.clocks[c] == db.clocks[c])
    decreases |removed|
  {
    if removed != [] {
      var next := DeleteGroup(DeleteGroupClocks(db, removed[0]), removed[0]);
      RemoveGroupsRows(next, removed[1..]);
      assert forall g :: g in removed <==> g == removed[0] || g in removed[1..];
    }
  }

  /** The statements the removal loop of insertGroups issues: per removed
      group and in order, the delete of its clocks, then the delete of the
      group row. */
  function GroupRemovalLog(removed: seq<string>): (r: seq<Stmt>)
    ensures |r| == 2 * |removed|
    ensures forall k :: 0 <= k < |removed| ==>
      && r[2 * k] == DeleteClocksOfGroup(removed[k])
      && r[2 * k + 1] == DeleteById(ClockGroups, removed[k])
  {
    if removed == [] then []
    else
      var rest := GroupRemovalLog(removed[1..]);
      assert forall k :: 1 <= k < |removed| ==> removed[k] == removed[1..][k - 1];
      [DeleteClocksOfGroup(removed[0]), DeleteById(ClockGroups, removed[0])] + rest
  }

  lemma {:induction false} RemoveGroupsLog(db: Db, removed: seq<string>)
    requires Valid(db)
    ensures RemoveGroups(db, removed).log == db.log + GroupRemovalLog(removed)
    decreases |removed|
  {
    if removed != [] {
      var next := DeleteGroup(DeleteGroupClocks(db, removed[0]), removed[0]);
      RemoveGroupsLog(next, removed[1..]);
      assert next.log == db.log + [DeleteClocksOfGroup(removed[0]), DeleteById(ClockGroups, removed[0])];
      assert GroupRemovalLog(removed) ==
        [DeleteClocksOfGroup(removed[0]), DeleteById(ClockGroups, removed[0])] + GroupRemovalLog(removed[1..]);
    }
  }

  /** One incoming group: a group the site does not own yet is inserted with
      `website_id` set to the site (failing if the id is taken); an owned
      group whose title differs gets only its title updated; otherwise
      nothing is written. `owned` is the site's group rows as they were read
      before the loop. */
  function UpsertGroup(db: Db, siteId: string, g: GroupDoc, owned: map<string, GroupRow>): (r: Run)
    requires Valid(db)
    ensures Valid(r.db)
    ensures r.db.sites == db.sites && r.db.clocks == db.clocks && r.db.clockOrder == db.clockOrder
    ensures g.id !in owned && g.id in db.groups ==> r == Run(db, Some(DuplicateKey(ClockGroups, g.id)))
    ensures g.id !in owned && g.id !in db.groups ==>
      && r.err == None
      && r.db.groups == db.groups[g.id := GroupRow(siteId, g.title)]
      && r.db.log == db.log + [InsertRow(ClockGroups, g.id)]
    ensures g.id in owned && g.title != owned[g.id].title ==>
      && r.err == None
      && r.db == UpdateGroupTitle(db, g.id, g.title)
      && r.db.log == db.log + [UpdateRow(ClockGroups, g.id)]
    ensures g.id in owned && g.title == owned[g.id].title ==> r == Run(db, None)
  {
    if g.id !in owned then InsertGroup(db, g.id, GroupRow(siteId, g.title))
    else if g.title != owned[g.id].title then Run(UpdateGroupTitle(db, g.id, g.title), None)
    else Run(db, None)
  }

  /** The upsert loop of insertGroups, stopping at the first failing insert. */
  function UpsertGroups(db: Db, siteId: string, gs: seq<GroupDoc>, owned: map<string, GroupRow>): (r: Run)
    requires Valid(db)
    ensures Valid(r.db)
    ensures r.db.sites == db.sites && r.db.clocks == db.clocks && r.db.clockOrder == db.clockOrder
    decreases |gs|
  {
    if gs == [] then Run(db, None)
    else
      var step := UpsertGroup(db, siteId, gs[0], owned);
      if step.err.Some? then step else UpsertGroups(step.db, siteId, gs[1..], owned)
  }

  /** insertGroups: read the site's groups once, remove the ones the
      document no longer lists, then upsert the incoming ones. */
  function InsertGroupsStep(db: Db, data: SiteDoc): (r: Run)
    requires Valid(db)
    ensures Valid(r.db)
    ensures r.db.sites == db.sites
  {
    var owned := SiteGroups(db, data.id);
    var removed := RemovedIds(SelectGroupIds(db, data.id), GroupIds(data.clockGroups));
    UpsertGroups(RemoveGroups(db, removed), data.id, data.clockGroups, owned)
  }

  // ---- insertClocks ------------------------------------------------------

  /** The row a clock of the document asks for in group `groupId`. */
  function RowOf(groupId: string, c: ClockDoc): ClockRow {
    ClockRow(groupId, c.title, c.totalSegments, c.filledSegments, c.color)
  }

  /** The loose inequality test that decides whether a stored clock is
      updated; a missing colour and a NULL colour are both `None`. */
  predicate Differs(c: ClockDoc, row: ClockRow) {
    || c.title != row.title
    || c.filledSegments != row.filledSegments
    || c.totalSegments != row.totalSegments
    || c.color != row.color
  }

  /** The removal loop of insertClocks: delete each clock by id. */
  function RemoveClocks(db: Db, removed: seq<string>): (r: Db)
    requires Valid(db)
    ensures Valid(r)
    ensures r.sites == db.sites && r.groups == db.groups && r.groupOrder == db.groupOrder
    decreases |removed|
  {
    if removed == [] then db
    else RemoveClocks(DeleteClock(db, removed[0]), removed[1..])
  }

  /** After the removal loop of insertClocks the removed clocks are gone and
      every other clock row is as it was. */
  lemma {:induction false} RemoveClocksRows(db: Db, removed: seq<string>)
    requires Valid(db)
    ensures var r := RemoveClocks(db, removed);
      && (forall c :: c in r.clocks <==> c in db.clocks && c !in removed)
      && (forall c :: c in r.clocks ==> r.clocks[c] == db.clocks[c])
    decreases |removed|
  {
    if removed != [] {
      RemoveClocksRows(DeleteClock(db, removed[0]), removed[1..]);
      assert forall c :: c in removed <==> c == removed[0] || c in removed[1..];
    }
  }

  /** The statements the removal loop of insertClocks issues: one delete by
      id per removed clock, in order. */
  function ClockRemovalLog(removed: seq<string>): (r: seq<Stmt>)
    ensures |r| == |removed|
    ensures forall k :: 0 <= k < |removed| ==> r[k] == DeleteById(Clocks, removed[k])
  {
    if removed == [] then []
    else
      var rest := ClockRemovalLog(removed[1..]);
      assert forall k :: 1 <= k < |removed| ==> removed[k] == removed[1..][k - 1];
      [DeleteById(Clocks, removed[0])] + rest
  }

  lemma {:induction false} RemoveClocksLog(db: Db, removed: seq<string>)
    requires Valid(db)
    ensures RemoveClocks(db, removed).log == db.log + ClockRemovalLog(removed)
    decreases |removed|
  {
    if removed != [] {
      var next := DeleteClock(db, removed[0]);
      RemoveClocksLog(next, removed[1..]);
      assert next.log == db.log + [DeleteById(Clocks, removed[0])];
      assert ClockRemovalLog(removed) == [DeleteById(Clocks, removed[0])] + ClockRemovalLog(removed[1..]);
    }
  }

  /** One incoming clock: a clock the group does not own yet is inserted
      with `group_id` set to the group and all its fields (failing if the id
      is taken); an owned clock is updated, all four fields together, exactly
      when one of them differs; otherwise nothing is written. */
  function UpsertClock(db: Db, groupId: string, c: ClockDoc, owned: map<string, ClockRow>): (r: Run)
    requires Valid(db)
    ensures Valid(r.db)
    ensures r.db.sites == db.sites && r.db.groups == db.groups && r.db.groupOrder == db.groupOrder
    ensures c.id !in owned && c.id in db.clocks ==> r == Run(db, Some(DuplicateKey(Clocks, c.id)))
    ensures c.id !in owned && c.id !in db.clocks ==>
      && r.err == None
      && r.db.clocks == db.clocks[c.id := RowOf(groupId, c)]
      && r.db.log == db.log + [InsertRow(Clocks, c.id)]
    ensures c.id in owned && Differs(c, owned[c.id]) ==>
      && r.err == None
      && r.db == UpdateClock(db, c.id, c.title, c.totalSegments, c.filledSegments, c.color)
      && r.db.log == db.log + [UpdateRow(Clocks, c.id)]
    ensures c.id in owned && !Differs(c, owned[c.id]) ==> r == Run(db, None)
  {
    if c.id !in owned then InsertClock(db, c.id, RowOf(groupId, c))
    else if Differs(c, owned[c.id]) then
      Run(UpdateClock(db, c.id, c.title, c.totalSegments, c.filledSegments, c.color), None)
    else Run(db, None)
  }

  /** The upsert loop over one group's clocks, stopping at the first failing
      insert. */
  function UpsertClocks(db: Db, groupId: string, cs: seq<ClockDoc>, owned: map<string, ClockRow>): (r: Run)
    requires Valid(db)
    ensures Valid(r.db)
    ensures r.db.sites == db.sites && r.db.groups == db.groups && r.db.groupOrder == db.groupOrder
    decreases |cs|
  {
    if cs == [] then Run(db, None)
    else
      var step := UpsertClock(db, groupId, cs[0], owned);
      if step.err.Some? then step else UpsertClocks(step.db, groupId, cs[1..], owned)
  }

  /** One pass of insertClocks' outer loop: read the group's clocks, delete
      the ones it no longer lists, upsert the incoming ones. */
  function SyncGroupClocks(db: Db, g: GroupDoc): (r: Run)
    requires Valid(db)
    ensures Valid(r.db)
    ensures r.db.sites == db.sites && r.db.groups == db.groups && r.db.groupOrder == db.groupOrder
  {
    var owned := GroupClocks(db, g.id);
    var removed := RemovedIds(SelectClockIds(db, g.id), ClockIds(g.clocks));
    UpsertClocks(RemoveClocks(db, removed), g.id, g.clocks, owned)
  }

  /** insertClocks: the incoming groups in document order. */
  function InsertClocksStep(db: Db, gs: seq<GroupDoc>): (r: Run)
    requires Valid(db)
    ensures Valid(r.db)
    ensures r.db.sites == db.sites && r.db.groups == db.groups && r.db.groupOrder == db.groupOrder
    decreases |gs|
  {
    if gs == [] then Run(db, None)
    else
      var step := SyncGroupClocks(db, gs[0]);
      if step.err.Some? then step else InsertClocksStep(step.db, gs[1..])
  }

  // ---- insert ------------------------------------------------------------

  /** insert: sanitize the ids, then the site, the groups and the clocks. */
  function Insert(db: Db, data: SiteDoc): (r: Run)
    requires Valid(db)
    ensures Valid(r.db)
  {
    var d := Sanitized(data);
    var afterSite := InsertSiteStep(db, d).db;
    var afterGroups := InsertGroupsStep(afterSite, d);
    if afterGroups.err.Some? then afterGroups else InsertClocksStep(afterGroups.db, d.clockGroups)
  }

  // ---- get ---------------------------------------------------------------

  /** A stored clock without its `group_id`. */
  function ClockView(db: Db, id: string): (r: ClockDoc)
    requires id in db.clocks
  {
    var row := db.clocks[id];
    ClockDoc(id, row.title, row.totalSegments, row.filledSegments, row.color)
  }

  /** A stored group without its `website_id`, with its clocks in rowid
      order. */
  function GroupView(db: Db, id: string): (r: GroupDoc)
    requires Valid(db) && id in db.groups
  {
    var ids := SelectClockIds(db, id);
    GroupDoc(id, db.groups[id].title, seq(|ids|, k requires 0 <= k < |ids| => ClockView(db, ids[k])))
  }

  /** get: the stored document of a site, or `None` where the source throws
      because no site row has this id. The id is not lower-cased. */
  function Get(db: Db, siteId: string): (r: Option<SiteDoc>)
    requires Valid(db)
    ensures r.Some? <==> siteId in db.sites
    ensures r.Some? ==> r.value.id == siteId && r.value.name == db.sites[siteId].name
  {
    match SelectSite(db, siteId)
    case None => None
    case Some(row) =>
      var ids := SelectGroupIds(db, siteId);
      Some(SiteDoc(siteId, row.name, seq(|ids|, k requires 0 <= k < |ids| => GroupView(db, ids[k]))))
  }
}
