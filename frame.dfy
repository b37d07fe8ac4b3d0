/** What insert leaves alone: other sites, the groups of other sites, and
    the clocks of groups it neither lists nor removes; and what it removes:
    a group the document no longer lists, with all of its clocks. */
module Frame {
  import opened Documents
  import opened Tables
  import opened Reconciler

  /** Every clock row whose group is not in `owners` is the same before and
      after, and no clock row of another group appears. */
  ghost predicate ClocksKept(before: Db, after: Db, owners: set<string>) {
    && (forall c :: c in before.clocks && before.clocks[c].groupId !in owners ==>
          c in after.clocks && after.clocks[c] == before.clocks[c])
    && (forall c :: c in after.clocks && after.clocks[c].groupId !in owners ==>
          c in before.clocks && before.clocks[c] == after.clocks[c])
  }

  /** Every group row of a site other than `siteId` is the same before and
      after, and no group row of another site appears. */
  ghost predicate GroupsKept(before: Db, after: Db, siteId: string) {
    && (forall g :: g in before.groups && before.groups[g].websiteId != siteId ==>
          g in after.groups && after.groups[g] == before.groups[g])
    && (forall g :: g in after.groups && after.groups[g].websiteId != siteId ==>
          g in before.groups && before.groups[g] == after.groups[g])
  }

  lemma KeptGroupClocks(before: Db, after: Db, owners: set<string>, groupId: string)
    requires ClocksKept(before, after, owners) && groupId !in owners
    ensures GroupClocks(after, groupId) == GroupClocks(before, groupId)
  {
  }

  lemma KeptSiteGroups(before: Db, after: Db, siteId: string, other: string)
    requires GroupsKept(before, after, siteId) && other != siteId
    ensures SiteGroups(after, other) == SiteGroups(before, other)
  {
  }

  /** Keeping the rows outside `owners` is transitive. */
  lemma ClocksKeptTrans(a: Db, b: Db, c: Db, owners: set<string>)
    requires ClocksKept(a, b, owners) && ClocksKept(b, c, owners)
    ensures ClocksKept(a, c, owners)
  {
  }

  /** One clock upsert touches only a row of its group, and the only row it
      can add is the clock's own. */
  lemma UpsertClockKeeps(db: Db, groupId: string, c: ClockDoc, owned: map<string, ClockRow>)
    requires Valid(db)
    requires forall x :: x in owned && x in db.clocks ==> db.clocks[x].groupId == groupId
    ensures var r := UpsertClock(db, groupId, c, owned);
      && ClocksKept(db, r.db, {groupId})
      && (forall x :: x in r.db.clocks ==> x in db.clocks || x == c.id)
      && forall x :: x in owned && x in r.db.clocks ==> r.db.clocks[x].groupId == groupId
  {
  }

  /** The clock upserts of one group touch only rows of that group: the
      rows they update belong to it, and the rows they insert are given to
      it. */
  lemma {:induction false} UpsertClocksKeeps(db: Db, groupId: string, cs: seq<ClockDoc>, owned: map<string, ClockRow>)
    requires Valid(db)
    requires forall x :: x in owned && x in db.clocks ==> db.clocks[x].groupId == groupId
    ensures var r := UpsertClocks(db, groupId, cs, owned);
      && ClocksKept(db, r.db, {groupId})
      && forall x :: x in r.db.clocks ==> x in db.clocks || x in ClockIds(cs)
    decreases |cs|
  {
    if cs != [] {
      var step := UpsertClock(db, groupId, cs[0], owned);
      UpsertClockKeeps(db, groupId, cs[0], owned);
      if step.err.None? {
        var r := UpsertClocks(step.db, groupId, cs[1..], owned);
        assert r == UpsertClocks(db, groupId, cs, owned);
        UpsertClocksKeeps(step.db, groupId, cs[1..], owned);
        ClocksKeptTrans(db, step.db, r.db, {groupId});
        forall x | x in r.db.clocks ensures x in db.clocks || x in ClockIds(cs) {
          if x !in db.clocks && x != cs[0].id {
            var c :| c in cs[1..] && c.id == x;
            assert c in cs;
          }
        }
        assert cs[0] in cs;
      }
    }
  }

  /** One pass of insertClocks touches only rows of its group. */
  lemma SyncGroupClocksKeeps(db: Db, g: GroupDoc)
    requires Valid(db)
    ensures var r := SyncGroupClocks(db, g);
      && ClocksKept(db, r.db, {g.id})
      && forall x :: x in r.db.clocks ==> x in db.clocks || x in ClockIds(g.clocks)
  {
    var owned := GroupClocks(db, g.id);
    var removed := RemovedIds(SelectClockIds(db, g.id), ClockIds(g.clocks));
    var cleared := RemoveClocks(db, removed);
    RemoveClocksRows(db, removed);
    UpsertClocksKeeps(cleared, g.id, g.clocks, owned);
  }

  /** insertClocks touches only rows of the groups it is given. */
  lemma {:induction false} InsertClocksKeeps(db: Db, gs: seq<GroupDoc>)
    requires Valid(db)
    ensures ClocksKept(db, InsertClocksStep(db, gs).db, GroupIds(gs))
    decreases |gs|
  {
    if gs != [] {
      SyncGroupClocksKeeps(db, gs[0]);
      var step := SyncGroupClocks(db, gs[0]);
      assert gs[0] in gs;
      if step.err.None? {
        InsertClocksKeeps(step.db, gs[1..]);
        assert forall x :: x in GroupIds(gs[1..]) ==> x in GroupIds(gs) by {
          forall x | x in GroupIds(gs[1..]) ensures x in GroupIds(gs) {
            var h :| h in gs[1..] && h.id == x;
            assert h in gs;
          }
        }
      }
    }
  }

  /** Keeping the group rows of other sites is transitive. */
  lemma GroupsKeptTrans(a: Db, b: Db, c: Db, siteId: string)
    requires GroupsKept(a, b, siteId) && GroupsKept(b, c, siteId)
    ensures GroupsKept(a, c, siteId)
  {
  }

  /** One group upsert touches only a group row of the site, and the only
      row it can add is the group's own. */
  lemma UpsertGroupKeeps(db: Db, siteId: string, g: GroupDoc, owned: map<string, GroupRow>)
    requires Valid(db)
    requires forall x :: x in owned && x in db.groups ==> db.groups[x].websiteId == siteId
    ensures var r := UpsertGroup(db, siteId, g, owned);
      && GroupsKept(db, r.db, siteId)
      && (forall x :: x in r.db.groups ==> x in db.groups || x == g.id)
      && forall x :: x in owned && x in r.db.groups ==> r.db.groups[x].websiteId == siteId
  {
  }

  /** The group upserts touch only rows of the site: the rows they update
      belong to it, the rows they insert are given to it, and no row besides
      the incoming ids appears. */
  lemma {:induction false} UpsertGroupsKeeps(db: Db, siteId: string, gs: seq<GroupDoc>, owned: map<string, GroupRow>)
    requires Valid(db)
    requires forall x :: x in owned && x in db.groups ==> db.groups[x].websiteId == siteId
    ensures var r := UpsertGroups(db, siteId, gs, owned);
      && GroupsKept(db, r.db, siteId)
      && forall x :: x in r.db.groups ==> x in db.groups || x in GroupIds(gs)
    decreases |gs|
  {
    if gs != [] {
      var step := UpsertGroup(db, siteId, gs[0], owned);
      UpsertGroupKeeps(db, siteId, gs[0], owned);
      if step.err.None? {
        var r := UpsertGroups(step.db, siteId, gs[1..], owned);
        assert r == UpsertGroups(db, siteId, gs, owned);
        UpsertGroupsKeeps(step.db, siteId, gs[1..], owned);
        GroupsKeptTrans(db, step.db, r.db, siteId);
        forall x | x in r.db.groups ensures x in db.groups || x in GroupIds(gs) {
          if x !in db.groups && x != gs[0].id {
            var h :| h in gs[1..] && h.id == x;
            assert h in gs;
          }
        }
        assert gs[0] in gs;
      }
    }
  }

  /** Keeping the rows outside a set of groups keeps those outside any
      larger set. */
  lemma ClocksKeptWiden(a: Db, b: Db, owners: set<string>, more: set<string>)
    requires ClocksKept(a, b, owners) && owners <= more
    ensures ClocksKept(a, b, more)
  {
  }

  /** insertGroups touches only the site's group rows and the clocks of the
      site's groups. */
  lemma InsertGroupsStepKeeps(db: Db, d: SiteDoc)
    requires Valid(db)
    ensures var r := InsertGroupsStep(db, d);
      && GroupsKept(db, r.db, d.id)
      && ClocksKept(db, r.db, SiteGroups(db, d.id).Keys)
  {
    var owned := SiteGroups(db, d.id);
    var removed := RemovedIds(SelectGroupIds(db, d.id), GroupIds(d.clockGroups));
    var cleared := RemoveGroups(db, removed);
    RemoveGroupsRows(db, removed);
    UpsertGroupsKeeps(cleared, d.id, d.clockGroups, owned);
    assert GroupsKept(db, cleared, d.id);
    GroupsKeptTrans(db, cleared, InsertGroupsStep(db, d).db, d.id);
  }

  /** insert, failing or not, keeps every group row of another site and
      every clock row outside the site's groups and the listed groups. */
  lemma InsertKept(db: Db, data: SiteDoc)
    requires Valid(db)
    ensures var d := Sanitized(data);
      var r := Insert(db, data);
      && r.db.sites == db.sites[d.id := SiteRow(d.name)]
      && GroupsKept(db, r.db, d.id)
      && ClocksKept(db, r.db, SiteGroups(db, d.id).Keys + GroupIds(d.clockGroups))
  {
    var d := Sanitized(data);
    var afterSite := InsertSiteStep(db, d).db;
    var afterGroups := InsertGroupsStep(afterSite, d);
    var r := Insert(db, data);
    var owners := SiteGroups(db, d.id).Keys + GroupIds(d.clockGroups);
    assert SiteGroups(afterSite, d.id) == SiteGroups(db, d.id);
    InsertGroupsStepKeeps(afterSite, d);
    ClocksKeptWiden(db, afterGroups.db, SiteGroups(db, d.id).Keys, owners);
    if afterGroups.err.None? {
      InsertClocksKeeps(afterGroups.db, d.clockGroups);
      ClocksKeptWiden(afterGroups.db, r.db, GroupIds(d.clockGroups), owners);
      ClocksKeptTrans(db, afterGroups.db, r.db, owners);
    }
  }

  /** insert changes no other site's row, no group row of another site, and
      no clock of a group that is neither listed by the document nor one of
      the site's groups (which it removes). This holds whether or not the
      call fails. */
  lemma InsertKeepsOthers(db: Db, data: SiteDoc)
    requires Valid(db)
    ensures var d := Sanitized(data);
      var r := Insert(db, data);
      && (forall s :: s != d.id ==> (s in r.db.sites <==> s in db.sites))
      && (forall s :: s != d.id && s in db.sites ==> r.db.sites[s] == db.sites[s])
      && (forall s :: s != d.id ==> SiteGroups(r.db, s) == SiteGroups(db, s))
      && (forall gid :: gid !in GroupIds(d.clockGroups) && gid !in SiteGroups(db, d.id) ==>
            GroupClocks(r.db, gid) == GroupClocks(db, gid))
  {
    var d := Sanitized(data);
    var r := Insert(db, data);
    var owners := SiteGroups(db, d.id).Keys + GroupIds(d.clockGroups);
    InsertKept(db, data);
    forall s | s != d.id
      ensures SiteGroups(r.db, s) == SiteGroups(db, s)
    {
      KeptSiteGroups(db, r.db, d.id, s);
    }
    forall gid | gid !in GroupIds(d.clockGroups) && gid !in SiteGroups(db, d.id)
      ensures GroupClocks(r.db, gid) == GroupClocks(db, gid)
    {
      KeptGroupClocks(db, r.db, owners, gid);
    }
  }

  /** insertGroups removes a group of the site that the document does not
      list, together with its clocks, whether or not it then fails. */
  lemma InsertGroupsStepRemoves(db: Db, d: SiteDoc, gid: string)
    requires Valid(db)
    requires gid in SiteGroups(db, d.id) && gid !in GroupIds(d.clockGroups)
    ensures var r := InsertGroupsStep(db, d);
      gid !in r.db.groups && GroupClocks(r.db, gid) == map[]
  {
    var owned := SiteGroups(db, d.id);
    var removed := RemovedIds(SelectGroupIds(db, d.id), GroupIds(d.clockGroups));
    var cleared := RemoveGroups(db, removed);
    RemoveGroupsRows(db, removed);
    assert gid in removed;
    UpsertGroupsKeeps(cleared, d.id, d.clockGroups, owned);
  }

  /** A group of the site that the document no longer lists is gone after
      insert, and so is every clock of it, whether or not the call fails. */
  lemma InsertDeletesAbsentGroup(db: Db, data: SiteDoc, gid: string)
    requires Valid(db)
    requires var d := Sanitized(data);
      gid in SiteGroups(db, d.id) && gid !in GroupIds(d.clockGroups)
    ensures var r := Insert(db, data);
      gid !in r.db.groups && GroupClocks(r.db, gid) == map[]
  {
    var d := Sanitized(data);
    var afterSite := InsertSiteStep(db, d).db;
    assert SiteGroups(afterSite, d.id) == SiteGroups(db, d.id);
    InsertGroupsStepRemoves(afterSite, d, gid);
    var afterGroups := InsertGroupsStep(afterSite, d);
    if afterGroups.err.None? {
      InsertClocksKeeps(afterGroups.db, d.clockGroups);
      KeptGroupClocks(afterGroups.db, InsertClocksStep(afterGroups.db, d.clockGroups).db, GroupIds(d.clockGroups), gid);
    }
  }
}
