/** The ClockData class of data/ClockData.js: it owns the three tables and
    reconciles them, statement by statement, against a submitted document.
    Each method is proved to leave the tables, the statement log and the
    error exactly as the matching function of module Reconciler says. */
module ClockData {
  import opened Wrappers
  import opened Text
  import opened Documents
  import opened Tables
  import Reconciler

  class ClockData {
    var sites: map<string, SiteRow>
    var groups: map<string, GroupRow>
    var groupOrder: seq<string>
    var clocks: map<string, ClockRow>
    var clockOrder: seq<string>
    var log: seq<Stmt>

    /** The tables as a value. */
    function Snapshot(): Db
      reads this
    {
      Db(sites, groups, groupOrder, clocks, clockOrder, log)
    }

    ghost predicate Valid()
      reads this
    {
      Tables.Valid(Snapshot())
    }

    /** A store with three empty tables. */
    constructor ()
      ensures Valid()
      ensures Snapshot() == Db(map[], map[], [], map[], [], [])
    {
      sites, groups, groupOrder := map[], map[], [];
      clocks, clockOrder, log := map[], [], [];
    }

    /** Carries out a statement whose effect on the tables is `db`. */
    method Execute(db: Db)
      modifies this
      ensures Snapshot() == db
    {
      sites, groups, groupOrder := db.sites, db.groups, db.groupOrder;
      clocks, clockOrder, log := db.clocks, db.clockOrder, db.log;
    }

    /** sanitizeIds: lower-case the site id and, in place, every group and
        clock id. */
    static method SanitizeIds(data: SiteDoc) returns (r: SiteDoc)
      ensures r == Sanitized(data)
    {
      var gs := data.clockGroups;
      for gi := 0 to |gs|
        invariant |gs| == |data.clockGroups|
        invariant forall k :: 0 <= k < gi ==> gs[k] == SanitizedGroup(data.clockGroups[k])
        invariant forall k :: gi <= k < |gs| ==> gs[k] == data.clockGroups[k]
      {
        var cs := gs[gi].clocks;
        for ci := 0 to |cs|
          invariant |cs| == |gs[gi].clocks|
          invariant forall k :: 0 <= k < ci ==> cs[k] == SanitizedClock(gs[gi].clocks[k])
          invariant forall k :: ci <= k < |cs| ==> cs[k] == gs[gi].clocks[k]
        {
          cs := cs[ci := cs[ci].(id := Lower(cs[ci].id))];
        }
        assert cs == SanitizedGroup(gs[gi]).clocks;
        gs := gs[gi := gs[gi].(id := Lower(gs[gi].id), clocks := cs)];
      }
      r := data.(id := Lower(data.id), clockGroups := gs);
      assert gs == Sanitized(data).clockGroups;
    }

    /** get: the stored document of `siteId`, its groups and their clocks in
        rowid order, with the linkage fields left out; `None` where the
        source throws because there is no such site. */
    method Get(siteId: string) returns (r: Option<SiteDoc>)
      requires Valid()
      ensures r == Reconciler.Get(Snapshot(), siteId)
    {
      var db := Snapshot();
      var site := SelectSite(db, siteId);
      if site.None? {
        return None;
      }
      ghost var expected := Reconciler.Get(db, siteId).value.clockGroups;
      var ids := SelectGroupIds(db, siteId);
      var views: seq<GroupDoc> := [];
      for i := 0 to |ids|
        invariant views == expected[..i]
      {
        assert expected[i] == Reconciler.GroupView(db, ids[i]);
        var clockViews := GroupClockViews(ids[i]);
        views := views + [GroupDoc(ids[i], db.groups[ids[i]].title, clockViews)];
      }
      assert views == expected;
      r := Some(SiteDoc(siteId, site.value.name, views));
    }

    /** The clocks of one group as get lists them: in rowid order, without
        their `group_id`. */
    method GroupClockViews(groupId: string) returns (views: seq<ClockDoc>)
      requires Valid() && groupId in groups
      ensures views == Reconciler.GroupView(Snapshot(), groupId).clocks
    {
      var db := Snapshot();
      ghost var expected := Reconciler.GroupView(db, groupId).clocks;
      var ids := SelectClockIds(db, groupId);
      views := [];
      for j := 0 to |ids|
        invariant views == expected[..j]
      {
        var row := db.clocks[ids[j]];
        views := views + [ClockDoc(ids[j], row.title, row.totalSegments, row.filledSegments, row.color)];
      }
      assert views == expected;
    }

    /** insert: sanitize the ids, then reconcile the site, its groups and
        their clocks, stopping at the first failing insert. */
    method Insert(data: SiteDoc) returns (err: Option<KeyError>)
      requires Valid()
      modifies this
      ensures Valid()
      ensures Run(Snapshot(), err) == Reconciler.Insert(old(Snapshot()), data)
    {
      var d := SanitizeIds(data);
      InsertSite(d);
      err := InsertGroups(d);
      if err.Some? {
        return;
      }
      err := InsertClocks(d);
    }

    /** insertSite. */
    method InsertSite(data: SiteDoc)
      requires Valid()
      modifies this
      ensures Valid()
      ensures Snapshot() == Reconciler.InsertSiteStep(old(Snapshot()), data).db
    {
      var row := SelectSite(Snapshot(), data.id);
      if row.None? {
        var run := Tables.InsertSite(Snapshot(), data.id, SiteRow(data.name));
        Execute(run.db);
      } else if data.name != row.value.name {
        Execute(UpdateSiteName(Snapshot(), data.id, data.name));
      }
    }

    /** insertGroups: read the site's groups once, remove the ones the
        document no longer lists, then upsert the incoming ones. */
    method InsertGroups(data: SiteDoc) returns (err: Option<KeyError>)
      requires Valid()
      modifies this
      ensures Valid()
      ensures Run(Snapshot(), err) == Reconciler.InsertGroupsStep(old(Snapshot()), data)
    {
      var db := Snapshot();
      var owned := SiteGroups(db, data.id);
      var removed := Reconciler.RemovedIds(SelectGroupIds(db, data.id), GroupIds(data.clockGroups));
      RemoveGroups(removed);
      err := UpsertGroups(data.id, data.clockGroups, owned);
    }

    /** The removal loop of insertGroups: the clocks of each removed group,
        then the group row. */
    method RemoveGroups(removed: seq<string>)
      requires Valid()
      modifies this
      ensures Valid()
      ensures Snapshot() == Reconciler.RemoveGroups(old(Snapshot()), removed)
    {
      for i := 0 to |removed|
        invariant Valid()
        invariant Reconciler.RemoveGroups(Snapshot(), removed[i..]) == Reconciler.RemoveGroups(old(Snapshot()), removed)
      {
        assert removed[i..][1..] == removed[i + 1..];
        Execute(DeleteGroupClocks(Snapshot(), removed[i]));
        Execute(DeleteGroup(Snapshot(), removed[i]));
      }
    }

    /** The upsert loop of insertGroups, returning at the first failing
        insert. */
    method UpsertGroups(siteId: string, gs: seq<GroupDoc>, owned: map<string, GroupRow>) returns (err: Option<KeyError>)
      requires Valid()
      modifies this
      ensures Valid()
      ensures Run(Snapshot(), err) == Reconciler.UpsertGroups(old(Snapshot()), siteId, gs, owned)
    {
      err := None;
      for i := 0 to |gs|
        invariant Valid()
        invariant Reconciler.UpsertGroups(Snapshot(), siteId, gs[i..], owned)
               == Reconciler.UpsertGroups(old(Snapshot()), siteId, gs, owned)
      {
        assert gs[i..][1..] == gs[i + 1..];
        var g := gs[i];
        if g.id !in owned {
          var run := InsertGroup(Snapshot(), g.id, GroupRow(siteId, g.title));
          Execute(run.db);
          if run.err.Some? {
            err := run.err;
            return;
          }
        } else if g.title != owned[g.id].title {
          Execute(UpdateGroupTitle(Snapshot(), g.id, g.title));
        }
      }
    }

    /** insertClocks. */
    method InsertClocks(data: SiteDoc) returns (err: Option<KeyError>)
      requires Valid()
      modifies this
      ensures Valid()
      ensures Run(Snapshot(), err) == Reconciler.InsertClocksStep(old(Snapshot()), data.clockGroups)
    {
      var gs := data.clockGroups;
      err := None;
      for i := 0 to |gs|
        invariant Valid() && err == None
        invariant Reconciler.InsertClocksStep(Snapshot(), gs[i..])
               == Reconciler.InsertClocksStep(old(Snapshot()), gs)
      {
        assert gs[i..][1..] == gs[i + 1..];
        ghost var before := Snapshot();
        err := SyncGroupClocks(gs[i]);
        assert Run(Snapshot(), err) == Reconciler.SyncGroupClocks(before, gs[i]);
        if err.Some? {
          return;
        }
      }
    }

    /** One pass of insertClocks' outer loop, for group `g`: read its
        clocks, delete the ones it no longer lists, upsert the rest. */
    method SyncGroupClocks(g: GroupDoc) returns (err: Option<KeyError>)
      requires Valid()
      modifies this
      ensures Valid()
      ensures Run(Snapshot(), err) == Reconciler.SyncGroupClocks(old(Snapshot()), g)
    {
      var db := Snapshot();
      var owned := GroupClocks(db, g.id);
      var removed := Reconciler.RemovedIds(SelectClockIds(db, g.id), ClockIds(g.clocks));
      RemoveClocks(removed);
      err := UpsertClocks(g.id, g.clocks, owned);
    }

    /** The removal loop of insertClocks: delete each clock by id. */
    method RemoveClocks(removed: seq<string>)
      requires Valid()
      modifies this
      ensures Valid()
      ensures Snapshot() == Reconciler.RemoveClocks(old(Snapshot()), removed)
    {
      for i := 0 to |removed|
        invariant Valid()
        invariant Reconciler.RemoveClocks(Snapshot(), removed[i..]) == Reconciler.RemoveClocks(old(Snapshot()), removed)
      {
        assert removed[i..][1..] == removed[i + 1..];
        Execute(DeleteClock(Snapshot(), removed[i]));
      }
    }

    /** The upsert loop over one group's clocks, returning at the first
        failing insert. */
    method UpsertClocks(groupId: string, cs: seq<ClockDoc>, owned: map<string, ClockRow>) returns (err: Option<KeyError>)
      requires Valid()
      modifies this
      ensures Valid()
      ensures Run(Snapshot(), err) == Reconciler.UpsertClocks(old(Snapshot()), groupId, cs, owned)
    {
      err := None;
      for i := 0 to |cs|
        invariant Valid()
        invariant Reconciler.UpsertClocks(Snapshot(), groupId, cs[i..], owned)
               == Reconciler.UpsertClocks(old(Snapshot()), groupId, cs, owned)
      {
        assert cs[i..][1..] == cs[i + 1..];
        var c := cs[i];
        if c.id !in owned {
          var run := InsertClock(Snapshot(), c.id, Reconciler.RowOf(groupId, c));
          Execute(run.db);
          if run.err.Some? {
            err := run.err;
            return;
          }
        } else if Reconciler.Differs(c, owned[c.id]) {
          Execute(UpdateClock(Snapshot(), c.id, c.title, c.totalSegments, c.filledSegments, c.color));
        }
      }
    }
  }
}
