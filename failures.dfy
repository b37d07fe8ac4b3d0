/** When insert fails. In the model, the only statement of the
    reconciliation that can fail is an INSERT whose id is already a primary key of its table; the
    lemmas here name the documents that lead there: a group id that another
    site owns, a clock id that a group other than the one listing it owns
    when that group is reached, and an id repeated in the document (after
    lower-casing) that the site or group did not own before. */
module Failures {
  import opened Documents
  import opened Tables
  import opened Reconciler
  import opened Text
  import opened Frame
  import opened Convergence

  // ---- groups ------------------------------------------------------------

  /** The group upsert loop fails when it reaches a group that the site did
      not own when the loop started and whose id is taken by then: taken
      before the loop, or inserted by an earlier entry with the same id. */
  lemma {:induction false} UpsertGroupsFails(db: Db, siteId: string, gs: seq<GroupDoc>, owned: map<string, GroupRow>, i: nat)
    requires Valid(db) && i < |gs| && gs[i].id !in owned
    requires gs[i].id in db.groups || exists j :: 0 <= j < i && gs[j].id == gs[i].id
    ensures UpsertGroups(db, siteId, gs, owned).err.Some?
    decreases |gs|
  {
    var step := UpsertGroup(db, siteId, gs[0], owned);
    if i > 0 && step.err.None? {
      var id := gs[i].id;
      if gs[0].id == id {
        assert id in step.db.groups;
      } else if id in db.groups {
        assert id in step.db.groups;
      } else {
        var j :| 0 <= j < i && gs[j].id == id;
        assert gs[1..][j - 1].id == id;
      }
      assert gs[1..][i - 1] == gs[i];
      UpsertGroupsFails(step.db, siteId, gs[1..], owned, i - 1);
    }
  }

  /** insertGroups fails on a group the site does not own whose id is
      already a group row, or that the document repeats. */
  lemma InsertGroupsStepFails(db: Db, d: SiteDoc, i: nat)
    requires Valid(db) && i < |d.clockGroups|
    requires d.clockGroups[i].id !in SiteGroups(db, d.id)
    requires d.clockGroups[i].id in db.groups ||
      exists j :: 0 <= j < i && d.clockGroups[j].id == d.clockGroups[i].id
    ensures InsertGroupsStep(db, d).err.Some?
  {
    var owned := SiteGroups(db, d.id);
    var removed := RemovedIds(SelectGroupIds(db, d.id), GroupIds(d.clockGroups));
    RemoveGroupsRows(db, removed);
    UpsertGroupsFails(RemoveGroups(db, removed), d.id, d.clockGroups, owned, i);
  }

  /** insert fails when the document lists a group whose id (lower-cased)
      is a group of another site: groups cannot move between sites. */
  lemma GroupOfOtherSiteFails(db: Db, data: SiteDoc, i: nat)
    requires Valid(db)
    requires var d := Sanitized(data);
      && i < |d.clockGroups|
      && d.clockGroups[i].id in db.groups
      && db.groups[d.clockGroups[i].id].websiteId != d.id
    ensures Insert(db, data).err.Some?
  {
    var d := Sanitized(data);
    InsertGroupsStepFails(InsertSiteStep(db, d).db, d, i);
  }

  /** insert fails when the document lists two groups whose ids are equal
      after lower-casing and are not a group of the site yet. */
  lemma RepeatedNewGroupFails(db: Db, data: SiteDoc, j: nat, i: nat)
    requires Valid(db)
    requires var d := Sanitized(data);
      && j < i < |d.clockGroups|
      && d.clockGroups[j].id == d.clockGroups[i].id
      && d.clockGroups[i].id !in SiteGroups(db, d.id)
    ensures Insert(db, data).err.Some?
  {
    var d := Sanitized(data);
    var afterSite := InsertSiteStep(db, d).db;
    assert d.clockGroups[i].id !in SiteGroups(afterSite, d.id);
    InsertGroupsStepFails(afterSite, d, i);
  }

  // ---- clocks ------------------------------------------------------------

  /** The clock upsert loop fails when it reaches a clock that the group did
      not own when the loop started and whose id is taken by then. */
  lemma {:induction false} UpsertClocksFails(db: Db, groupId: string, cs: seq<ClockDoc>, owned: map<string, ClockRow>, i: nat)
    requires Valid(db) && i < |cs| && cs[i].id !in owned
    requires cs[i].id in db.clocks || exists j :: 0 <= j < i && cs[j].id == cs[i].id
    ensures UpsertClocks(db, groupId, cs, owned).err.Some?
    decreases |cs|
  {
    var step := UpsertClock(db, groupId, cs[0], owned);
    if i > 0 && step.err.None? {
      var id := cs[i].id;
      if cs[0].id == id {
        assert id in step.db.clocks;
      } else if id in db.clocks {
        assert id in step.db.clocks;
      } else {
        var j :| 0 <= j < i && cs[j].id == id;
        assert cs[1..][j - 1].id == id;
      }
      assert cs[1..][i - 1] == cs[i];
      UpsertClocksFails(step.db, groupId, cs[1..], owned, i - 1);
    }
  }

  /** One pass of insertClocks fails on a clock the group does not own
      whose id is already a clock row, or that the group's list repeats. */
  lemma SyncGroupClocksFails(db: Db, g: GroupDoc, i: nat)
    requires Valid(db) && i < |g.clocks|
    requires g.clocks[i].id !in GroupClocks(db, g.id)
    requires g.clocks[i].id in db.clocks || exists j :: 0 <= j < i && g.clocks[j].id == g.clocks[i].id
    ensures SyncGroupClocks(db, g).err.Some?
  {
    var owned := GroupClocks(db, g.id);
    var removed := RemovedIds(SelectClockIds(db, g.id), ClockIds(g.clocks));
    RemoveClocksRows(db, removed);
    UpsertClocksFails(RemoveClocks(db, removed), g.id, g.clocks, owned, i);
  }

  /** insertClocks fails on clock `i` of group `k` when the clock row
      exists and belongs to a group that none of groups 0..k is: the passes
      before `k` leave the row alone, and group `k` does not own it. */
  lemma {:induction false} InsertClocksStepTakenFails(db: Db, gs: seq<GroupDoc>, k: nat, i: nat)
    requires Valid(db) && k < |gs| && i < |gs[k].clocks|
    requires gs[k].clocks[i].id in db.clocks
    requires forall h :: 0 <= h <= k ==> gs[h].id != db.clocks[gs[k].clocks[i].id].groupId
    ensures InsertClocksStep(db, gs).err.Some?
    decreases |gs|
  {
    var id := gs[k].clocks[i].id;
    if k == 0 {
      SyncGroupClocksFails(db, gs[0], i);
    } else {
      var step := SyncGroupClocks(db, gs[0]);
      if step.err.None? {
        assert InsertClocksStep(db, gs) == InsertClocksStep(step.db, gs[1..]);
        SyncGroupClocksKeeps(db, gs[0]);
        assert gs[0].id != db.clocks[id].groupId;
        assert id in step.db.clocks && step.db.clocks[id] == db.clocks[id];
        forall h | 0 <= h <= k - 1 ensures gs[1..][h].id != step.db.clocks[id].groupId {
          assert gs[1..][h] == gs[h + 1];
        }
        InsertClocksStepTakenFails(step.db, gs[1..], k - 1, i);
      }
    }
  }

  /** insertClocks fails on clock `i` of group `k` when no clock row has
      its id, no earlier group lists the id, and group `k` lists it before
      position `i` as well. */
  lemma {:induction false} InsertClocksStepRepeatFails(db: Db, gs: seq<GroupDoc>, k: nat, j: nat, i: nat)
    requires Valid(db) && k < |gs| && j < i < |gs[k].clocks|
    requires gs[k].clocks[j].id == gs[k].clocks[i].id
    requires gs[k].clocks[i].id !in db.clocks
    requires forall h :: 0 <= h < k ==> gs[k].clocks[i].id !in ClockIds(gs[h].clocks)
    ensures InsertClocksStep(db, gs).err.Some?
    decreases |gs|
  {
    var id := gs[k].clocks[i].id;
    if k == 0 {
      SyncGroupClocksFails(db, gs[0], i);
    } else {
      var step := SyncGroupClocks(db, gs[0]);
      if step.err.None? {
        assert InsertClocksStep(db, gs) == InsertClocksStep(step.db, gs[1..]);
        SyncGroupClocksKeeps(db, gs[0]);
        assert id !in ClockIds(gs[0].clocks);
        assert id !in step.db.clocks;
        forall h | 0 <= h < k - 1 ensures id !in ClockIds(gs[1..][h].clocks) {
          assert gs[1..][h] == gs[h + 1];
        }
        InsertClocksStepRepeatFails(step.db, gs[1..], k - 1, j, i);
      }
    }
  }

  /** Clock row `c` is not deleted by insertGroups: its group is not one of
      the site's groups that the document drops. */
  ghost predicate Survives(db: Db, d: SiteDoc, c: string) {
    && c in db.clocks
    && (db.clocks[c].groupId !in SiteGroups(db, d.id) || db.clocks[c].groupId in GroupIds(d.clockGroups))
  }

  /** The clock rows insertGroups leaves: every row whose group it does not
      remove, unchanged, and no other. */
  lemma InsertGroupsStepClocks(db: Db, d: SiteDoc)
    requires Valid(db)
    ensures var r := InsertGroupsStep(db, d);
      && (forall c :: c in r.db.clocks ==> Survives(db, d, c))
      && forall c :: Survives(db, d, c) ==> c in r.db.clocks && r.db.clocks[c] == db.clocks[c]
  {
    var owned := SiteGroups(db, d.id);
    var removed := RemovedIds(SelectGroupIds(db, d.id), GroupIds(d.clockGroups));
    var cleared := RemoveGroups(db, removed);
    RemoveGroupsRows(db, removed);
    assert UpsertGroups(cleared, d.id, d.clockGroups, owned).db.clocks == cleared.clocks;
  }

  /** insert fails when group `k` of the document lists a clock whose row
      belongs to a group that the insert does not remove and that is not
      one of groups 0..k: a clock can move into a group only from a group
      listed before it, or from a group the document drops. */
  lemma ClockOfOtherGroupFails(db: Db, data: SiteDoc, k: nat, i: nat)
    requires Valid(db)
    requires var d := Sanitized(data);
      && k < |d.clockGroups| && i < |d.clockGroups[k].clocks|
      && var id := d.clockGroups[k].clocks[i].id;
      && Survives(db, d, id)
      && forall h :: 0 <= h <= k ==> d.clockGroups[h].id != db.clocks[id].groupId
    ensures Insert(db, data).err.Some?
  {
    var d := Sanitized(data);
    var afterSite := InsertSiteStep(db, d).db;
    var afterGroups := InsertGroupsStep(afterSite, d);
    if afterGroups.err.None? {
      InsertGroupsStepClocks(afterSite, d);
      InsertClocksStepTakenFails(afterGroups.db, d.clockGroups, k, i);
    }
  }

  /** insert fails when group `k` lists a new clock id twice (after
      lower-casing) and no earlier group lists it. */
  lemma RepeatedNewClockFails(db: Db, data: SiteDoc, k: nat, j: nat, i: nat)
    requires Valid(db)
    requires var d := Sanitized(data);
      && k < |d.clockGroups| && j < i < |d.clockGroups[k].clocks|
      && var id := d.clockGroups[k].clocks[i].id;
      && d.clockGroups[k].clocks[j].id == id
      && id !in db.clocks
      && forall h :: 0 <= h < k ==> id !in ClockIds(d.clockGroups[h].clocks)
    ensures Insert(db, data).err.Some?
  {
    var d := Sanitized(data);
    var afterSite := InsertSiteStep(db, d).db;
    var afterGroups := InsertGroupsStep(afterSite, d);
    if afterGroups.err.None? {
      InsertGroupsStepClocks(afterSite, d);
      InsertClocksStepRepeatFails(afterGroups.db, d.clockGroups, k, j, i);
    }
  }

  // ---- shared clock ids ---------------------------------------------------

  /** A clock id listed by two different groups of a document cannot be
      stored under both: an insert of a document with unique ids that
      succeeds lists every clock id under one group only. */
  lemma SucceededHasNoSharedClock(db: Db, data: SiteDoc)
    requires Valid(db) && UniqueIds(Sanitized(data))
    requires Insert(db, data).err.None?
    ensures var d := Sanitized(data);
      forall ga, gb, ca, cb ::
        (ga in d.clockGroups && gb in d.clockGroups && ca in ga.clocks && cb in gb.clocks && ca.id == cb.id) ==>
        ga.id == gb.id
  {
    var d := Sanitized(data);
    var r := Insert(db, data);
    InsertConverges(db, data);
    forall ga, gb, ca, cb | ga in d.clockGroups && gb in d.clockGroups && ca in ga.clocks && cb in gb.clocks && ca.id == cb.id
      ensures ga.id == gb.id
    {
      assert r.db.clocks[ca.id] == RowOf(ga.id, ca) && r.db.clocks[cb.id] == RowOf(gb.id, cb);
    }
  }

  // ---- case of the site id -----------------------------------------------

  /** insert keeps every site id lower-case, so get with an id that has an
      upper-case letter finds no site afterwards. */
  lemma MixedCaseGetMisses(db: Db, data: SiteDoc, siteId: string)
    requires Valid(db) && forall s :: s in db.sites ==> IsLowercase(s)
    requires !IsLowercase(siteId)
    ensures var r := Insert(db, data);
      && (forall s :: s in r.db.sites ==> IsLowercase(s))
      && Get(r.db, siteId).None?
  {
    var d := Sanitized(data);
    assert IsLowercase(d.id);
  }
}
