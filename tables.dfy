/** The three tables of the clock database (SiteClocks, ClockGroups and
    Clocks, each with the text primary key `id`) and the statements the
    reconciler issues against them: a select with ANDed equality conditions,
    an insert, an update of the given columns on the matching rows, and a
    delete of the matching rows.

    A table is a map from the primary key to the rest of the row. The model
    assumes that a `SELECT *` without `ORDER BY` yields rows in rowid order
    (SQLite does not promise this), so the groups and clocks tables also keep
    their ids in insertion order. */
module Tables {
  import opened Wrappers

  datatype SiteRow = SiteRow(name: string)
  datatype GroupRow = GroupRow(websiteId: string, title: string)
  datatype ClockRow = ClockRow(
    groupId: string,
    title: string,
    totalSegments: int,
    filledSegments: int,
    color: Option<string>)

  datatype Table = SiteClocks | ClockGroups | Clocks

  /** A write that took effect. */
  datatype Stmt =
    | InsertRow(table: Table, id: string)
    | UpdateRow(table: Table, id: string)
    | DeleteById(table: Table, id: string)
    | DeleteClocksOfGroup(groupId: string)

  /** The constraint violation an insert of an existing primary key raises. */
  datatype KeyError = DuplicateKey(table: Table, id: string)

  datatype Db = Db(
    sites: map<string, SiteRow>,
    groups: map<string, GroupRow>,
    groupOrder: seq<string>,
    clocks: map<string, ClockRow>,
    clockOrder: seq<string>,
    log: seq<Stmt>)

  /** The state after a sequence of statements, and the error that stopped
      it, if any. */
  datatype Run = Run(db: Db, err: Option<KeyError>)

  predicate Distinct(xs: seq<string>) {
    forall i, j :: 0 <= i < j < |xs| ==> xs[i] != xs[j]
  }

  function Elems(xs: seq<string>): set<string> {
    set x | x in xs
  }

  /** The rowid order lists each stored id exactly once. */
  ghost predicate Valid(db: Db) {
    && Distinct(db.groupOrder) && (forall g :: g in db.groupOrder <==> g in db.groups)
    && Distinct(db.clockOrder) && (forall c :: c in db.clockOrder <==> c in db.clocks)
  }

  /** The elements of `xs` that are in `keep`, in their order. */
  function Restrict(xs: seq<string>, keep: set<string>): (r: seq<string>)
    ensures forall x :: x in r <==> x in xs && x in keep
    ensures Distinct(xs) ==> Distinct(r)
  {
    if xs == [] then []
    else
      var rest := Restrict(xs[1..], keep);
      if xs[0] in keep then [xs[0]] + rest else rest
  }

  /** `a` occurs in `xs` at an earlier position than `b`. */
  predicate Before(xs: seq<string>, a: string, b: string) {
    exists p, q :: 0 <= p < q < |xs| && xs[p] == a && xs[q] == b
  }

  lemma BeforeTail(xs: seq<string>, a: string, b: string)
    requires xs != [] && Before(xs[1..], a, b)
    ensures Before(xs, a, b)
  {
    var p, q :| 0 <= p < q < |xs[1..]| && xs[1..][p] == a && xs[1..][q] == b;
    assert xs[p + 1] == a && xs[q + 1] == b;
  }

  lemma BeforeHead(xs: seq<string>, b: string)
    requires xs != [] && b in xs[1..]
    ensures Before(xs, xs[0], b)
  {
    var q :| 0 <= q < |xs[1..]| && xs[1..][q] == b;
    assert xs[q + 1] == b;
  }

  /** Restrict keeps the order of `xs`: an element listed before another in
      the result occurs before it in `xs`. */
  lemma {:induction false} RestrictOrder(xs: seq<string>, keep: set<string>)
    ensures forall i, j :: 0 <= i < j < |Restrict(xs, keep)| ==>
      Before(xs, Restrict(xs, keep)[i], Restrict(xs, keep)[j])
  {
    if xs != [] {
      var rest := Restrict(xs[1..], keep);
      var r := Restrict(xs, keep);
      RestrictOrder(xs[1..], keep);
      assert r == if xs[0] in keep then [xs[0]] + rest else rest;
      forall i, j | 0 <= i < j < |r| ensures Before(xs, r[i], r[j]) {
        if xs[0] !in keep {
          BeforeTail(xs, rest[i], rest[j]);
        } else if i == 0 {
          assert r[j] == rest[j - 1];
          BeforeHead(xs, r[j]);
        } else {
          assert r[i] == rest[i - 1] && r[j] == rest[j - 1];
          BeforeTail(xs, rest[i - 1], rest[j - 1]);
        }
      }
    }
  }

  /** Restricting to a set that holds none of the elements leaves nothing. */
  lemma {:induction false} RestrictNothing(xs: seq<string>, keep: set<string>)
    requires forall x :: x in xs ==> x !in keep
    ensures Restrict(xs, keep) == []
  {
    if xs != [] {
      assert xs[0] in xs;
      RestrictNothing(xs[1..], keep);
    }
  }

  // ---- select ----------------------------------------------------------

  /** `select SiteClocks where id = ?`, first row. */
  function SelectSite(db: Db, id: string): (r: Option<SiteRow>)
    ensures r.Some? <==> id in db.sites
    ensures r.Some? ==> r.value == db.sites[id]
  {
    if id in db.sites then Some(db.sites[id]) else None
  }

  /** The rows of `select ClockGroups where website_id = ?`, by id. */
  function SiteGroups(db: Db, siteId: string): (r: map<string, GroupRow>)
    ensures forall g :: g in r <==> g in db.groups && db.groups[g].websiteId == siteId
    ensures forall g :: g in r ==> r[g] == db.groups[g]
  {
    map g | g in db.groups && db.groups[g].websiteId == siteId :: db.groups[g]
  }

  /** The ids of `select ClockGroups where website_id = ?`, in rowid order. */
  function SelectGroupIds(db: Db, siteId: string): (r: seq<string>)
    requires Valid(db)
    ensures Distinct(r)
    ensures forall g :: g in r <==> g in db.groups && db.groups[g].websiteId == siteId
  {
    Restrict(db.groupOrder, SiteGroups(db, siteId).Keys)
  }

  /** The rows of `select Clocks where group_id = ?`, by id. */
  function GroupClocks(db: Db, groupId: string): (r: map<string, ClockRow>)
    ensures forall c :: c in r <==> c in db.clocks && db.clocks[c].groupId == groupId
    ensures forall c :: c in r ==> r[c] == db.clocks[c]
  {
    map c | c in db.clocks && db.clocks[c].groupId == groupId :: db.clocks[c]
  }

  /** The ids of `select Clocks where group_id = ?`, in rowid order. */
  function SelectClockIds(db: Db, groupId: string): (r: seq<string>)
    requires Valid(db)
    ensures Distinct(r)
    ensures forall c :: c in r <==> c in db.clocks && db.clocks[c].groupId == groupId
  {
    Restrict(db.clockOrder, GroupClocks(db, groupId).Keys)
  }

  // ---- insert ----------------------------------------------------------

  function InsertSite(db: Db, id: string, row: SiteRow): (r: Run)
    requires Valid(db)
    ensures Valid(r.db)
    ensures id in db.sites ==> r == Run(db, Some(DuplicateKey(SiteClocks, id)))
    ensures id !in db.sites ==>
      && r.err == None
      && r.db == db.(sites := db.sites[id := row], log := db.log + [InsertRow(SiteClocks, id)])
  {
    if id in db.sites then Run(db, Some(DuplicateKey(SiteClocks, id)))
    else Run(db.(sites := db.sites[id := row], log := db.log + [InsertRow(SiteClocks, id)]), None)
  }

  function InsertGroup(db: Db, id: string, row: GroupRow): (r: Run)
    requires Valid(db)
    ensures Valid(r.db)
    ensures r.db.sites == db.sites && r.db.clocks == db.clocks && r.db.clockOrder == db.clockOrder
    ensures id in db.groups ==> r == Run(db, Some(DuplicateKey(ClockGroups, id)))
    ensures id !in db.groups ==>
      && r.err == None
      && r.db.groups == db.groups[id := row]
      && r.db.groupOrder == db.groupOrder + [id]
      && r.db.log == db.log + [InsertRow(ClockGroups, id)]
  {
    if id in db.groups then Run(db, Some(DuplicateKey(ClockGroups, id)))
    else Run(db.(groups := db.groups[id := row], groupOrder := db.groupOrder + [id],
                 log := db.log + [InsertRow(ClockGroups, id)]), None)
  }

  function InsertClock(db: Db, id: string, row: ClockRow): (r: Run)
    requires Valid(db)
    ensures Valid(r.db)
    ensures r.db.sites == db.sites && r.db.groups == db.groups && r.db.groupOrder == db.groupOrder
    ensures id in db.clocks ==> r == Run(db, Some(DuplicateKey(Clocks, id)))
    ensures id !in db.clocks ==>
      && r.err == None
      && r.db.clocks == db.clocks[id := row]
      && r.db.clockOrder == db.clockOrder + [id]
      && r.db.log == db.log + [InsertRow(Clocks, id)]
  {
    if id in db.clocks then Run(db, Some(DuplicateKey(Clocks, id)))
    else Run(db.(clocks := db.clocks[id := row], clockOrder := db.clockOrder + [id],
                 log := db.log + [InsertRow(Clocks, id)]), None)
  }

  // ---- update ----------------------------------------------------------

  /** `update SiteClocks set name = ? where id = ?`. */
  function UpdateSiteName(db: Db, id: string, name: string): (r: Db)
    requires Valid(db)
    ensures Valid(r)
    ensures r.groups == db.groups && r.groupOrder == db.groupOrder
    ensures r.clocks == db.clocks && r.clockOrder == db.clockOrder
    ensures r.sites == if id in db.sites then db.sites[id := SiteRow(name)] else db.sites
    ensures r.log == db.log + [UpdateRow(SiteClocks, id)]
  {
    var sites := if id in db.sites then db.sites[id := db.sites[id].(name := name)] else db.sites;
    db.(sites := sites, log := db.log + [UpdateRow(SiteClocks, id)])
  }

  /** `update ClockGroups set title = ? where id = ?`: `website_id` stays. */
  function UpdateGroupTitle(db: Db, id: string, title: string): (r: Db)
    requires Valid(db)
    ensures Valid(r)
    ensures r.sites == db.sites && r.clocks == db.clocks && r.clockOrder == db.clockOrder
    ensures r.groupOrder == db.groupOrder
    ensures r.groups.Keys == db.groups.Keys
    ensures id in db.groups ==> r.groups[id] == GroupRow(db.groups[id].websiteId, title)
    ensures forall g :: g in db.groups && g != id ==> r.groups[g] == db.groups[g]
    ensures r.log == db.log + [UpdateRow(ClockGroups, id)]
  {
    var groups := if id in db.groups then db.groups[id := db.groups[id].(title := title)] else db.groups;
    db.(groups := groups, log := db.log + [UpdateRow(ClockGroups, id)])
  }

  /** `update Clocks set title, totalSegments, filledSegments, color where
      id = ?`: the four columns are written together, `group_id` stays. */
  function UpdateClock(db: Db, id: string, title: string, totalSegments: int,
                       filledSegments: int, color: Option<string>): (r: Db)
    requires Valid(db)
    ensures Valid(r)
    ensures r.sites == db.sites && r.groups == db.groups && r.groupOrder == db.groupOrder
    ensures r.clockOrder == db.clockOrder
    ensures r.clocks.Keys == db.clocks.Keys
    ensures id in db.clocks ==>
      r.clocks[id] == ClockRow(db.clocks[id].groupId, title, totalSegments, filledSegments, color)
    ensures forall c :: c in db.clocks && c != id ==> r.clocks[c] == db.clocks[c]
    ensures r.log == db.log + [UpdateRow(Clocks, id)]
  {
    var clocks :=
      if id in db.clocks
      then db.clocks[id := db.clocks[id].(title := title, totalSegments := totalSegments,
                                          filledSegments := filledSegments, color := color)]
      else db.clocks;
    db.(clocks := clocks, log := db.log + [UpdateRow(Clocks, id)])
  }

  // ---- delete ----------------------------------------------------------

  /** `delete from ClockGroups where id = ?`. */
  function DeleteGroup(db: Db, id: string): (r: Db)
    requires Valid(db)
    ensures Valid(r)
    ensures r.sites == db.sites && r.clocks == db.clocks && r.clockOrder == db.clockOrder
    ensures r.groups == db.groups - {id}
    ensures r.log == db.log + [DeleteById(ClockGroups, id)]
  {
    db.(groups := db.groups - {id}, groupOrder := Restrict(db.groupOrder, db.groups.Keys - {id}),
        log := db.log + [DeleteById(ClockGroups, id)])
  }

  /** `delete from Clocks where id = ?`. */
  function DeleteClock(db: Db, id: string): (r: Db)
    requires Valid(db)
    ensures Valid(r)
    ensures r.sites == db.sites && r.groups == db.groups && r.groupOrder == db.groupOrder
    ensures r.clocks == db.clocks - {id}
    ensures r.log == db.log + [DeleteById(Clocks, id)]
  {
    db.(clocks := db.clocks - {id}, clockOrder := Restrict(db.clockOrder, db.clocks.Keys - {id}),
        log := db.log + [DeleteById(Clocks, id)])
  }

  /** `delete from Clocks where group_id = ?`. */
  function DeleteGroupClocks(db: Db, groupId: string): (r: Db)
    requires Valid(db)
    ensures Valid(r)
    ensures r.sites == db.sites && r.groups == db.groups && r.groupOrder == db.groupOrder
    ensures forall c :: c in r.clocks <==> c in db.clocks && db.clocks[c].groupId != groupId
    ensures forall c :: c in r.clocks ==> r.clocks[c] == db.clocks[c]
    ensures r.log == db.log + [DeleteClocksOfGroup(groupId)]
  {
    var keep := set c | c in db.clocks && db.clocks[c].groupId != groupId;
    db.(clocks := map c | c in keep :: db.clocks[c], clockOrder := Restrict(db.clockOrder, keep),
        log := db.log + [DeleteClocksOfGroup(groupId)])
  }
}
