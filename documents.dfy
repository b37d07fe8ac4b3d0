/** The nested document a client submits and `get` returns: a site, its
    clock groups and their clocks (the typedefs at the top of
    data/ClockData.js), without the `website_id` and `group_id` linkage
    fields, which never travel outside the store. */
module Documents {
  import opened Wrappers
  import opened Text

  datatype ClockDoc = ClockDoc(
    id: string,
    title: string,
    totalSegments: int,
    filledSegments: int,
    color: Option<string>)

  datatype GroupDoc = GroupDoc(id: string, title: string, clocks: seq<ClockDoc>)

  datatype SiteDoc = SiteDoc(id: string, name: string, clockGroups: seq<GroupDoc>)

  function ClockIds(cs: seq<ClockDoc>): set<string> {
    set c | c in cs :: c.id
  }

  function GroupIds(gs: seq<GroupDoc>): set<string> {
    set g | g in gs :: g.id
  }

  /** Every id of the document is lower-case. */
  predicate IsSanitized(d: SiteDoc) {
    && IsLowercase(d.id)
    && (forall g :: g in d.clockGroups ==> IsLowercase(g.id))
    && (forall g, c :: g in d.clockGroups && c in g.clocks ==> IsLowercase(c.id))
  }

  /** No two clocks of the list share an id. */
  predicate DistinctClockIds(cs: seq<ClockDoc>) {
    forall i, j :: 0 <= i < j < |cs| ==> cs[i].id != cs[j].id
  }

  /** No two groups of the list share an id. */
  predicate DistinctGroupIds(gs: seq<GroupDoc>) {
    forall i, j :: 0 <= i < j < |gs| ==> gs[i].id != gs[j].id
  }

  /** A non-empty clock list is its head followed by its tail. */
  lemma ClocksSplit(cs: seq<ClockDoc>)
    requires cs != []
    ensures forall c :: c in cs <==> c == cs[0] || c in cs[1..]
    ensures ClockIds(cs) == {cs[0].id} + ClockIds(cs[1..])
    ensures DistinctClockIds(cs) ==> DistinctClockIds(cs[1..]) && cs[0].id !in ClockIds(cs[1..])
  {
    assert cs == [cs[0]] + cs[1..];
    if DistinctClockIds(cs) {
      forall c | c in cs[1..] ensures c.id != cs[0].id {
        var k :| 0 <= k < |cs[1..]| && cs[1..][k] == c;
        assert cs[k + 1] == c;
      }
    }
  }

  /** A non-empty group list is its head followed by its tail. */
  lemma GroupsSplit(gs: seq<GroupDoc>)
    requires gs != []
    ensures forall g :: g in gs <==> g == gs[0] || g in gs[1..]
    ensures GroupIds(gs) == {gs[0].id} + GroupIds(gs[1..])
    ensures DistinctGroupIds(gs) ==> DistinctGroupIds(gs[1..]) && gs[0].id !in GroupIds(gs[1..])
  {
    assert gs == [gs[0]] + gs[1..];
    if DistinctGroupIds(gs) {
      forall g | g in gs[1..] ensures g.id != gs[0].id {
        var k :| 0 <= k < |gs[1..]| && gs[1..][k] == g;
        assert gs[k + 1] == g;
      }
    }
  }

  /** No two groups of the document share an id, and no two clocks of one
      group share an id. */
  predicate UniqueIds(d: SiteDoc) {
    && DistinctGroupIds(d.clockGroups)
    && (forall g :: g in d.clockGroups ==> DistinctClockIds(g.clocks))
  }

  function SanitizedClock(c: ClockDoc): ClockDoc {
    c.(id := Lower(c.id))
  }

  function SanitizedGroup(g: GroupDoc): GroupDoc {
    g.(id := Lower(g.id), clocks := seq(|g.clocks|, j requires 0 <= j < |g.clocks| => SanitizedClock(g.clocks[j])))
  }

  /** The document with the site id and every group and clock id lower-cased
      (`sanitizeIds`); no other field, no list length and no order changes. */
  function Sanitized(d: SiteDoc): (r: SiteDoc)
    ensures IsSanitized(r)
    ensures r.id == Lower(d.id) && r.name == d.name
    ensures |r.clockGroups| == |d.clockGroups|
    ensures forall i :: 0 <= i < |d.clockGroups| ==>
      && r.clockGroups[i].id == Lower(d.clockGroups[i].id)
      && r.clockGroups[i].title == d.clockGroups[i].title
      && |r.clockGroups[i].clocks| == |d.clockGroups[i].clocks|
    ensures forall i, j :: 0 <= i < |d.clockGroups| && 0 <= j < |d.clockGroups[i].clocks| ==>
      r.clockGroups[i].clocks[j] == d.clockGroups[i].clocks[j].(id := Lower(d.clockGroups[i].clocks[j].id))
    ensures IsSanitized(d) ==> r == d
  {
    var r := d.(id := Lower(d.id), clockGroups := seq(|d.clockGroups|, i requires 0 <= i < |d.clockGroups| => SanitizedGroup(d.clockGroups[i])));
    assert IsSanitized(d) ==> r == d by {
      if IsSanitized(d) {
        forall i | 0 <= i < |d.clockGroups| ensures r.clockGroups[i] == d.clockGroups[i] {
          var g := d.clockGroups[i];
          assert g in d.clockGroups;
          forall j | 0 <= j < |g.clocks| ensures SanitizedClock(g.clocks[j]) == g.clocks[j] {
            assert g.clocks[j] in g.clocks;
          }
        }
      }
    }
    assert IsSanitized(r) by {
      forall g, c | g in r.clockGroups && c in g.clocks ensures IsLowercase(c.id) {
        var i :| 0 <= i < |r.clockGroups| && r.clockGroups[i] == g;
        var j :| 0 <= j < |g.clocks| && g.clocks[j] == c;
      }
    }
    r
  }

}
