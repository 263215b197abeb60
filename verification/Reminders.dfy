/** The FSO reminder pass over a whole table.

    `rows` stands for user_clearance_records or dd254_forms. A row's `routes` lists the
    FSO reached by each joined sub-organisation (after dropping suspended FSOs and empty
    emails): one entry per sub-org of a cleared user, at most one for a form. */
module Reminders {
  import opened Wrappers
  import opened Clock
  import opened Cadence

  type Fso = nat

  /** `live` is the row filter of the query: not superseded and not suspended for a
      clearance record, active and owned by a sub-org for a form. */
  datatype Row = Row(due: Option<Day>, live: bool, routes: seq<Fso>, last: Option<Time>)

  datatype Hit = Hit(id: nat, bucket: Bucket, fso: Fso)

  datatype Recipient = Recipient(fso: Fso, due90: nat, due30: nat, overdue: nat, ids: seq<nat>)

  function RowBucket(row: Row, now: Time): Bucket {
    if row.live && row.due.Some? then BucketOf(row.due.value, row.last, now) else NoBucket
  }

  /** One joined row per route of each bucketed record. */
  function RowHits(id: nat, row: Row, now: Time): seq<Hit> {
    var b := RowBucket(row, now);
    if b == NoBucket then []
    else RouteHits(id, b, row.routes)
  }

  function RouteHits(id: nat, b: Bucket, routes: seq<Fso>): seq<Hit> {
    seq(|routes|, k requires 0 <= k < |routes| => Hit(id, b, routes[k]))
  }

  function Hits(rows: seq<Row>, now: Time): seq<Hit> {
    if rows == [] then []
    else Hits(rows[..|rows| - 1], now) + RowHits(|rows| - 1, rows[|rows| - 1], now)
  }

  /** The groups, in order of first appearance. */
  function Fsos(hits: seq<Hit>): seq<Fso> {
    if hits == [] then []
    else
      var fs := Fsos(hits[..|hits| - 1]);
      var f := hits[|hits| - 1].fso;
      if f in fs then fs else fs + [f]
  }

  function HitsFor(hits: seq<Hit>, fso: Fso): seq<Hit> {
    if hits == [] then []
    else
      var rest := HitsFor(hits[..|hits| - 1], fso);
      var h := hits[|hits| - 1];
      if h.fso == fso then rest + [h] else rest
  }

  function CountIn(hits: seq<Hit>, b: Bucket): nat {
    if hits == [] then 0
    else CountIn(hits[..|hits| - 1], b) + if hits[|hits| - 1].bucket == b then 1 else 0
  }

  function Ids(hits: seq<Hit>): seq<nat> {
    seq(|hits|, k requires 0 <= k < |hits| => hits[k].id)
  }

  function Group(hits: seq<Hit>, fso: Fso): Recipient {
    var own := HitsFor(hits, fso);
    Recipient(fso, CountIn(own, D90), CountIn(own, D30), CountIn(own, Overdue), Ids(own))
  }

  /** ListClearanceReminders and ListDd254Reminders: GROUP BY over the joined rows. */
  function ListReminders(rows: seq<Row>, now: Time): seq<Recipient> {
    var hits := Hits(rows, now);
    var fs := Fsos(hits);
    seq(|fs|, k requires 0 <= k < |fs| => Group(hits, fs[k]))
  }

  // ---------- What a listing contains ----------

  lemma {:induction false} FsosAreTheHitFsos(hits: seq<Hit>)
    ensures forall f :: f in Fsos(hits) <==> HitBy(hits, f)
    ensures forall i, j | 0 <= i < j < |Fsos(hits)| :: Fsos(hits)[i] != Fsos(hits)[j]
  {
    if hits != [] {
      var front, h := hits[..|hits| - 1], hits[|hits| - 1];
      FsosAreTheHitFsos(front);
      assert hits == front + [h];
      forall f
        ensures f in Fsos(hits) <==> HitBy(hits, f)
      {
        HitByAppend(front, [h], f);
        assert [h][0].fso == f ==> HitBy([h], f);
      }
    }
  }

  lemma {:induction false} HitsForAppend(a: seq<Hit>, b: seq<Hit>, fso: Fso)
    ensures HitsFor(a + b, fso) == HitsFor(a, fso) + HitsFor(b, fso)
  {
    if b == [] {
      assert a + b == a;
    } else {
      assert (a + b)[..|a + b| - 1] == a + b[..|b| - 1];
      HitsForAppend(a, b[..|b| - 1], fso);
    }
  }

  lemma IdsAppend(a: seq<Hit>, b: seq<Hit>, id: nat)
    ensures multiset(Ids(a + b))[id] == multiset(Ids(a))[id] + multiset(Ids(b))[id]
  {
    assert Ids(a + b) == Ids(a) + Ids(b);
  }

  lemma OneHit(h: Hit, fso: Fso, id: nat)
    ensures multiset(Ids(HitsFor([h], fso)))[id] == if h.fso == fso && h.id == id then 1 else 0
  {
    assert HitsFor([h], fso) == if h.fso == fso then [h] else [];
    assert Ids([h]) == [h.id];
  }

  /** A bucketed row contributes its id once per route to the FSO. */
  lemma {:induction false} RouteMultiplicity(own: nat, b: Bucket, routes: seq<Fso>, fso: Fso, id: nat)
    ensures multiset(Ids(HitsFor(RouteHits(own, b, routes), fso)))[id] ==
            if id == own then multiset(routes)[fso] else 0
  {
    if routes != [] {
      var front, h := routes[..|routes| - 1], Hit(own, b, routes[|routes| - 1]);
      RouteMultiplicity(own, b, front, fso, id);
      RouteHitsPush(own, b, routes);
      HitsForAppend(RouteHits(own, b, front), [h], fso);
      IdsAppend(HitsFor(RouteHits(own, b, front), fso), HitsFor([h], fso), id);
      OneHit(h, fso, id);
      CountLast(routes, fso);
    } else {
      assert RouteHits(own, b, []) == [] && Ids([]) == [];
    }
  }

  lemma {:induction false} RouteHitsPush(own: nat, b: Bucket, routes: seq<Fso>)
    requires routes != []
    ensures RouteHits(own, b, routes) ==
            RouteHits(own, b, routes[..|routes| - 1]) + [Hit(own, b, routes[|routes| - 1])]
  {
  }

  lemma {:induction false} CountLast<T>(s: seq<T>, x: T)
    requires s != []
    ensures multiset(s)[x] == multiset(s[..|s| - 1])[x] + if s[|s| - 1] == x then 1 else 0
  {
    assert s == s[..|s| - 1] + [s[|s| - 1]];
  }

  lemma {:induction false} IdMultiplicity(rows: seq<Row>, now: Time, fso: Fso, id: nat)
    ensures multiset(Ids(HitsFor(Hits(rows, now), fso)))[id] ==
            if id < |rows| && RowBucket(rows[id], now) != NoBucket then multiset(rows[id].routes)[fso] else 0
  {
    if rows != [] {
      var n := |rows| - 1;
      var front, tail := Hits(rows[..n], now), RowHits(n, rows[n], now);
      IdMultiplicity(rows[..n], now, fso, id);
      HitsForAppend(front, tail, fso);
      IdsAppend(HitsFor(front, fso), HitsFor(tail, fso), id);
      if RowBucket(rows[n], now) == NoBucket {
        assert HitsFor(tail, fso) == [];
      } else {
        RouteMultiplicity(n, RowBucket(rows[n], now), rows[n].routes, fso, id);
      }
    }
  }

  /** A record is listed for an FSO exactly as many times as the record has sub-orgs led
      by that FSO, if it is in a bucket, and never otherwise. */
  lemma ListedOncePerSubOrg(rows: seq<Row>, now: Time, k: nat, id: nat)
    requires k < |ListReminders(rows, now)|
    ensures var r := ListReminders(rows, now)[k];
            multiset(r.ids)[id] ==
            if id < |rows| && RowBucket(rows[id], now) != NoBucket then multiset(rows[id].routes)[r.fso] else 0
  {
    IdMultiplicity(rows, now, Fsos(Hits(rows, now))[k], id);
  }

  ghost predicate Notified(rs: seq<Recipient>, f: Fso) {
    exists k | 0 <= k < |rs| :: rs[k].fso == f
  }

  /** Some record in a bucket has a sub-org led by `f`. */
  ghost predicate Reached(rows: seq<Row>, now: Time, f: Fso) {
    exists id | 0 <= id < |rows| :: RowBucket(rows[id], now) != NoBucket && f in rows[id].routes
  }

  ghost predicate HitBy(hits: seq<Hit>, f: Fso) {
    exists k | 0 <= k < |hits| :: hits[k].fso == f
  }

  /** Each FSO reached by a bucketed record gets exactly one message, and no one else does. */
  lemma OneMessagePerReachedFso(rows: seq<Row>, now: Time)
    ensures var rs := ListReminders(rows, now);
            && (forall i, j | 0 <= i < j < |rs| :: rs[i].fso != rs[j].fso)
            && (forall f :: Notified(rs, f) <==> Reached(rows, now, f))
  {
    var hits, rs := Hits(rows, now), ListReminders(rows, now);
    FsosAreTheHitFsos(hits);
    forall f
      ensures Notified(rs, f) <==> Reached(rows, now, f)
    {
      HitsComeFromRows(rows, now, f);
      if f in Fsos(hits) {
        var k :| 0 <= k < |Fsos(hits)| && Fsos(hits)[k] == f;
        assert rs[k].fso == f;
      }
      assert Notified(rs, f) <==> f in Fsos(hits);
      assert HitBy(hits, f) <==> f in Fsos(hits);
    }
  }

  lemma {:induction false} HitsComeFromRows(rows: seq<Row>, now: Time, f: Fso)
    ensures HitBy(Hits(rows, now), f) <==> Reached(rows, now, f)
  {
    if rows != [] {
      var n := |rows| - 1;
      HitsComeFromRows(rows[..n], now, f);
      HitByAppend(Hits(rows[..n], now), RowHits(n, rows[n], now), f);
      HitByRow(n, rows[n], now, f);
      ReachedLast(rows, now, f);
    }
  }

  lemma {:induction false} HitByRow(id: nat, row: Row, now: Time, f: Fso)
    ensures HitBy(RowHits(id, row, now), f) <==> RowBucket(row, now) != NoBucket && f in row.routes
  {
    if RowBucket(row, now) != NoBucket && f in row.routes {
      var k :| 0 <= k < |row.routes| && row.routes[k] == f;
      assert RowHits(id, row, now)[k].fso == f;
    }
  }

  lemma {:induction false} ReachedLast(rows: seq<Row>, now: Time, f: Fso)
    requires rows != []
    ensures var n := |rows| - 1;
            Reached(rows, now, f) <==>
            Reached(rows[..n], now, f) || (RowBucket(rows[n], now) != NoBucket && f in rows[n].routes)
  {
    var n, front := |rows| - 1, rows[..|rows| - 1];
    if Reached(front, now, f) {
      var id :| 0 <= id < n && RowBucket(front[id], now) != NoBucket && f in front[id].routes;
      assert rows[id] == front[id];
    }
    if Reached(rows, now, f) {
      var id :| 0 <= id < |rows| && RowBucket(rows[id], now) != NoBucket && f in rows[id].routes;
      assert id < n ==> front[id] == rows[id];
    }
  }

  lemma HitByAppend(a: seq<Hit>, b: seq<Hit>, f: Fso)
    ensures HitBy(a + b, f) <==> HitBy(a, f) || HitBy(b, f)
  {
    var c := a + b;
    if HitBy(a, f) {
      var k :| 0 <= k < |a| && a[k].fso == f;
      assert c[k].fso == f;
    }
    if HitBy(b, f) {
      var k :| 0 <= k < |b| && b[k].fso == f;
      assert c[|a| + k].fso == f;
    }
  }

  /** The ids of a message whose records are in bucket `b`, counted as listed. */
  function CountIds(rows: seq<Row>, now: Time, ids: seq<nat>, b: Bucket): nat
    requires forall k | 0 <= k < |ids| :: ids[k] < |rows|
  {
    if ids == [] then 0
    else CountIds(rows, now, ids[..|ids| - 1], b) + if RowBucket(rows[ids[|ids| - 1]], now) == b then 1 else 0
  }

  /** Every joined row carries the bucket of its record. */
  ghost predicate HitsFit(rows: seq<Row>, now: Time, hits: seq<Hit>) {
    forall k | 0 <= k < |hits| ::
      hits[k].id < |rows| && hits[k].bucket == RowBucket(rows[hits[k].id], now) && hits[k].bucket != NoBucket
  }

  lemma {:induction false} HitsOfRowsFit(rows: seq<Row>, now: Time)
    ensures HitsFit(rows, now, Hits(rows, now))
  {
    if rows != [] {
      var n := |rows| - 1;
      HitsOfRowsFit(rows[..n], now);
      assert forall i | 0 <= i < n :: rows[..n][i] == rows[i];
    }
  }

  lemma {:induction false} OwnHitsFit(rows: seq<Row>, now: Time, hits: seq<Hit>, fso: Fso)
    requires HitsFit(rows, now, hits)
    ensures HitsFit(rows, now, HitsFor(hits, fso))
  {
    if hits != [] {
      OwnHitsFit(rows, now, hits[..|hits| - 1], fso);
    }
  }

  lemma {:induction false} CountsFit(rows: seq<Row>, now: Time, own: seq<Hit>, b: Bucket)
    requires HitsFit(rows, now, own)
    ensures CountIn(own, b) == CountIds(rows, now, Ids(own), b)
    ensures CountIn(own, D90) + CountIn(own, D30) + CountIn(own, Overdue) == |own|
  {
    if own != [] {
      CountsFit(rows, now, own[..|own| - 1], b);
      assert Ids(own)[..|own| - 1] == Ids(own[..|own| - 1]);
    }
  }

  /** Each count of a message is the number of listed records in its bucket, and together
      they are all the records it will mark; the total counts distinct records exactly when
      none of them reaches the FSO through two sub-orgs. */
  lemma CountsMatchIds(rows: seq<Row>, now: Time, k: nat)
    requires k < |ListReminders(rows, now)|
    ensures var r := ListReminders(rows, now)[k];
            && (forall j | 0 <= j < |r.ids| :: r.ids[j] < |rows|)
            && r.due90 == CountIds(rows, now, r.ids, D90)
            && r.due30 == CountIds(rows, now, r.ids, D30)
            && r.overdue == CountIds(rows, now, r.ids, Overdue)
            && r.due90 + r.due30 + r.overdue == |r.ids|
            && (|r.ids| == |Distinct(r.ids)| <==>
                forall id | 0 <= id < |rows| && RowBucket(rows[id], now) != NoBucket ::
                  multiset(rows[id].routes)[r.fso] <= 1)
  {
    var hits, r := Hits(rows, now), ListReminders(rows, now)[k];
    var own := HitsFor(hits, r.fso);
    HitsOfRowsFit(rows, now);
    OwnHitsFit(rows, now, hits, r.fso);
    CountsFit(rows, now, own, D90);
    CountsFit(rows, now, own, D30);
    CountsFit(rows, now, own, Overdue);
    assert forall j | 0 <= j < |own| :: own[j].id < |rows|;
    DistinctIffNoRepeat(r.ids);
    forall id: nat
      ensures multiset(r.ids)[id] ==
              if id < |rows| && RowBucket(rows[id], now) != NoBucket then multiset(rows[id].routes)[r.fso] else 0
    {
      ListedOncePerSubOrg(rows, now, k, id);
    }
    if forall x :: multiset(r.ids)[x] <= 1 {
      forall id | 0 <= id < |rows| && RowBucket(rows[id], now) != NoBucket
        ensures multiset(rows[id].routes)[r.fso] <= 1
      {
        assert multiset(r.ids)[id] <= 1;
      }
    }
  }

  function Distinct<T(==)>(s: seq<T>): set<T> {
    set x | x in s
  }

  lemma {:induction false} DistinctIffNoRepeat<T(!new)>(s: seq<T>)
    ensures |Distinct(s)| <= |s|
    ensures |s| == |Distinct(s)| <==> forall x :: multiset(s)[x] <= 1
  {
    if s != [] {
      var front, y := s[..|s| - 1], s[|s| - 1];
      assert s == front + [y];
      DistinctIffNoRepeat(front);
      var S, F := Distinct(s), Distinct(front);
      assert S == F + {y};
      assert multiset(s) == multiset(front) + multiset{y};
      if y in front {
        assert S == F;
        assert multiset(s)[y] >= 2;
      } else {
        assert forall x :: multiset(s)[x] == multiset(front)[x] + if x == y then 1 else 0;
        assert multiset(front)[y] == 0;
      }
    }
  }

  // ---------- The pass ----------

  /** One run of runClearance or runDd254: the listing instant, and for the k-th message
      the instant its mark committed (None if the mark failed and was only logged). */
  datatype Pass = Pass(listAt: Time, marks: nat -> Option<Time>)

  function MarkRows(rows: seq<Row>, ids: seq<nat>, at: Time): seq<Row> {
    seq(|rows|, i requires 0 <= i < |rows| => if i in ids then rows[i].(last := Some(at)) else rows[i])
  }

  function MarkAll(rows: seq<Row>, rs: seq<Recipient>, marks: nat -> Option<Time>): seq<Row> {
    if rs == [] then rows
    else
      var k := |rs| - 1;
      var before := MarkAll(rows, rs[..k], marks);
      if marks(k).Some? then MarkRows(before, rs[k].ids, marks(k).value) else before
  }

  class ReminderStore {
    var rows: seq<Row>

    constructor (rows: seq<Row>)
      ensures this.rows == rows
    {
      this.rows := rows;
    }

    method MarkReminded(ids: seq<nat>, at: Time)
      modifies this
      ensures rows == MarkRows(old(rows), ids, at)
    {
      if |ids| == 0 {
        assert MarkRows(rows, ids, at) == rows;
        return;
      }
      rows := MarkRows(rows, ids, at);
    }

    /** Lists once, then notifies and marks message by message. */
    method RunPass(p: Pass) returns (sent: seq<Recipient>)
      modifies this
      ensures sent == ListReminders(old(rows), p.listAt)
      ensures rows == MarkAll(old(rows), sent, p.marks)
    {
      var recipients := ListReminders(rows, p.listAt);
      sent := [];
      for k := 0 to |recipients|
        invariant sent == recipients[..k]
        invariant rows == MarkAll(old(rows), sent, p.marks)
      {
        sent := sent + [recipients[k]];
        assert sent[..k] == recipients[..k];
        if p.marks(k).Some? {
          MarkReminded(recipients[k].ids, p.marks(k).value);
        }
      }
    }
  }

  /** The mark that stays on a record: the last successful one among its messages. */
  function LastMark(rs: seq<Recipient>, marks: nat -> Option<Time>, id: nat): Option<Time> {
    if rs == [] then None
    else if id in rs[|rs| - 1].ids && marks(|rs| - 1).Some? then marks(|rs| - 1)
    else LastMark(rs[..|rs| - 1], marks, id)
  }

  lemma {:induction false} MarkAllAt(rows: seq<Row>, rs: seq<Recipient>, marks: nat -> Option<Time>)
    ensures |MarkAll(rows, rs, marks)| == |rows|
    ensures forall i | 0 <= i < |rows| ::
              MarkAll(rows, rs, marks)[i] ==
              if LastMark(rs, marks, i).Some? then rows[i].(last := LastMark(rs, marks, i)) else rows[i]
  {
    if rs != [] {
      MarkAllAt(rows, rs[..|rs| - 1], marks);
    }
  }

  lemma {:induction false} LastMarkIsAMark(rs: seq<Recipient>, marks: nat -> Option<Time>, id: nat)
    ensures LastMark(rs, marks, id).Some? <==> exists k: nat :: k < |rs| && id in rs[k].ids && marks(k).Some?
    ensures LastMark(rs, marks, id).Some? ==> exists k: nat :: k < |rs| && marks(k) == LastMark(rs, marks, id)
  {
    if rs != [] {
      var front := rs[..|rs| - 1];
      LastMarkIsAMark(front, marks, id);
      if k: nat :| k < |rs| && id in rs[k].ids && marks(k).Some? {
        if k < |front| { assert id in front[k].ids; }
      }
      if k: nat :| k < |front| && id in front[k].ids && marks(k).Some? {
        assert id in rs[k].ids;
      }
    }
  }

  // ---------- Whole runs of the table ----------

  /** Between passes, records may change eligibility and sub-orgs may change hands. */
  datatype Event = RunPassAt(pass: Pass) | Reroute(id: nat, live: bool, routes: seq<Fso>)

  function Apply(rows: seq<Row>, e: Event): seq<Row> {
    match e
    case RunPassAt(p) => MarkAll(rows, ListReminders(rows, p.listAt), p.marks)
    case Reroute(id, live, routes) =>
      if id < |rows| then rows[id := rows[id].(live := live, routes := routes)] else rows
  }

  /** The bucket in which a pass reminds about the record: NoBucket unless some message
      of the pass carries the record's id. */
  ghost function RemindedIn(rows: seq<Row>, p: Pass, id: nat): Bucket
    requires id < |rows|
  {
    if exists r :: r in ListReminders(rows, p.listAt) && id in r.ids then RowBucket(rows[id], p.listAt) else NoBucket
  }

  lemma RemindedIffRouted(rows: seq<Row>, p: Pass, id: nat)
    requires id < |rows|
    ensures RemindedIn(rows, p, id) == if rows[id].routes != [] then RowBucket(rows[id], p.listAt) else NoBucket
    ensures forall k | 0 <= k < |ListReminders(rows, p.listAt)| && id in ListReminders(rows, p.listAt)[k].ids ::
              RemindedIn(rows, p, id) != NoBucket
  {
    var rs := ListReminders(rows, p.listAt);
    forall k | 0 <= k < |rs|
      ensures id in rs[k].ids <==> RowBucket(rows[id], p.listAt) != NoBucket && rs[k].fso in rows[id].routes
    {
      ListedOncePerSubOrg(rows, p.listAt, k, id);
      assert id in rs[k].ids <==> multiset(rs[k].ids)[id] > 0;
    }
    forall k | 0 <= k < |rs| && id in rs[k].ids
      ensures RemindedIn(rows, p, id) != NoBucket
    {
      assert rs[k] in rs;
    }
    if rows[id].routes != [] && RowBucket(rows[id], p.listAt) != NoBucket {
      OneMessagePerReachedFso(rows, p.listAt);
      var f := rows[id].routes[0];
      assert Reached(rows, p.listAt, f) && Notified(rs, f);
      var k :| 0 <= k < |rs| && rs[k].fso == f;
      assert rs[k] in rs && id in rs[k].ids;
    }
  }

  /** What the passes of a run send about one record. */
  ghost function SentAbout(rows: seq<Row>, es: seq<Event>, id: nat): seq<Bucket>
    requires id < |rows|
    decreases |es|
  {
    if es == [] then []
    else
      MarkAllKeepsLength(rows, es[0]);
      var rest := SentAbout(Apply(rows, es[0]), es[1..], id);
      if es[0].RunPassAt? then [RemindedIn(rows, es[0].pass, id)] + rest else rest
  }

  lemma MarkAllKeepsLength(rows: seq<Row>, e: Event)
    ensures |Apply(rows, e)| == |rows|
  {
    if e.RunPassAt? {
      MarkAllAt(rows, ListReminders(rows, e.pass.listAt), e.pass.marks);
    }
  }

  /** The same run as one record sees it. */
  ghost function SeenBy(rows: seq<Row>, es: seq<Event>, id: nat): seq<Visit>
    requires id < |rows|
    decreases |es|
  {
    if es == [] then []
    else
      MarkAllKeepsLength(rows, es[0]);
      var rest := SeenBy(Apply(rows, es[0]), es[1..], id);
      if es[0].RunPassAt? then
        var p := es[0].pass;
        var eligible := rows[id].live && rows[id].routes != [];
        [Visit(p.listAt, eligible, LastMark(ListReminders(rows, p.listAt), p.marks, id))] + rest
      else rest
  }

  /** One table pass acts on the record as one visit. */
  lemma FirstVisit(rows: seq<Row>, es: seq<Event>, id: nat, due: Day)
    requires id < |rows| && rows[id].due == Some(due) && es != [] && es[0].RunPassAt?
    ensures |Apply(rows, es[0])| == |rows| && Apply(rows, es[0])[id].due == Some(due)
    ensures var vs := SeenBy(rows, es, id);
            && vs != [] && vs[1..] == SeenBy(Apply(rows, es[0]), es[1..], id)
            && Fired(due, rows[id].last, vs[0]) == RemindedIn(rows, es[0].pass, id)
            && LastAfter(due, rows[id].last, vs[0]) == Apply(rows, es[0])[id].last
            && (Fired(due, rows[id].last, vs[0]) != NoBucket && (forall k: nat :: es[0].pass.marks(k).Some?) ==>
                  vs[0].mark.Some?)
  {
    var p := es[0].pass;
    var rs := ListReminders(rows, p.listAt);
    MarkAllAt(rows, rs, p.marks);
    RemindedIffRouted(rows, p, id);
    LastMarkIsAMark(rs, p.marks, id);
  }

  /** The table pass, seen from one record, is the record-level cadence. */
  lemma {:induction false} RecordProjection(rows: seq<Row>, es: seq<Event>, id: nat, due: Day)
    requires id < |rows| && rows[id].due == Some(due)
    ensures SentAbout(rows, es, id) == History(due, rows[id].last, SeenBy(rows, es, id))
    decreases |es|
  {
    if es != [] {
      MarkAllKeepsLength(rows, es[0]);
      if es[0].RunPassAt? {
        FirstVisit(rows, es, id, due);
      }
      RecordProjection(Apply(rows, es[0]), es[1..], id, due);
    }
  }

  /** Passes run one after the other; marks are written while their pass runs. */
  ghost predicate InOrder(es: seq<Event>) {
    && (forall i, k: nat | 0 <= i < |es| && es[i].RunPassAt? && es[i].pass.marks(k).Some? ::
          es[i].pass.listAt <= es[i].pass.marks(k).value)
    && (forall i, j | 0 <= i < j < |es| && es[i].RunPassAt? && es[j].RunPassAt? ::
          es[i].pass.listAt <= es[j].pass.listAt)
    && (forall i, j, k: nat | 0 <= i < j < |es| && es[i].RunPassAt? && es[j].RunPassAt? && es[i].pass.marks(k).Some? ::
          es[i].pass.marks(k).value <= es[j].pass.listAt)
  }

  ghost predicate MarksSucceed(es: seq<Event>) {
    forall i, k: nat | 0 <= i < |es| && es[i].RunPassAt? :: es[i].pass.marks(k).Some?
  }

  ghost predicate ListedFrom(es: seq<Event>, from: Time) {
    forall j | 0 <= j < |es| && es[j].RunPassAt? :: es[j].pass.listAt >= from
  }

  lemma InOrderTail(es: seq<Event>)
    requires es != [] && InOrder(es)
    ensures InOrder(es[1..])
    ensures es[0].RunPassAt? ==> ListedFrom(es[1..], es[0].pass.listAt)
    ensures es[0].RunPassAt? ==>
              forall k: nat | es[0].pass.marks(k).Some? :: ListedFrom(es[1..], es[0].pass.marks(k).value)
  {
    var tail := es[1..];
    assert forall j | 0 <= j < |tail| :: tail[j] == es[j + 1];
  }

  lemma ChronologicalCons(v: Visit, ws: seq<Visit>)
    requires Chronological(ws)
    requires forall i | 0 <= i < |ws| :: ws[i].at >= v.at && (v.mark.Some? ==> ws[i].at >= v.mark.value)
    requires v.mark.Some? ==> v.mark.value >= v.at
    ensures Chronological([v] + ws)
  {
  }

  /** The record's view of an ordered run is chronological, from any bound on. */
  lemma {:induction false} SeenInOrder(rows: seq<Row>, es: seq<Event>, id: nat, from: Time)
    requires id < |rows| && InOrder(es) && ListedFrom(es, from)
    ensures Chronological(SeenBy(rows, es, id))
    ensures forall i | 0 <= i < |SeenBy(rows, es, id)| :: SeenBy(rows, es, id)[i].at >= from
    decreases |es|
  {
    if es != [] {
      var rows', tail := Apply(rows, es[0]), es[1..];
      MarkAllKeepsLength(rows, es[0]);
      InOrderTail(es);
      if es[0].RunPassAt? {
        var p := es[0].pass;
        LastMarkIsAMark(ListReminders(rows, p.listAt), p.marks, id);
        var v := SeenBy(rows, es, id)[0];
        var ws := SeenBy(rows', tail, id);
        SeenInOrder(rows', tail, id, if v.mark.Some? then v.mark.value else v.at);
        ChronologicalCons(v, ws);
        assert SeenBy(rows, es, id) == [v] + ws;
      } else {
        assert ListedFrom(tail, from);
        SeenInOrder(rows', tail, id, from);
      }
    }
  }

  lemma MarksSucceedTail(es: seq<Event>)
    requires es != [] && MarksSucceed(es)
    ensures MarksSucceed(es[1..])
    ensures es[0].RunPassAt? ==> forall k: nat :: es[0].pass.marks(k).Some?
  {
    assert forall j | 0 <= j < |es[1..]| :: es[1..][j] == es[j + 1];
  }

  /** If no mark fails, every pass that reminds about the record marks it. */
  lemma {:induction false} SeenMarked(rows: seq<Row>, es: seq<Event>, id: nat, due: Day)
    requires id < |rows| && rows[id].due == Some(due) && MarksSucceed(es)
    ensures Marked(due, rows[id].last, SeenBy(rows, es, id))
    decreases |es|
  {
    if es != [] {
      var rows', tail := Apply(rows, es[0]), es[1..];
      MarkAllKeepsLength(rows, es[0]);
      MarksSucceedTail(es);
      if es[0].RunPassAt? {
        FirstVisit(rows, es, id, due);
        SeenMarked(rows', tail, id, due);
        MarkedCons(due, rows[id].last, SeenBy(rows, es, id));
      } else {
        SeenMarked(rows', tail, id, due);
      }
    }
  }

  lemma MarkedCons(due: Day, last: Option<Time>, vs: seq<Visit>)
    requires vs != [] && (Fired(due, last, vs[0]) != NoBucket ==> vs[0].mark.Some?)
    requires Marked(due, LastAfter(due, last, vs[0]), vs[1..])
    ensures Marked(due, last, vs)
  {
    var h, rest := History(due, last, vs), History(due, LastAfter(due, last, vs[0]), vs[1..]);
    assert h == [Fired(due, last, vs[0])] + rest;
    assert forall i | 0 < i < |vs| :: h[i] == rest[i - 1] && vs[i] == vs[1..][i - 1];
  }

  lemma EarliestListing(es: seq<Event>) returns (from: Time)
    ensures ListedFrom(es, from)
  {
    from := 0;
    for n := 0 to |es|
      invariant forall j | 0 <= j < n && es[j].RunPassAt? :: es[j].pass.listAt >= from
    {
      if es[n].RunPassAt? && es[n].pass.listAt < from {
        from := es[n].pass.listAt;
      }
    }
  }

  /** A record without a date is never reminded about. */
  lemma {:induction false} UndatedIsSilent(rows: seq<Row>, es: seq<Event>, id: nat)
    requires id < |rows| && rows[id].due.None?
    ensures forall k | 0 <= k < |SentAbout(rows, es, id)| :: SentAbout(rows, es, id)[k] == NoBucket
    decreases |es|
  {
    if es != [] {
      MarkAllKeepsLength(rows, es[0]);
      KeepsDate(rows, es[0], id);
      UndatedIsSilent(Apply(rows, es[0]), es[1..], id);
    }
  }

  lemma {:induction false} KeepsDate(rows: seq<Row>, e: Event, id: nat)
    requires id < |rows|
    ensures |Apply(rows, e)| == |rows| && Apply(rows, e)[id].due == rows[id].due
  {
    if e.RunPassAt? {
      MarkAllAt(rows, ListReminders(rows, e.pass.listAt), e.pass.marks);
    }
  }

  /** A pass lists no record outside the query's filter, and none without a reachable FSO. */
  lemma OutOfReachIsSilent(rows: seq<Row>, p: Pass, id: nat)
    requires id < |rows| && (!rows[id].live || rows[id].routes == [])
    ensures forall k | 0 <= k < |ListReminders(rows, p.listAt)| :: id !in ListReminders(rows, p.listAt)[k].ids
  {
    forall k | 0 <= k < |ListReminders(rows, p.listAt)|
      ensures id !in ListReminders(rows, p.listAt)[k].ids
    {
      ListedOncePerSubOrg(rows, p.listAt, k, id);
      assert multiset(ListReminders(rows, p.listAt)[k].ids)[id] == 0;
    }
  }

  /** The record-level view of an ordered run. */
  lemma SeenWhole(rows: seq<Row>, es: seq<Event>, id: nat)
    requires id < |rows| && rows[id].due.Some? && InOrder(es)
    ensures Chronological(SeenBy(rows, es, id))
    ensures SentAbout(rows, es, id) == History(rows[id].due.value, rows[id].last, SeenBy(rows, es, id))
  {
    RecordProjection(rows, es, id, rows[id].due.value);
    var from := EarliestListing(es);
    SeenInOrder(rows, es, id, from);
  }

  /** Safety of the whole table: over any run of passes, and with records changing eligibility
      and sub-orgs changing hands in between, at most one pass sends d90 and at most two
      passes send d30 about a record with a fixed due date, and one more for each pass that
      could not mark it; none, when marks succeed. */
  lemma TableCadence(rows: seq<Row>, es: seq<Event>, id: nat)
    requires id < |rows| && rows[id].due.Some? && InOrder(es)
    ensures var h, vs := SentAbout(rows, es, id), SeenBy(rows, es, id);
            && |h| == |vs|
            && multiset(h)[D90] <= 1 + Unmarked(h, vs, D90)
            && multiset(h)[D30] <= 2 + Unmarked(h, vs, D30)
            && (MarksSucceed(es) ==> Unmarked(h, vs, D90) == Unmarked(h, vs, D30) == 0)
  {
    var due, h, vs := rows[id].due.value, SentAbout(rows, es, id), SeenBy(rows, es, id);
    SeenWhole(rows, es, id);
    RemindersAreBounded(due, rows[id].last, vs);
    if MarksSucceed(es) {
      SeenMarked(rows, es, id, due);
      NoneUnmarked(h, vs, D90, |h|);
      NoneUnmarked(h, vs, D30, |h|);
    }
  }

  /** More than one pass sends d30 about the record if and only if some pass finds it eligible
      by the due date, more than 20 days after the mark of a d30 or after a d30 that could
      not be marked. */
  lemma TableSendsD30TwiceIff(rows: seq<Row>, es: seq<Event>, id: nat)
    requires id < |rows| && rows[id].due.Some? && InOrder(es)
    ensures var due, h, vs := rows[id].due.value, SentAbout(rows, es, id), SeenBy(rows, es, id);
            && |h| == |vs|
            && (D30Twice(h) <==> exists i, j | 0 <= i < j < |vs| :: D30Reopens(due, h, vs, i, j))
  {
    SeenWhole(rows, es, id);
    D30TwiceIff(rows[id].due.value, rows[id].last, SeenBy(rows, es, id));
  }

  /** What the passes of a run send to one FSO about one record; a pass has one message for
      each FSO (OneMessagePerReachedFso). */
  ghost function SentTo(rows: seq<Row>, es: seq<Event>, id: nat, fso: Fso): seq<Bucket>
    requires id < |rows|
    decreases |es|
  {
    if es == [] then []
    else
      MarkAllKeepsLength(rows, es[0]);
      var rest := SentTo(Apply(rows, es[0]), es[1..], id, fso);
      if es[0].RunPassAt? then [RemindedTo(rows, es[0].pass, id, fso)] + rest else rest
  }

  ghost function RemindedTo(rows: seq<Row>, p: Pass, id: nat, fso: Fso): Bucket
    requires id < |rows|
  {
    if exists r :: r in ListReminders(rows, p.listAt) && r.fso == fso && id in r.ids
    then RowBucket(rows[id], p.listAt) else NoBucket
  }

  lemma {:induction false} SentToIsSentAbout(rows: seq<Row>, es: seq<Event>, id: nat, fso: Fso, b: Bucket)
    requires id < |rows| && b != NoBucket
    ensures multiset(SentTo(rows, es, id, fso))[b] <= multiset(SentAbout(rows, es, id))[b]
    decreases |es|
  {
    if es != [] {
      var rows' := Apply(rows, es[0]);
      MarkAllKeepsLength(rows, es[0]);
      SentToIsSentAbout(rows', es[1..], id, fso, b);
      if es[0].RunPassAt? {
        var to, about := SentTo(rows', es[1..], id, fso), SentAbout(rows', es[1..], id);
        CountFirst(RemindedTo(rows, es[0].pass, id, fso), to, b);
        CountFirst(RemindedIn(rows, es[0].pass, id), about, b);
      }
    }
  }

  /** So each FSO gets at most one d90 and two d30 messages that list the record, and one more
      of a bucket for each pass that could not mark it. */
  lemma FsoCadence(rows: seq<Row>, es: seq<Event>, id: nat, fso: Fso)
    requires id < |rows| && rows[id].due.Some? && InOrder(es)
    ensures var sent, h, vs := multiset(SentTo(rows, es, id, fso)), SentAbout(rows, es, id), SeenBy(rows, es, id);
            && |h| == |vs|
            && sent[D90] <= 1 + Unmarked(h, vs, D90) && sent[D30] <= 2 + Unmarked(h, vs, D30)
            && (MarksSucceed(es) ==> sent[D90] <= 1 && sent[D30] <= 2)
  {
    TableCadence(rows, es, id);
    SentToIsSentAbout(rows, es, id, fso, D90);
    SentToIsSentAbout(rows, es, id, fso, D30);
  }

  /** Every mark of a pass lands on the calendar day of its listing. */
  ghost predicate MarkedSameDay(es: seq<Event>) {
    forall i, k: nat | 0 <= i < |es| && es[i].RunPassAt? && es[i].pass.marks(k).Some? ::
      DayOf(es[i].pass.marks(k).value) == DayOf(es[i].pass.listAt)
  }

  lemma {:induction false} SeenSameDay(rows: seq<Row>, es: seq<Event>, id: nat)
    requires id < |rows| && MarkedSameDay(es)
    ensures MarksSameDay(SeenBy(rows, es, id))
    decreases |es|
  {
    if es != [] {
      var rows', tail := Apply(rows, es[0]), es[1..];
      MarkAllKeepsLength(rows, es[0]);
      assert forall j | 0 <= j < |tail| :: tail[j] == es[j + 1];
      SeenSameDay(rows', tail, id);
      if es[0].RunPassAt? {
        var p := es[0].pass;
        LastMarkIsAMark(ListReminders(rows, p.listAt), p.marks, id);
        assert SeenBy(rows, es, id) == [SeenBy(rows, es, id)[0]] + SeenBy(rows', tail, id);
      }
    }
  }

  /** Progress of the whole table, wherever marks commit and whether or not they succeed: a
      dated record that is eligible when pass `k` lists in the d90 window has been sent d90 by
      then if and only if it came to the run unmarked for the 60 days before ... */
  lemma TableSendsD90Iff(rows: seq<Row>, es: seq<Event>, id: nat, k: nat)
    requires id < |rows| && rows[id].due.Some? && InOrder(es)
    requires var due, vs := rows[id].due.value, SeenBy(rows, es, id);
             k < |vs| && due - 90 <= DayOf(vs[k].at) < due - 30 && vs[k].eligible
    ensures var vs, sent, last := SeenBy(rows, es, id), SentAbout(rows, es, id), rows[id].last;
            && |sent| == |vs|
            && ((exists j | 0 <= j <= k :: sent[j] == D90) <==> last.None? || last.value < vs[k].at - 60 * DAY)
  {
    SeenWhole(rows, es, id);
    D90SentIff(rows[id].due.value, rows[id].last, SeenBy(rows, es, id), k);
  }

  /** ... one that is eligible when pass `k` lists in the d30 window has been sent d30 by then if
      and only if it came to the run unmarked for the 20 days before, and no d90 message about
      it was marked within those 20 days ... */
  lemma TableSendsD30Iff(rows: seq<Row>, es: seq<Event>, id: nat, k: nat)
    requires id < |rows| && rows[id].due.Some? && InOrder(es)
    requires var due, vs := rows[id].due.value, SeenBy(rows, es, id);
             k < |vs| && due - 30 <= DayOf(vs[k].at) <= due && vs[k].eligible
    ensures var vs, sent, last := SeenBy(rows, es, id), SentAbout(rows, es, id), rows[id].last;
            && |sent| == |vs|
            && ((exists j | 0 <= j <= k :: sent[j] == D30) <==>
                && (last.None? || last.value < vs[k].at - 20 * DAY)
                && !exists i | 0 <= i < k ::
                     sent[i] == D90 && vs[i].mark.Some? && vs[i].mark.value >= vs[k].at - 20 * DAY)
  {
    var due, last, vs := rows[id].due.value, rows[id].last, SeenBy(rows, es, id);
    SeenWhole(rows, es, id);
    D30SentIff(due, last, vs, k);
    assert forall i | 0 <= i < k ::
        D90Blocks(due, last, vs, i, k) <==>
        History(due, last, vs)[i] == D90 && vs[i].mark.Some? && vs[i].mark.value >= vs[k].at - 20 * DAY;
  }

  /** ... and each later day on which some pass finds it eligible sees an overdue message
      about it if and only if no earlier pass's mark, nor the initial one, is dated that day. */
  lemma TableSendsOverdueIff(rows: seq<Row>, es: seq<Event>, id: nat, k: nat)
    requires id < |rows| && rows[id].due.Some? && InOrder(es)
    requires var due, vs := rows[id].due.value, SeenBy(rows, es, id);
             k < |vs| && DayOf(vs[k].at) > due && vs[k].eligible
    ensures var due, vs, sent := rows[id].due.value, SeenBy(rows, es, id), SentAbout(rows, es, id);
            && |sent| == |vs|
            && ((exists j | 0 <= j < |vs| && DayOf(vs[j].at) == DayOf(vs[k].at) :: sent[j] == Overdue) <==>
                !DayTaken(due, rows[id].last, vs, DayOf(vs[k].at)))
  {
    SeenWhole(rows, es, id);
    OverdueSentIff(rows[id].due.value, rows[id].last, SeenBy(rows, es, id), k);
  }

  /** With marks on the day of their listing, a dated record that is eligible when a pass
      lists on day due-10 has been sent d30 by then. */
  lemma TableSendsD30(rows: seq<Row>, es: seq<Event>, id: nat, k: nat)
    requires id < |rows| && rows[id].due.Some? && InOrder(es) && MarkedSameDay(es)
    requires var due, vs := rows[id].due.value, SeenBy(rows, es, id);
             && (rows[id].last.None? || DayOf(rows[id].last.value) < due - 30)
             && k < |vs| && DayOf(vs[k].at) == due - 10 && vs[k].eligible
    ensures |SentAbout(rows, es, id)| > k && exists j | 0 <= j <= k :: SentAbout(rows, es, id)[j] == D30
  {
    var due := rows[id].due.value;
    SeenWhole(rows, es, id);
    SeenSameDay(rows, es, id);
    D30ByTenDaysBeforeDue(due, rows[id].last, SeenBy(rows, es, id), k);
  }

  /** ... and on each later day with a pass that finds it eligible, exactly one of that
      day's passes sends an overdue reminder. */
  lemma TableSendsOverdueOncePerDay(rows: seq<Row>, es: seq<Event>, id: nat, k: nat) returns (j: nat)
    requires id < |rows| && rows[id].due.Some? && InOrder(es) && MarksSucceed(es) && MarkedSameDay(es)
    requires var due, vs := rows[id].due.value, SeenBy(rows, es, id);
             && k < |vs| && DayOf(vs[k].at) > due && vs[k].eligible
             && (rows[id].last.None? || DayOf(rows[id].last.value) < DayOf(vs[k].at))
    ensures var vs, sent := SeenBy(rows, es, id), SentAbout(rows, es, id);
            && |sent| == |vs| && j < |vs| && DayOf(vs[j].at) == DayOf(vs[k].at) && sent[j] == Overdue
            && forall i | 0 <= i < |vs| && i != j && DayOf(vs[i].at) == DayOf(vs[k].at) :: sent[i] != Overdue
  {
    var due, last, vs := rows[id].due.value, rows[id].last, SeenBy(rows, es, id);
    SeenWhole(rows, es, id);
    SeenMarked(rows, es, id, due);
    SeenSameDay(rows, es, id);
    OverdueSentIff(due, last, vs, k);
    j :| 0 <= j < |vs| && DayOf(vs[j].at) == DayOf(vs[k].at) && History(due, last, vs)[j] == Overdue;
    forall i | 0 <= i < |vs| && i != j && DayOf(vs[i].at) == DayOf(vs[k].at)
      ensures History(due, last, vs)[i] != Overdue
    {
      if History(due, last, vs)[i] == Overdue {
        BucketsAdvance(due, last, vs, if i < j then i else j, if i < j then j else i);
      }
    }
  }
}
