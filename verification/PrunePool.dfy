/** Registry pruning (tools/dev/registry.go, cmdRegistryPrune): the selection filter, and
    the worker pool as interleaved steps of workers, Ctrl+C, the closer and the collector. */
module PrunePool {
  import opened Wrappers
  import opened Clock

  const MAX_WORKERS := 8

  /** `created` is None when the listed time does not parse. */
  datatype Image = Image(package: string, version: string, created: Option<Time>, tags: seq<string>)

  predicate Protected(tags: seq<string>) {
    exists t | t in tags :: t in {"latest", "staging", "prod"}
  }

  /** May be pruned: dated, not after the cutoff, no protected tag. */
  predicate Prunable(img: Image, cutoff: Time) {
    img.created.Some? && img.created.value <= cutoff && !Protected(img.tags)
  }

  function Selection(images: seq<Image>, cutoff: Time): seq<Image> {
    if images == [] then []
    else
      var rest, img := Selection(images[..|images| - 1], cutoff), images[|images| - 1];
      if Prunable(img, cutoff) then rest + [img] else rest
  }

  /** What counts as skipped: an image as old that has one of those tags. */
  lemma SkippedIff(img: Image, cutoff: Time)
    ensures Skipped(img, cutoff) <==>
            && img.created != None && img.created.value <= cutoff
            && ("latest" in img.tags || "staging" in img.tags || "prod" in img.tags)
  {
  }

  /** What may be pruned: a dated image, not newer than the cutoff, tagged neither latest nor
      staging nor prod. */
  lemma PrunableIff(img: Image, cutoff: Time)
    ensures Prunable(img, cutoff) <==>
            && img.created != None && img.created.value <= cutoff
            && "latest" !in img.tags && "staging" !in img.tags && "prod" !in img.tags
  {
  }

  lemma {:induction false} SelectionIsPrunable(images: seq<Image>, cutoff: Time, img: Image)
    ensures img in Selection(images, cutoff) <==> img in images && Prunable(img, cutoff)
  {
    if images != [] {
      SelectionIsPrunable(images[..|images| - 1], cutoff, img);
      assert images == images[..|images| - 1] + [images[|images| - 1]];
    }
  }

  /** An old image that is kept for a protected tag. */
  predicate Skipped(img: Image, cutoff: Time) {
    img.created.Some? && img.created.value <= cutoff && Protected(img.tags)
  }

  method HasProtectedTag(tags: seq<string>) returns (found: bool)
    ensures found == Protected(tags)
  {
    for k := 0 to |tags|
      invariant forall j | 0 <= j < k :: tags[j] !in {"latest", "staging", "prod"}
    {
      if tags[k] in {"latest", "staging", "prod"} {
        assert tags[k] in tags;
        return true;
      }
    }
    return false;
  }

  /** The selection loop, 30 days back; `skipped` counts old images kept for a protected tag. */
  method Select(images: seq<Image>, now: Time) returns (toPrune: seq<Image>, skipped: nat)
    ensures toPrune == Selection(images, now - 2592000)
    ensures skipped == |set i | 0 <= i < |images| && Skipped(images[i], now - 2592000)|
  {
    var cutoff := now - 30 * DAY;
    toPrune, skipped := [], 0;
    ghost var kept := {};
    for i := 0 to |images|
      invariant toPrune == Selection(images[..i], cutoff)
      invariant skipped == |kept|
      invariant kept == set j | 0 <= j < i && Skipped(images[j], cutoff)
    {
      assert images[..i + 1][..i] == images[..i];
      var img := images[i];
      if img.created.None? {
        continue;
      }
      if img.created.value > cutoff {
        continue;
      }
      var protected := HasProtectedTag(img.tags);
      if protected {
        skipped := skipped + 1;
        kept := kept + {i};
        continue;
      }
      toPrune := toPrune + [img];
    }
    assert images[..|images|] == images;
  }

  // ---------- The pool ----------

  /** Work items are positions in toPrune. A worker takes an item, looks at the context,
      deletes, and sends the result; `Stopped` is a worker that has returned. */
  datatype Worker = Waiting | Took(item: nat) | Deleting(item: nat) | Sending(item: nat, ok: bool) | Stopped

  datatype Result = Result(item: nat, ok: bool)

  /** `queue` and `results` are the two channels; `closed` says results has been closed.
      `attempted`, `deletions`, `collected` and `dropped` record what happened to each item:
      attempts that began, how they ended, what the collector saw, and what a cancelled worker
      took without trying. */
  datatype Pool = Pool(queue: seq<nat>, workers: seq<Worker>, cancelled: bool, results: seq<Result>, closed: bool,
                       deleted: nat, failed: nat,
                       attempted: seq<nat>, deletions: seq<Result>, collected: seq<Result>, dropped: seq<nat>)

  datatype Event = Take(w: nat) | CheckContext(w: nat) | DeleteDone(w: nat, ok: bool) | SendResult(w: nat) |
                   Stop(w: nat) | Cancel | CloseResults | Collect

  function Items(n: nat): seq<nat> {
    seq(n, i => i)
  }

  function Start(n: nat): Pool {
    var workers := seq(if n < MAX_WORKERS then n else MAX_WORKERS, _ => Waiting);
    Pool(Items(n), workers, false, [], false, 0, 0, [], [], [], [])
  }

  /** The buffer size of the results channel is n. */
  predicate Enabled(n: nat, p: Pool, e: Event) {
    match e
    case Take(w) => w < |p.workers| && p.workers[w].Waiting? && p.queue != []
    case CheckContext(w) => w < |p.workers| && p.workers[w].Took?
    case DeleteDone(w, _) => w < |p.workers| && p.workers[w].Deleting?
    case SendResult(w) => w < |p.workers| && p.workers[w].Sending? && |p.results| < n
    case Stop(w) => w < |p.workers| && p.workers[w].Waiting? && p.queue == []
    case Cancel => !p.cancelled
    case CloseResults => !p.closed && forall w | 0 <= w < |p.workers| :: p.workers[w].Stopped?
    case Collect => p.results != []
  }

  function Next(n: nat, p: Pool, e: Event): Pool
    requires Enabled(n, p, e)
  {
    match e
    case Take(w) =>
      p.(queue := p.queue[1..], workers := p.workers[w := Took(p.queue[0])])
    case CheckContext(w) =>
      var item := p.workers[w].item;
      if p.cancelled then p.(workers := p.workers[w := Stopped], dropped := p.dropped + [item])
      else p.(workers := p.workers[w := Deleting(item)], attempted := p.attempted + [item])
    case DeleteDone(w, ok) =>
      p.(workers := p.workers[w := Sending(p.workers[w].item, ok)],
         deletions := p.deletions + [Result(p.workers[w].item, ok)])
    case SendResult(w) =>
      p.(workers := p.workers[w := Waiting], results := p.results + [Result(p.workers[w].item, p.workers[w].ok)])
    case Stop(w) =>
      p.(workers := p.workers[w := Stopped])
    case Cancel => p.(cancelled := true)
    case CloseResults => p.(closed := true)
    case Collect =>
      var r := p.results[0];
      p.(results := p.results[1..], collected := p.collected + [r],
         deleted := p.deleted + (if r.ok then 1 else 0), failed := p.failed + (if r.ok then 0 else 1))
  }

  /** The pool after a schedule, or None if the schedule takes a step that is not enabled. */
  function Run(n: nat, es: seq<Event>): Option<Pool>
    decreases |es|
  {
    if es == [] then Some(Start(n))
    else
      match Run(n, es[..|es| - 1])
      case None => None
      case Some(q) => if Enabled(n, q, es[|es| - 1]) then Some(Next(n, q, es[|es| - 1])) else None
  }

  predicate Reachable(n: nat, p: Pool, es: seq<Event>) {
    Run(n, es) == Some(p)
  }

  /** The collector's range over results has ended. */
  predicate Finished(p: Pool) {
    p.closed && p.results == []
  }

  // ---------- Where every item is ----------

  function Sum(ws: seq<Worker>, f: Worker -> nat): nat {
    if ws == [] then 0 else Sum(ws[..|ws| - 1], f) + f(ws[|ws| - 1])
  }

  lemma {:induction false} ChangeWorker(ws: seq<Worker>, w: nat, x: Worker, f: Worker -> nat)
    requires w < |ws|
    ensures Sum(ws[w := x], f) + f(ws[w]) == Sum(ws, f) + f(x)
  {
    var n := |ws| - 1;
    if w == n {
      assert ws[w := x][..n] == ws[..n];
    } else {
      ChangeWorker(ws[..n], w, x, f);
      assert ws[w := x][..n] == ws[..n][w := x];
    }
  }

  lemma {:induction false} SumIsZero(ws: seq<Worker>, f: Worker -> nat)
    requires forall w | 0 <= w < |ws| :: f(ws[w]) == 0
    ensures Sum(ws, f) == 0
  {
    if ws != [] { SumIsZero(ws[..|ws| - 1], f); }
  }

  lemma {:induction false} SumIncludes(ws: seq<Worker>, w: nat, f: Worker -> nat)
    requires w < |ws|
    ensures Sum(ws, f) >= f(ws[w])
  {
    if w < |ws| - 1 { SumIncludes(ws[..|ws| - 1], w, f); }
  }

  /** A worker holding an item it has not tried yet: item `i`, or any. */
  function Holding(i: nat): Worker -> nat {
    (w: Worker) => if w == Took(i) then 1 else 0
  }

  function HoldingAny(): Worker -> nat {
    (w: Worker) => if w.Took? then 1 else 0
  }

  /** A worker that is deleting an item. */
  function Trying(i: nat): Worker -> nat {
    (w: Worker) => if w == Deleting(i) then 1 else 0
  }

  function TryingAny(): Worker -> nat {
    (w: Worker) => if w.Deleting? then 1 else 0
  }

  /** A worker with an outcome to report: `r`, or any, or any success. */
  function Reporting(r: Result): Worker -> nat {
    (w: Worker) => if w == Sending(r.item, r.ok) then 1 else 0
  }

  function ReportingAny(): Worker -> nat {
    (w: Worker) => if w.Sending? then 1 else 0
  }

  function ReportingSuccess(): Worker -> nat {
    (w: Worker) => if w.Sending? && w.ok then 1 else 0
  }

  function Successes(rs: seq<Result>): nat {
    if rs == [] then 0 else (if rs[0].ok then 1 else 0) + Successes(rs[1..])
  }

  lemma {:induction false} SuccessesPush(rs: seq<Result>, r: Result)
    ensures Successes(rs + [r]) == Successes(rs) + if r.ok then 1 else 0
  {
    if rs == [] {
      assert [] + [r] == [r] && [r][1..] == [];
    } else {
      assert (rs + [r])[1..] == rs[1..] + [r];
      SuccessesPush(rs[1..], r);
    }
  }

  /** Item `i` is in exactly one place: queued, taken, dropped or attempted. */
  ghost predicate Placed(n: nat, p: Pool, i: nat) {
    multiset(p.queue)[i] + Sum(p.workers, Holding(i)) + multiset(p.dropped)[i] + multiset(p.attempted)[i] ==
    if i < n then 1 else 0
  }

  /** An attempted item is being deleted, or its deletion ended one way or the other. */
  ghost predicate Tracked(p: Pool, i: nat) {
    multiset(p.attempted)[i] ==
    Sum(p.workers, Trying(i)) + multiset(p.deletions)[Result(i, true)] + multiset(p.deletions)[Result(i, false)]
  }

  /** An outcome is with its worker, in the results channel, or collected. */
  ghost predicate Reported(p: Pool, r: Result) {
    multiset(p.deletions)[r] == Sum(p.workers, Reporting(r)) + multiset(p.results)[r] + multiset(p.collected)[r]
  }

  ghost predicate SizesConserved(n: nat, p: Pool) {
    && |p.queue| + Sum(p.workers, HoldingAny()) + |p.dropped| + |p.attempted| == n
    && |p.attempted| == Sum(p.workers, TryingAny()) + |p.deletions|
    && |p.deletions| == Sum(p.workers, ReportingAny()) + |p.results| + |p.collected|
    && p.deleted + p.failed == |p.collected|
  }

  ghost predicate SuccessesConserved(p: Pool) {
    Successes(p.deletions) == Sum(p.workers, ReportingSuccess()) + Successes(p.results) + p.deleted
  }

  /** Workers return only once the queue is empty or after cancellation. */
  ghost predicate Disciplined(n: nat, p: Pool) {
    && |p.workers| == |Start(n).workers|
    && (!p.cancelled ==> p.dropped == [])
    && (forall w | 0 <= w < |p.workers| && p.workers[w].Stopped? :: p.cancelled || p.queue == [])
    && (p.closed ==> forall w | 0 <= w < |p.workers| :: p.workers[w].Stopped?)
  }

  predicate ByWorker(e: Event) {
    e.Take? || e.CheckContext? || e.DeleteDone? || e.SendResult? || e.Stop?
  }

  lemma {:induction false} CountPush<T>(s: seq<T>, x: T, y: T)
    ensures multiset(s + [x])[y] == multiset(s)[y] + if x == y then 1 else 0
  {
  }

  lemma {:induction false} CountPop<T>(s: seq<T>, y: T)
    requires s != []
    ensures multiset(s)[y] == multiset(s[1..])[y] + if s[0] == y then 1 else 0
  {
    assert s == [s[0]] + s[1..];
  }

  /** How a step of worker `e.w` moves a sum over the workers; other steps leave it alone. */
  lemma {:induction false} SumAfterStep(n: nat, p: Pool, e: Event, f: Worker -> nat)
    requires Enabled(n, p, e)
    ensures var q := Next(n, p, e);
            |q.workers| == |p.workers| &&
            if ByWorker(e) then Sum(q.workers, f) + f(p.workers[e.w]) == Sum(p.workers, f) + f(q.workers[e.w])
            else q.workers == p.workers
  {
    if ByWorker(e) { ChangeWorker(p.workers, e.w, Next(n, p, e).workers[e.w], f); }
  }

  lemma {:induction false} TakeKeepsPlaced(n: nat, p: Pool, e: Event, i: nat)
    requires Placed(n, p, i) && Enabled(n, p, e) && e.Take?
    ensures Placed(n, Next(n, p, e), i)
  {
    SumAfterStep(n, p, e, Holding(i));
    CountPop(p.queue, i);
  }

  lemma {:induction false} CheckKeepsPlaced(n: nat, p: Pool, e: Event, i: nat)
    requires Placed(n, p, i) && Enabled(n, p, e) && e.CheckContext?
    ensures Placed(n, Next(n, p, e), i)
  {
    SumAfterStep(n, p, e, Holding(i));
    CountPush(p.dropped, p.workers[e.w].item, i);
    CountPush(p.attempted, p.workers[e.w].item, i);
  }

  lemma {:induction false} NextKeepsPlaced(n: nat, p: Pool, e: Event, i: nat)
    requires Placed(n, p, i) && Enabled(n, p, e)
    ensures Placed(n, Next(n, p, e), i)
  {
    if e.Take? {
      TakeKeepsPlaced(n, p, e, i);
    } else if e.CheckContext? {
      CheckKeepsPlaced(n, p, e, i);
    } else {
      SumAfterStep(n, p, e, Holding(i));
    }
  }

  lemma {:induction false} CheckKeepsTracked(n: nat, p: Pool, e: Event, i: nat)
    requires Tracked(p, i) && Enabled(n, p, e) && e.CheckContext?
    ensures Tracked(Next(n, p, e), i)
  {
    SumAfterStep(n, p, e, Trying(i));
    CountPush(p.attempted, p.workers[e.w].item, i);
  }

  lemma {:induction false} DeleteKeepsTracked(n: nat, p: Pool, e: Event, i: nat)
    requires Tracked(p, i) && Enabled(n, p, e) && e.DeleteDone?
    ensures Tracked(Next(n, p, e), i)
  {
    SumAfterStep(n, p, e, Trying(i));
    CountPush(p.deletions, Result(p.workers[e.w].item, e.ok), Result(i, true));
    CountPush(p.deletions, Result(p.workers[e.w].item, e.ok), Result(i, false));
  }

  lemma {:induction false} NextKeepsTracked(n: nat, p: Pool, e: Event, i: nat)
    requires Tracked(p, i) && Enabled(n, p, e)
    ensures Tracked(Next(n, p, e), i)
  {
    if e.CheckContext? {
      CheckKeepsTracked(n, p, e, i);
    } else if e.DeleteDone? {
      DeleteKeepsTracked(n, p, e, i);
    } else {
      SumAfterStep(n, p, e, Trying(i));
    }
  }

  lemma {:induction false} DeleteKeepsReported(n: nat, p: Pool, e: Event, r: Result)
    requires Reported(p, r) && Enabled(n, p, e) && e.DeleteDone?
    ensures Reported(Next(n, p, e), r)
  {
    SumAfterStep(n, p, e, Reporting(r));
    CountPush(p.deletions, Result(p.workers[e.w].item, e.ok), r);
  }

  lemma {:induction false} SendKeepsReported(n: nat, p: Pool, e: Event, r: Result)
    requires Reported(p, r) && Enabled(n, p, e) && e.SendResult?
    ensures Reported(Next(n, p, e), r)
  {
    SumAfterStep(n, p, e, Reporting(r));
    CountPush(p.results, Result(p.workers[e.w].item, p.workers[e.w].ok), r);
  }

  lemma {:induction false} CollectKeepsReported(n: nat, p: Pool, e: Event, r: Result)
    requires Reported(p, r) && Enabled(n, p, e) && e.Collect?
    ensures Reported(Next(n, p, e), r)
  {
    CountPop(p.results, r);
    CountPush(p.collected, p.results[0], r);
  }

  lemma {:induction false} NextKeepsReported(n: nat, p: Pool, e: Event, r: Result)
    requires Reported(p, r) && Enabled(n, p, e)
    ensures Reported(Next(n, p, e), r)
  {
    if e.DeleteDone? {
      DeleteKeepsReported(n, p, e, r);
    } else if e.SendResult? {
      SendKeepsReported(n, p, e, r);
    } else if e.Collect? {
      CollectKeepsReported(n, p, e, r);
    } else {
      SumAfterStep(n, p, e, Reporting(r));
    }
  }

  lemma {:induction false} NextConservesSizes(n: nat, p: Pool, e: Event)
    requires SizesConserved(n, p) && Enabled(n, p, e)
    ensures SizesConserved(n, Next(n, p, e))
  {
    SumAfterStep(n, p, e, HoldingAny());
    SumAfterStep(n, p, e, TryingAny());
    SumAfterStep(n, p, e, ReportingAny());
  }

  lemma {:induction false} NextConservesSuccesses(n: nat, p: Pool, e: Event)
    requires SuccessesConserved(p) && Enabled(n, p, e)
    ensures SuccessesConserved(Next(n, p, e))
  {
    SumAfterStep(n, p, e, ReportingSuccess());
    if e.DeleteDone? {
      SuccessesPush(p.deletions, Result(p.workers[e.w].item, e.ok));
    }
    if e.SendResult? {
      SuccessesPush(p.results, Result(p.workers[e.w].item, p.workers[e.w].ok));
    }
  }

  lemma NextDisciplined(n: nat, p: Pool, e: Event)
    requires Disciplined(n, p) && Enabled(n, p, e)
    ensures Disciplined(n, Next(n, p, e))
  {
  }

  lemma {:induction false} ItemsOnce(n: nat, i: nat)
    ensures multiset(Items(n))[i] == if i < n then 1 else 0
  {
    if n > 0 {
      ItemsOnce(n - 1, i);
      assert Items(n) == Items(n - 1) + [n - 1];
    }
  }

  lemma {:induction false} ReachableConserves(n: nat, p: Pool, es: seq<Event>, i: nat)
    requires Reachable(n, p, es)
    ensures Placed(n, p, i) && Tracked(p, i)
    decreases |es|
  {
    if es == [] {
      ItemsOnce(n, i);
      SumIsZero(p.workers, Holding(i));
      SumIsZero(p.workers, Trying(i));
    } else {
      var q := Previous(n, p, es);
      ReachableConserves(n, q, es[..|es| - 1], i);
      NextKeepsPlaced(n, q, es[|es| - 1], i);
      NextKeepsTracked(n, q, es[|es| - 1], i);
    }
  }

  lemma {:induction false} ReachableReports(n: nat, p: Pool, es: seq<Event>, r: Result)
    requires Reachable(n, p, es)
    ensures Reported(p, r)
    decreases |es|
  {
    if es == [] {
      SumIsZero(p.workers, Reporting(r));
    } else {
      var q := Previous(n, p, es);
      ReachableReports(n, q, es[..|es| - 1], r);
      NextKeepsReported(n, q, es[|es| - 1], r);
    }
  }

  lemma {:induction false} ReachableInv(n: nat, p: Pool, es: seq<Event>)
    requires Reachable(n, p, es)
    ensures SizesConserved(n, p) && SuccessesConserved(p) && Disciplined(n, p)
    decreases |es|
  {
    if es == [] {
      SumIsZero(p.workers, HoldingAny());
      SumIsZero(p.workers, TryingAny());
      SumIsZero(p.workers, ReportingAny());
      SumIsZero(p.workers, ReportingSuccess());
    } else {
      var q := Previous(n, p, es);
      ReachableInv(n, q, es[..|es| - 1]);
      NextConservesSizes(n, q, es[|es| - 1]);
      NextConservesSuccesses(n, q, es[|es| - 1]);
      NextDisciplined(n, q, es[|es| - 1]);
    }
  }

  lemma Previous(n: nat, p: Pool, es: seq<Event>) returns (q: Pool)
    requires Reachable(n, p, es) && es != []
    ensures Reachable(n, q, es[..|es| - 1]) && Enabled(n, q, es[|es| - 1]) && p == Next(n, q, es[|es| - 1])
  {
    q := Run(n, es[..|es| - 1]).value;
  }

  // ---------- The promises ----------

  /** In every interleaving each selected image is attempted at most once, and nothing
      outside the selection is attempted. */
  lemma AttemptedAtMostOnce(n: nat, p: Pool, es: seq<Event>, i: nat)
    requires Reachable(n, p, es)
    ensures multiset(p.attempted)[i] <= if i < n then 1 else 0
  {
    ReachableConserves(n, p, es, i);
  }

  /** No attempted image is newer than the cutoff, undated or protected. */
  lemma OnlyPrunableAttempted(images: seq<Image>, cutoff: Time, p: Pool, es: seq<Event>, k: nat)
    requires Reachable(|Selection(images, cutoff)|, p, es) && k < |p.attempted|
    ensures p.attempted[k] < |Selection(images, cutoff)|
    ensures var img := Selection(images, cutoff)[p.attempted[k]];
            && img in images && img.created != None && img.created.value <= cutoff
            && "latest" !in img.tags && "staging" !in img.tags && "prod" !in img.tags
  {
    var i := p.attempted[k];
    AttemptedAtMostOnce(|Selection(images, cutoff)|, p, es, i);
    assert i in p.attempted && multiset(p.attempted)[i] > 0;
    SelectionIsPrunable(images, cutoff, Selection(images, cutoff)[i]);
    PrunableIff(Selection(images, cutoff)[i], cutoff);
  }

  /** The pool is cancelled by Ctrl+C and by nothing else. */
  lemma {:induction false} CancelledIff(n: nat, p: Pool, es: seq<Event>)
    requires Reachable(n, p, es)
    ensures p.cancelled <==> Cancel in es
    decreases |es|
  {
    if es != [] {
      var q := Previous(n, p, es);
      CancelledIff(n, q, es[..|es| - 1]);
      assert es == es[..|es| - 1] + [es[|es| - 1]];
    }
  }

  lemma {:induction false} CancelledStep(n: nat, p: Pool, e: Event)
    requires p.cancelled && Enabled(n, p, e)
    ensures Next(n, p, e).cancelled && Next(n, p, e).attempted == p.attempted
  {
  }

  /** After Ctrl+C no deletion begins: what has been attempted stays as it is. */
  lemma {:induction false} NothingBeginsAfterCancel(n: nat, p: Pool, es: seq<Event>, later: seq<Event>, q: Pool)
    requires Reachable(n, p, es) && p.cancelled && Reachable(n, q, es + later)
    ensures q.cancelled && q.attempted == p.attempted
    decreases |later|
  {
    if later == [] {
      assert es + later == es;
    } else {
      var front := later[..|later| - 1];
      assert (es + later)[..|es + later| - 1] == es + front;
      var mid := Previous(n, q, es + later);
      NothingBeginsAfterCancel(n, p, es, front, mid);
      CancelledStep(n, mid, (es + later)[|es + later| - 1]);
    }
  }

  /** A worker that finds the pool cancelled returns with the one item it took; the rest of the
      queue is left where it is. */
  lemma {:induction false} EachWorkerDropsOne(n: nat, p: Pool, es: seq<Event>)
    requires Reachable(n, p, es)
    ensures |p.dropped| <= Sum(p.workers, Returned()) <= 8
    decreases |es|
  {
    if es == [] {
      SumIsZero(p.workers, Returned());
    } else {
      var q := Previous(n, p, es);
      var e := es[|es| - 1];
      EachWorkerDropsOne(n, q, es[..|es| - 1]);
      SumAfterStep(n, q, e, Returned());
    }
    ReachableInv(n, p, es);
    ReturnedIsSmall(p.workers);
  }

  function Returned(): Worker -> nat {
    (w: Worker) => if w.Stopped? then 1 else 0
  }

  lemma {:induction false} ReturnedIsSmall(ws: seq<Worker>)
    ensures Sum(ws, Returned()) <= |ws|
  {
    if ws != [] { ReturnedIsSmall(ws[..|ws| - 1]); }
  }

  /** Never more than eight deletions run at once. */
  lemma {:induction false} AtMostEightAtOnce(n: nat, p: Pool, es: seq<Event>)
    requires Reachable(n, p, es)
    ensures |p.workers| == (if n < 8 then n else 8) && Sum(p.workers, TryingAny()) <= 8
  {
    ReachableInv(n, p, es);
    SumIsSmall(p.workers);
  }

  lemma {:induction false} SumIsSmall(ws: seq<Worker>)
    ensures Sum(ws, TryingAny()) <= |ws|
  {
    if ws != [] { SumIsSmall(ws[..|ws| - 1]); }
  }

  /** A worker with a result to send always finds room in the channel. */
  lemma SendsNeverBlock(n: nat, p: Pool, es: seq<Event>, w: nat)
    requires Reachable(n, p, es) && w < |p.workers| && p.workers[w].Sending?
    ensures Enabled(n, p, SendResult(w))
  {
    ReachableInv(n, p, es);
    SumIncludes(p.workers, w, ReportingAny());
  }

  /** The final report adds up: the images reported deleted are the deletions that succeeded,
      those reported failed the ones that did not, and what was neither is exactly what was
      left in the queue or dropped by cancelled workers; without cancellation, nothing. */
  lemma FinalAccounting(n: nat, p: Pool, es: seq<Event>)
    requires Reachable(n, p, es) && Finished(p)
    ensures p.deleted == Successes(p.deletions) && p.failed == |p.attempted| - Successes(p.deletions)
    ensures n - p.deleted - p.failed == |p.queue| + |p.dropped|
    ensures !p.cancelled ==> n == p.deleted + p.failed
  {
    ReachableInv(n, p, es);
    SumIsZero(p.workers, HoldingAny());
    SumIsZero(p.workers, TryingAny());
    SumIsZero(p.workers, ReportingAny());
    SumIsZero(p.workers, ReportingSuccess());
    if !p.cancelled && n > 0 {
      assert p.workers[0].Stopped?;
    }
  }

  /** At the end every image is in exactly one of four places: reported deleted, reported
      failed, still queued, or dropped; and it is reported as its deletion ended. */
  lemma FinalPlace(n: nat, p: Pool, es: seq<Event>, i: nat)
    requires Reachable(n, p, es) && Finished(p) && i < n
    ensures var seen := multiset(p.collected);
            && seen[Result(i, true)] + seen[Result(i, false)] + multiset(p.queue)[i] + multiset(p.dropped)[i] == 1
            && seen[Result(i, true)] == multiset(p.deletions)[Result(i, true)]
            && seen[Result(i, false)] == multiset(p.deletions)[Result(i, false)]
  {
    ReachableInv(n, p, es);
    ReachableConserves(n, p, es, i);
    SumIsZero(p.workers, Holding(i));
    SumIsZero(p.workers, Trying(i));
    forall ok: bool
      ensures multiset(p.collected)[Result(i, ok)] == multiset(p.deletions)[Result(i, ok)]
    {
      ReachableReports(n, p, es, Result(i, ok));
      SumIsZero(p.workers, Reporting(Result(i, ok)));
    }
  }

  // ---------- The pool always finishes ----------

  /** Until the collector is done, some step other than Ctrl+C can be taken. */
  lemma NoDeadlock(n: nat, p: Pool, es: seq<Event>) returns (e: Event)
    requires Reachable(n, p, es) && !Finished(p)
    ensures e != Cancel && Enabled(n, p, e)
  {
    ReachableInv(n, p, es);
    if p.results != [] {
      return Collect;
    }
    if forall w | 0 <= w < |p.workers| :: p.workers[w].Stopped? {
      return CloseResults;
    }
    var w :| 0 <= w < |p.workers| && !p.workers[w].Stopped?;
    match p.workers[w] {
      case Waiting => e := if p.queue != [] then Take(w) else Stop(w);
      case Took(_) => e := CheckContext(w);
      case Deleting(_) => e := DeleteDone(w, true);
      case Sending(_, _) =>
        SendsNeverBlock(n, p, es, w);
        e := SendResult(w);
    }
  }

  function WorkLeft(): Worker -> nat {
    (w: Worker) =>
      match w case Waiting => 1 case Took(_) => 5 case Deleting(_) => 4 case Sending(_, _) => 3 case Stopped => 0
  }

  /** Steps left at most, whatever the scheduling. */
  function Measure(p: Pool): nat {
    5 * |p.queue| + Sum(p.workers, WorkLeft()) + |p.results| +
    (if p.cancelled then 0 else 1) + (if p.closed then 0 else 1)
  }

  lemma EveryStepShrinks(n: nat, p: Pool, e: Event)
    requires Enabled(n, p, e)
    ensures Measure(Next(n, p, e)) < Measure(p)
  {
    var q := Next(n, p, e);
    if ByWorker(e) {
      ChangeWorker(p.workers, e.w, q.workers[e.w], WorkLeft());
    }
  }

  /** So no run is longer than the initial measure: five steps per image and ten more. */
  lemma {:induction false} RunsAreBounded(n: nat, p: Pool, es: seq<Event>)
    requires Reachable(n, p, es)
    ensures |es| + Measure(p) <= Measure(Start(n)) <= 5 * n + 10
    decreases |es|
  {
    if es == [] {
      WaitingWork(Start(n).workers);
    } else {
      var q := Previous(n, p, es);
      RunsAreBounded(n, q, es[..|es| - 1]);
      EveryStepShrinks(n, q, es[|es| - 1]);
    }
  }

  lemma {:induction false} WaitingWork(ws: seq<Worker>)
    requires forall w | 0 <= w < |ws| :: ws[w].Waiting?
    ensures Sum(ws, WorkLeft()) == |ws|
  {
    if ws != [] { WaitingWork(ws[..|ws| - 1]); }
  }
}
