/** Shutdown of the thread pool: workers, submitters and stopAll as interleaved atomic steps over the queue. */
module ThreadPool {
  /** What travels through the queue: a task, or the NULL that stops a worker. */
  datatype Item = Task(id: nat) | Null
  datatype Worker = Waiting | Running(id: nat) | Stopped

  /** `count` is what the queue's own counter says. `log` is everything ever put, `taken` how much of it has been taken,
      `finished` the tasks run to the end. */
  datatype Pool = Pool(max: nat, count: int, queue: seq<Item>, workers: seq<Worker>, log: seq<Item>, taken: nat, finished: multiset<nat>)

  function Start(max: nat, n: nat): Pool {
    Pool(max, 0, [], seq(n, _ => Waiting), [], 0, multiset{})
  }

  datatype Step =
    | Put(item: Item)        // start() puts a task, stopAll() a NULL
    | Take(w: nat)           // run() takes the front item
    | Finish(w: nat)         // the task's run() returned or threw

  ghost predicate Enabled(p: Pool, s: Step) {
    match s
    case Put(_) => p.count < p.max
    case Take(w) => w < |p.workers| && p.workers[w].Waiting? && p.queue != []
    case Finish(w) => w < |p.workers| && p.workers[w].Running?
  }

  ghost function Next(p: Pool, s: Step): Pool
    requires Enabled(p, s)
  {
    match s
    case Put(item) => p.(queue := p.queue + [item], count := p.count + 1, log := p.log + [item])
    case Take(w) =>
      p.(queue := p.queue[1..], count := p.count - 1, taken := p.taken + 1,
         workers := p.workers[w := if p.queue[0].Null? then Stopped else Running(p.queue[0].id)])
    case Finish(w) => p.(workers := p.workers[w := Waiting], finished := p.finished + multiset{p.workers[w].id})
  }

  /** An interleaving of `n` workers, submitters and stopAll. */
  ghost predicate Run(max: nat, n: nat, pools: seq<Pool>, steps: seq<Step>) {
    && |pools| == |steps| + 1
    && pools[0] == Start(max, n)
    && forall i :: 0 <= i < |steps| ==> Enabled(pools[i], steps[i]) && pools[i + 1] == Next(pools[i], steps[i])
  }

  // ---------------------------------------------------------------- counting

  ghost function Nulls(s: seq<Item>): nat {
    if s == [] then 0 else Nulls(s[..|s| - 1]) + if s[|s| - 1].Null? then 1 else 0
  }

  /** How often task `id` occurs. */
  ghost function Tasks(s: seq<Item>, id: nat): nat {
    if s == [] then 0 else Tasks(s[..|s| - 1], id) + if s[|s| - 1] == Task(id) then 1 else 0
  }

  ghost function CountStopped(w: seq<Worker>): nat {
    if w == [] then 0 else CountStopped(w[1..]) + if w[0].Stopped? then 1 else 0
  }

  /** How many workers are running task `id`. */
  ghost function InProgress(w: seq<Worker>, id: nat): nat {
    if w == [] then 0 else InProgress(w[1..], id) + if w[0] == Running(id) then 1 else 0
  }

  lemma {:induction false} UpdateStopped(w: seq<Worker>, i: nat, x: Worker)
    requires i < |w|
    ensures CountStopped(w[i := x]) + (if w[i].Stopped? then 1 else 0) == CountStopped(w) + if x.Stopped? then 1 else 0
  {
    var w' := w[i := x];
    if i > 0 {
      UpdateStopped(w[1..], i - 1, x);
      assert w'[1..] == w[1..][i - 1 := x];
    } else {
      assert w'[1..] == w[1..];
    }
  }

  lemma {:induction false} UpdateInProgress(w: seq<Worker>, i: nat, x: Worker, id: nat)
    requires i < |w|
    ensures InProgress(w[i := x], id) + (if w[i] == Running(id) then 1 else 0)
         == InProgress(w, id) + if x == Running(id) then 1 else 0
  {
    var w' := w[i := x];
    if i > 0 {
      UpdateInProgress(w[1..], i - 1, x, id);
      assert w'[1..] == w[1..][i - 1 := x];
    } else {
      assert w'[1..] == w[1..];
    }
  }

  lemma {:induction false} AllStopped(w: seq<Worker>)
    ensures CountStopped(w) <= |w|
    ensures CountStopped(w) == |w| <==> forall i :: 0 <= i < |w| ==> w[i].Stopped?
    ensures CountStopped(w) == |w| ==> forall id :: InProgress(w, id) == 0
  {
    if w != [] {
      AllStopped(w[1..]);
      assert w == [w[0]] + w[1..];
    }
  }

  lemma {:induction false} AllWaiting(n: nat, id: nat)
    ensures CountStopped(seq(n, _ => Waiting)) == 0 && InProgress(seq(n, _ => Waiting), id) == 0
  {
    if n > 0 {
      AllWaiting(n - 1, id);
      assert seq(n, _ => Waiting)[1..] == seq(n - 1, _ => Waiting);
    }
  }

  lemma Extended(s: seq<Item>, k: nat)
    requires k < |s|
    ensures Nulls(s[..k + 1]) == Nulls(s[..k]) + if s[k].Null? then 1 else 0
    ensures forall id :: Tasks(s[..k + 1], id) == Tasks(s[..k], id) + if s[k] == Task(id) then 1 else 0
  {
    assert s[..k + 1][..k] == s[..k];
  }

  // ---------------------------------------------------------------- the invariant

  /** The queue is what has been put and not taken, within its bound, and its counter is its length. */
  ghost predicate QueueInv(p: Pool) {
    p.taken <= |p.log| && p.queue == p.log[p.taken..] && p.count == |p.queue| <= p.max
  }

  /** Each NULL taken stopped one worker; each task taken is in progress or finished, as often as it was taken. */
  ghost predicate WorkInv(p: Pool)
    requires p.taken <= |p.log|
  {
    && CountStopped(p.workers) == Nulls(p.log[..p.taken])
    && forall id :: InProgress(p.workers, id) + p.finished[id] == Tasks(p.log[..p.taken], id)
  }

  ghost predicate Inv(p: Pool) { QueueInv(p) && WorkInv(p) }

  lemma StartInv(max: nat, n: nat)
    ensures Inv(Start(max, n))
  {
    var p := Start(max, n);
    AllWaiting(n, 0);
    forall id ensures InProgress(p.workers, id) + p.finished[id] == Tasks(p.log[..p.taken], id) {
      AllWaiting(n, id);
    }
  }

  lemma NextInv(p: Pool, s: Step)
    requires Inv(p) && Enabled(p, s)
    ensures Inv(Next(p, s))
  {
    hide CountStopped, InProgress, Nulls, Tasks;
    match s {
      case Put(item) => assert (p.log + [item])[..p.taken] == p.log[..p.taken];
      case Take(w) => TakeInv(p, w);
      case Finish(w) => FinishInv(p, w);
    }
  }

  lemma TakeInv(p: Pool, w: nat)
    requires Inv(p) && Enabled(p, Take(w))
    ensures Inv(Next(p, Take(w)))
  {
    hide CountStopped, InProgress, Nulls, Tasks;
    var q := Next(p, Take(w));
    assert p.queue[0] == p.log[p.taken];
    Extended(p.log, p.taken);
    UpdateStopped(p.workers, w, q.workers[w]);
    forall id ensures InProgress(q.workers, id) + q.finished[id] == Tasks(q.log[..q.taken], id) {
      UpdateInProgress(p.workers, w, q.workers[w], id);
    }
  }

  lemma FinishInv(p: Pool, w: nat)
    requires Inv(p) && Enabled(p, Finish(w))
    ensures Inv(Next(p, Finish(w)))
  {
    hide CountStopped, InProgress, Nulls, Tasks;
    var q := Next(p, Finish(w));
    UpdateStopped(p.workers, w, Waiting);
    forall id ensures InProgress(q.workers, id) + q.finished[id] == Tasks(q.log[..q.taken], id) {
      UpdateInProgress(p.workers, w, Waiting, id);
    }
  }

  lemma {:induction false} RunInv(max: nat, n: nat, pools: seq<Pool>, steps: seq<Step>, i: nat)
    requires Run(max, n, pools, steps) && i < |pools|
    ensures Inv(pools[i]) && |pools[i].workers| == n && pools[i].max == max
  {
    hide Inv;
    if i == 0 {
      StartInv(max, n);
    } else {
      RunInv(max, n, pools, steps, i - 1);
      NextInv(pools[i - 1], steps[i - 1]);
    }
  }

  /** A stopped worker takes nothing more, so no worker takes two NULLs. */
  lemma {:induction false} StoppedForever(max: nat, n: nat, pools: seq<Pool>, steps: seq<Step>, i: nat, j: nat, w: nat)
    requires Run(max, n, pools, steps) && i <= j < |steps|
    requires w < |pools[i].workers| && pools[i].workers[w].Stopped?
    ensures w < |pools[j].workers| && pools[j].workers[w].Stopped? && steps[j] != Take(w)
    decreases j - i
  {
    if i < j {
      assert pools[i + 1] == Next(pools[i], steps[i]);
      StoppedForever(max, n, pools, steps, i + 1, j, w);
    }
  }

  // ---------------------------------------------------------------- shutdown

  ghost predicate Down(p: Pool) { forall w :: 0 <= w < |p.workers| ==> p.workers[w].Stopped? }

  /** Stopping needs as many NULLs as there are workers: with fewer, some worker has not stopped. */
  lemma NeedsAsManyNulls(max: nat, n: nat, pools: seq<Pool>, steps: seq<Step>, i: nat)
    requires Run(max, n, pools, steps) && i < |pools| && Nulls(pools[i].log) < n
    ensures !Down(pools[i])
  {
    RunInv(max, n, pools, steps, i);
    NullsPrefix(pools[i].log, pools[i].taken);
    AllStopped(pools[i].workers);
  }

  lemma {:induction false} NullsPrefix(s: seq<Item>, k: nat)
    requires k <= |s|
    ensures Nulls(s[..k]) <= Nulls(s)
    ensures Nulls(s) - Nulls(s[..k]) <= |s| - k
  {
    if k < |s| {
      NullsPrefix(s[..|s| - 1], k);
      assert s[..|s| - 1][..k] == s[..k];
    } else {
      assert s[..k] == s;
    }
  }

  /** Once all workers have stopped: `n` NULLs have been taken, every task put in front of them has been run, exactly
      as often as it was put, and what is left in the queue was put behind them. */
  lemma DownExact(max: nat, n: nat, pools: seq<Pool>, steps: seq<Step>, i: nat)
    requires Run(max, n, pools, steps) && i < |pools| && Down(pools[i])
    ensures var p := pools[i];
      && p.taken <= |p.log| && p.queue == p.log[p.taken..]
      && Nulls(p.log[..p.taken]) == n && (p.taken > 0 ==> p.log[p.taken - 1].Null?)
      && forall id :: p.finished[id] == Tasks(p.log[..p.taken], id)
  {
    hide CountStopped, InProgress, Nulls, Tasks;
    RunInv(max, n, pools, steps, i);
    AllStopped(pools[i].workers);
    LastTaken(max, n, pools, steps, i);
  }

  /** No worker is left to take anything behind the NULL that stopped the last one. */
  lemma {:induction false} LastTaken(max: nat, n: nat, pools: seq<Pool>, steps: seq<Step>, i: nat)
    requires Run(max, n, pools, steps) && i < |pools| && Down(pools[i])
    ensures pools[i].taken <= |pools[i].log|
    ensures pools[i].taken > 0 ==> pools[i].log[pools[i].taken - 1].Null?
  {
    hide Inv;
    RunInv(max, n, pools, steps, i);
    assert QueueInv(pools[i]) by { InvQueue(pools[i]); }
    if i > 0 {
      var p, q := pools[i - 1], pools[i];
      assert q == Next(p, steps[i - 1]);
      RunInv(max, n, pools, steps, i - 1);
      InvQueue(p);
      match steps[i - 1] {
        case Put(_) => LastTaken(max, n, pools, steps, i - 1);
        case Take(w) => assert q.workers[w].Stopped? && p.queue[0] == p.log[p.taken];
        case Finish(w) => FinishNotDown(p, w);
      }
    }
  }

  lemma FinishNotDown(p: Pool, w: nat)
    requires Enabled(p, Finish(w))
    ensures !Down(Next(p, Finish(w)))
  {
    assert Next(p, Finish(w)).workers[w].Waiting?;
  }

  lemma InvQueue(p: Pool)
    requires Inv(p)
    ensures QueueInv(p)
  {
  }

  /** stopAll after the last task, with one NULL per worker: every task has been run, each as often as it was put,
      and nothing is left. */
  lemma CleanShutdown(max: nat, n: nat, pools: seq<Pool>, steps: seq<Step>, i: nat)
    requires Run(max, n, pools, steps) && i < |pools| && Down(pools[i])
    requires var log := pools[i].log;
      0 < n <= |log| && forall k :: 0 <= k < |log| ==> (log[k].Null? <==> |log| - n <= k)
    ensures pools[i].queue == []
    ensures forall id :: pools[i].finished[id] == Tasks(pools[i].log, id)
  {
    hide Tasks, Run, Nulls;
    var p := pools[i];
    DownExact(max, n, pools, steps, i);
    var tasks := |p.log| - n;
    if p.taken <= tasks {
      NoNulls(p.log, p.taken);
    } else {
      NoNulls(p.log, tasks);
      NullsPrefix(p.log[..p.taken], tasks);
      assert p.log[..p.taken][..tasks] == p.log[..tasks];
    }
    assert p.log[..|p.log|] == p.log;
  }

  lemma {:induction false} NoNulls(s: seq<Item>, k: nat)
    requires k <= |s| && forall i :: 0 <= i < k ==> !s[i].Null?
    ensures Nulls(s[..k]) == 0
  {
    if k > 0 {
      NoNulls(s, k - 1);
      assert s[..k][..k - 1] == s[..k - 1];
    }
  }

  /** In general, at rest the queue is empty exactly when nothing was put behind the n-th NULL. */
  lemma EmptyIff(max: nat, n: nat, pools: seq<Pool>, steps: seq<Step>, i: nat)
    requires Run(max, n, pools, steps) && i < |pools| && Down(pools[i]) && 0 < n
    ensures pools[i].queue == [] <==>
      var log := pools[i].log; log != [] && Nulls(log[..|log| - 1]) < n
  {
    hide Run;
    var p := pools[i];
    DownExact(max, n, pools, steps, i);
    if p.taken < |p.log| {
      NullsPrefix(p.log[..|p.log| - 1], p.taken);
      assert p.log[..|p.log| - 1][..p.taken] == p.log[..p.taken];
    } else {
      assert p.log[..p.taken] == p.log;
    }
  }
}
