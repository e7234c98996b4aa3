/** The bookkeeping of the server's accept loop: the pool of worker channels,
    the round-robin cursor over it, the request counter and the 60-second
    scaling window. Sockets, threads and channels are not modelled: a worker is
    an opaque handle, and whether a send to its channel succeeds is an input. */
module Dispatcher {
  import opened Wrappers

  /** The sending end of one worker's channel, told apart by the order in which
      the workers were started. */
  datatype Worker = Worker(id: nat)

  /** Workers started before the first connection is accepted. */
  const InitialWorkers: nat := 10
  /** Length of a scaling window, in whole seconds. */
  const WindowSeconds: nat := 60
  /** A window with more than this many requests per worker adds a worker:
      5.0 requests per second over 60 seconds. */
  const GrowAbove: nat := 300
  /** A window with fewer than this many requests per worker removes one:
      0.2 requests per second over 60 seconds. */
  const ShrinkBelow: nat := 12

  /** `Vec::remove`: the sequence without its element at `i`, the others in
      their order. */
  function RemoveAt<T>(s: seq<T>, i: nat): (r: seq<T>)
    requires i < |s|
    ensures |r| == |s| - 1
    ensures forall k :: 0 <= k < i ==> r[k] == s[k]
    ensures forall k :: i <= k < |r| ==> r[k] == s[k + 1]
  {
    s[..i] + s[i + 1..]
  }

  /** The cursor after one connection: one step on, back to 0 at the end of
      the pool. */
  function Advance(cursor: nat, len: nat): (c: nat)
    ensures len > 0 ==> c < len
    ensures cursor < len ==> c == (cursor + 1) % len
    ensures len == 0 ==> c == 0
  {
    if cursor + 1 >= len then 0 else cursor + 1
  }

  /** Whether a window that started at `startMs` is over at `nowMs`: the
      elapsed time, truncated to whole seconds, exceeds the window. A clock
      reading before the start counts as no time elapsed. */
  function WindowOver(startMs: nat, nowMs: nat): (over: bool)
    ensures over <==> nowMs >= startMs + (WindowSeconds + 1) * 1000
  {
    var elapsedMs := if nowMs >= startMs then nowMs - startMs else 0;
    elapsedMs / 1000 > WindowSeconds
  }

  datatype Scaling = Grow | Shrink | Keep

  /** The scaling rule on whole numbers: `counter` requests over a window
      served by `n` workers. */
  function ScaleDecision(counter: nat, n: nat): Scaling {
    if counter > GrowAbove * n then Grow
    else if counter < ShrinkBelow * n then Shrink
    else Keep
  }

  /** The decision agrees with the rule on exact ratios: grow when
      `counter / 60 / n > 5.0`, shrink when it is below `0.2`. */
  lemma ScaleDecisionRatio(counter: nat, n: nat)
    requires n > 0
    ensures var ratio := (counter as real) / (WindowSeconds as real) / (n as real);
      && (ScaleDecision(counter, n) == Grow <==> ratio > 5.0)
      && (ScaleDecision(counter, n) == Shrink <==> ratio < 0.2)
      && (ScaleDecision(counter, n) == Keep <==> 0.2 <= ratio <= 5.0)
  {
    var ratio := (counter as real) / (WindowSeconds as real) / (n as real);
    assert ratio * (n as real) * 60.0 == counter as real;
    assert (counter > 300 * n) == (counter as real > 300.0 * (n as real));
    assert (counter < 12 * n) == (counter as real < 12.0 * (n as real));
    RatioCompare(ratio, n as real, counter as real, 5.0);
    RatioCompare(ratio, n as real, counter as real, 0.2);
  }

  lemma RatioCompare(ratio: real, n: real, c: real, bound: real)
    requires n > 0.0 && ratio * n * 60.0 == c
    ensures ratio > bound <==> c > bound * 60.0 * n
    ensures ratio < bound <==> c < bound * 60.0 * n
  {
    assert c - bound * 60.0 * n == (ratio - bound) * (n * 60.0);
  }

  /** The cursor after `k` connections without scaling, from `start`. */
  function Cursor(start: nat, len: nat, k: nat): nat {
    if k == 0 then start else Advance(Cursor(start, len, k - 1), len)
  }

  /** Round robin is cyclic: the `k`-th connection goes to position
      `(start + k) mod len`. */
  lemma {:induction false} CursorCyclic(start: nat, len: nat, k: nat)
    requires start < len
    ensures Cursor(start, len, k) == (start + k) % len
  {
    if k > 0 {
      CursorCyclic(start, len, k - 1);
      var p := (start + k - 1) % len;
      assert (p + 1) % len == (start + k) % len by {
        ModSucc(start + k - 1, len);
      }
    }
  }

  lemma ModSucc(a: nat, len: nat)
    requires len > 0
    ensures (a % len + 1) % len == (a + 1) % len
  {
    var q, r := a / len, a % len;
    DivUnique(a, len, a / len, a % len);
    if r + 1 == len {
      DivUnique(a + 1, len, q + 1, 0);
      DivUnique(r + 1, len, 1, 0);
    } else {
      DivUnique(a + 1, len, q, r + 1);
      DivUnique(r + 1, len, 0, r + 1);
    }
  }

  /** How many of the first `m` connections go to position `i`. */
  function Hits(start: nat, len: nat, m: nat, i: nat): nat {
    if m == 0 then 0
    else Hits(start, len, m - 1, i) + (if Cursor(start, len, m - 1) == i then 1 else 0)
  }

  /** The exact count: every full round gives each position one connection,
      and the positions the first `m mod len` steps of a last partial round
      reach get one more. */
  lemma {:induction false} HitsCount(start: nat, len: nat, m: nat, i: nat)
    requires start < len && i < len
    ensures Hits(start, len, m, i) == m / len + (if (i + len - start) % len < m % len then 1 else 0)
  {
    if m > 0 {
      var d := (i + len - start) % len;
      HitsCount(start, len, m - 1, i);
      CursorCyclic(start, len, m - 1);
      HitStep(start, len, m - 1, i);
      DivStep(m - 1, len, d);
    }
  }

  lemma HitStep(start: nat, len: nat, k: nat, i: nat)
    requires start < len && i < len
    ensures ((start + k) % len == i) <==> (k % len == (i + len - start) % len)
  {
    var r, b := k / len, k % len;
    DivUnique(k, len, r, b);
    if b + start < len {
      DivUnique(start + k, len, r, b + start);
    } else {
      DivUnique(start + k, len, r + 1, b + start - len);
    }
    if i >= start {
      DivUnique(i + len - start, len, 1, i - start);
    } else {
      DivUnique(i + len - start, len, 0, i + len - start);
    }
  }

  /** A multiple of a positive `len` by a non-zero factor is at least `len` away
      from zero. */
  lemma MulMonotone(t: int, len: nat)
    ensures t >= 1 ==> t * len >= len
    ensures t <= -1 ==> t * len + len <= 0
  {
  }

  lemma DivStep(k: nat, len: nat, d: nat)
    requires len > 0 && d < len
    ensures (k + 1) / len + (if d < (k + 1) % len then 1 else 0)
         == k / len + (if d < k % len then 1 else 0) + (if k % len == d then 1 else 0)
  {
    var q, r := k / len, k % len;
    assert k == q * len + r;
    if r + 1 < len {
      DivUnique(k + 1, len, q, r + 1);
    } else {
      assert k + 1 == (q + 1) * len + 0;
      DivUnique(k + 1, len, q + 1, 0);
    }
  }

  /** Quotient and remainder are the only ones: `q * len + r` with
      `0 <= r < len` divides into `q` with remainder `r`. */
  lemma DivUnique(a: nat, len: nat, q: nat, r: nat)
    requires len > 0 && r < len && a == q * len + r
    ensures a / len == q && a % len == r
  {
    var q', r' := a / len, a % len;
    assert a == q' * len + r';
    assert (q - q') * len == r' - r;
    MulMonotone(q - q', len);
  }

  /** Round-robin fairness: over `m` connections with no scaling event, each
      position receives the floor or the ceiling of `m / len` of them, and
      exactly `m / len` when `len` divides `m`. */
  lemma RoundRobinFair(start: nat, len: nat, m: nat, i: nat)
    requires start < len && i < len
    ensures m / len <= Hits(start, len, m, i) <= m / len + 1
    ensures m % len == 0 ==> Hits(start, len, m, i) == m / len
  {
    HitsCount(start, len, m, i);
  }

  /** The dispatcher state the accept loop of `main` keeps. */
  class Pool {
    var workers: seq<Worker>
    var cursor: nat        // `worker_id`
    var counter: nat       // `request_counter`
    var startTime: nat     // `start_time`, in milliseconds
    var spawned: nat       // workers started so far
    var running: bool      // false once the accept loop has panicked

    /** Every worker in the pool was started once, in pool order. */
    ghost predicate Valid()
      reads this
    {
      && (forall k :: 0 <= k < |workers| ==> workers[k].id < spawned)
      && (forall k, l :: 0 <= k < l < |workers| ==> workers[k].id < workers[l].id)
    }

    /** Between connections the cursor is inside a non-empty pool. */
    predicate CursorInPool()
      reads this
    {
      |workers| > 0 ==> cursor < |workers|
    }

    /** Startup: ten workers, the cursor and the counter at 0, the window
        starting now. */
    constructor(nowMs: nat)
      ensures Valid() && CursorInPool() && running
      ensures |workers| == InitialWorkers
      ensures forall k :: 0 <= k < |workers| ==> workers[k] == Worker(k)
      ensures cursor == 0 && counter == 0 && startTime == nowMs && spawned == InitialWorkers
    {
      workers := [];
      cursor := 0;
      counter := 0;
      startTime := nowMs;
      spawned := 0;
      running := true;
      new;
      var i := 0;
      while i < InitialWorkers
        invariant 0 <= i <= InitialWorkers
        invariant Valid()
        invariant |workers| == i && spawned == i
        invariant forall k :: 0 <= k < i ==> workers[k] == Worker(k)
        invariant cursor == 0 && counter == 0 && startTime == nowMs && running
      {
        AddAndStartWorker();
        i := i + 1;
      }
    }

    /** `add_and_start_worker`, its pool part: a freshly started worker is
        appended at the end; the others are untouched. */
    method AddAndStartWorker()
      requires Valid()
      modifies this
      ensures Valid()
      ensures workers == old(workers) + [Worker(old(spawned))]
      ensures spawned == old(spawned) + 1
      ensures cursor == old(cursor) && counter == old(counter)
      ensures startTime == old(startTime) && running == old(running)
    {
      workers := workers + [Worker(spawned)];
      spawned := spawned + 1;
    }

    /** `remove_worker_try_stop`: the worker at `idx` leaves the pool, the
        others keep their order, and the stop message is sent to it; the
        `unwrap` on that send panics when it is not delivered. */
    method RemoveWorkerTryStop(idx: nat, stopDelivered: bool)
      requires Valid() && idx < |workers|
      modifies this
      ensures Valid()
      ensures workers == RemoveAt(old(workers), idx)
      ensures running == (old(running) && stopDelivered)
      ensures cursor == old(cursor) && counter == old(counter)
      ensures startTime == old(startTime) && spawned == old(spawned)
    {
      workers := RemoveAt(workers, idx);
      if !stopDelivered {
        running := false;
      }
    }

    /** One connection of the accept loop. The connection goes to the worker
        under the cursor (indexing an empty pool panics); a failed send
        removes that worker, and the stop message then sent to the same closed
        channel panics. Otherwise a window older than 60 whole seconds is
        evaluated (add a worker, or remove the last one, then restart the
        window and the counter), the cursor moves on, and the counter counts
        the connection. */
    method Accept(sendOk: bool, stopDelivered: bool, nowMs: nat) returns (target: Option<Worker>)
      requires Valid() && CursorInPool() && running
      modifies this
      ensures Valid() && (running ==> CursorInPool())
      ensures old(workers) == [] ==>
        target == None && !running && workers == old(workers) && cursor == old(cursor) && counter == old(counter)
      ensures old(workers) != [] && !sendOk ==>
        target == None && !running && workers == RemoveAt(old(workers), old(cursor))
      ensures old(workers) != [] && sendOk ==> target == Some(old(workers)[old(cursor)])
      ensures old(workers) != [] && sendOk && !WindowOver(old(startTime), nowMs) ==>
        && running && workers == old(workers) && spawned == old(spawned)
        && cursor == Advance(old(cursor), |workers|) && counter == old(counter) + 1 && startTime == old(startTime)
      ensures old(workers) != [] && sendOk && WindowOver(old(startTime), nowMs) ==>
        match ScaleDecision(old(counter), |old(workers)|)
        case Grow =>
          && running && workers == old(workers) + [Worker(old(spawned))] && spawned == old(spawned) + 1
          && cursor == Advance(old(cursor), |workers|) && counter == 1 && startTime == nowMs
        case Shrink =>
          && workers == old(workers)[..|old(workers)| - 1] && running == stopDelivered && spawned == old(spawned)
          && (running ==> cursor == Advance(old(cursor), |workers|) && counter == 1 && startTime == nowMs)
        case Keep =>
          && running && workers == old(workers) && spawned == old(spawned)
          && cursor == Advance(old(cursor), |workers|) && counter == 1 && startTime == nowMs
    {
      if |workers| == 0 {
        running := false;
        return None;
      }
      var worker := workers[cursor];
      if !sendOk {
        RemoveWorkerTryStop(cursor, false);
        return None;
      }
      target := Some(worker);
      if WindowOver(startTime, nowMs) {
        var n := |workers|;
        match ScaleDecision(counter, n) {
          case Grow => AddAndStartWorker();
          case Shrink =>
            assert workers[..n - 1] == RemoveAt(workers, n - 1);
            RemoveWorkerTryStop(n - 1, stopDelivered);
            if !running {
              return;
            }
          case Keep =>
        }
        startTime := nowMs;
        counter := 0;
      }
      cursor := Advance(cursor, |workers|);
      counter := counter + 1;
    }
  }
}
