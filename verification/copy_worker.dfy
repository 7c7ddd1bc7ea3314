/**
 * `CopyWorker.run` (main.py:38-61): copy an ordered list of relative paths from a source root to
 * a destination root, skipping the ones the source lacks and stopping at the first failure.
 * The worker's signals become the list of events it emits, in order.
 *
 * The loop itself (skip, stop, report progress) does not depend on what one path's copy does,
 * so `Sync` is stated for any per-path step, and `Body` is the step the worker runs.
 */
module CopyWorker {
  import opened Wrappers
  import opened Paths
  import opened Text
  import opened FileSystem

  /** `progress.emit(int(done / total * 100))`, `error.emit(...)` and `finished.emit(success)`. */
  datatype Event = Progress(done: nat, total: nat) | CopyError(relPath: string) | Finished(success: bool)

  /** What one relative path amounts to: nothing to do, a copy error, or the new destination. */
  datatype Outcome = Missing | Failed | Copied(fs: Fs)

  /** The destination a run leaves behind and the events it emitted. */
  datatype Report = Report(fs: Fs, events: seq<Event>)

  /** `base / rel.rstrip('/')` as a path below `base`. */
  function Resolve(rel: string): Path {
    ToPath(RStripSlash(rel))
  }

  /** The entries a copy of `p` may write: the source subtree at `p` and the directories above it. */
  predicate Touches(src: Fs, p: Path, q: Path) {
    (q in src && p <= q) || OnPathTo(q, p)
  }

  /** The copy of an existing source path raises. */
  predicate Conflict(src: Fs, dst: Fs, p: Path)
    requires Exists(src, p)
  {
    if IsDir(src, p) then TreeConflict(src, dst, p) else FileConflict(dst, p)
  }

  /** The copy of an existing source path: a directory merge or a single file (main.py:48-52). */
  function Copy(src: Fs, dst: Fs, p: Path): (r: Fs)
    requires Exists(src, p)
    ensures forall q | q in dst :: q in r
    ensures p in src ==> p in r && r[p] == src[p]
  {
    if IsDir(src, p) then CopyTree(src, dst, p) else CopyFile(src, dst, p)
  }

  /**
   * A copy keeps every destination entry, changes only what it touches, writes the source
   * entries it copies, and leaves a directory at every level above the copied path.
   */
  lemma CopyFrame(src: Fs, dst: Fs, p: Path)
    requires Exists(src, p)
    ensures var r := Copy(src, dst, p);
      && (forall q | q in dst :: q in r)
      && (forall q | q in dst && !Touches(src, p, q) :: r[q] == dst[q])
      && (forall q | q in r :: q in dst || Touches(src, p, q))
      && (IsDir(src, p) ==> forall q | q in src && p <= q :: q in r && r[q] == src[q])
      && (!IsDir(src, p) ==> p in r && r[p] == src[p])
      && (forall q | OnPathTo(q, p) && q != p :: q in r && r[q] == Dir)
  {
    if IsDir(src, p) {
      CopyTreeMerges(src, dst, p);
    } else {
      CopyFileOverwrites(src, dst, p);
      forall q | OnPathTo(q, Parent(p))
        ensures OnPathTo(q, p)
      {
      }
      forall q | OnPathTo(q, p) && q != p
        ensures OnPathTo(q, Parent(p))
      {
        assert |q| < |p|;
        assert q == p[..|q|];
      }
    }
  }

  /**
   * One turn of the loop body for the relative path `rel` (main.py:42-52): a source path that
   * does not exist is skipped, an injected I/O failure or a conflict fails, anything else is copied.
   */
  function CopyOne(src: Fs, dst: Fs, rel: string, fails: string -> bool): (o: Outcome)
    ensures o.Missing? <==> !Exists(src, Resolve(rel))
    ensures o.Failed? <==> Exists(src, Resolve(rel)) && (fails(rel) || Conflict(src, dst, Resolve(rel)))
    ensures o.Copied? ==> Exists(src, Resolve(rel)) && o.fs == Copy(src, dst, Resolve(rel))
  {
    var p := Resolve(rel);
    if !Exists(src, p) then Missing
    else if fails(rel) || Conflict(src, dst, p) then Failed
    else Copied(Copy(src, dst, p))
  }

  /** What handling one relative path does to a destination. */
  type Step = (Fs, string) -> Outcome

  /** The worker's step, copying from `src`, with `fails` saying which paths meet an I/O error. */
  function Body(src: Fs, fails: string -> bool): Step {
    (fs: Fs, rel: string) => CopyOne(src, fs, rel, fails)
  }

  /** The step of a copy whose source root does not exist: `exists()` is false for every path. */
  function NoSource(): Step {
    (fs: Fs, rel: string) => Missing
  }

  /**
   * A run whose source root does not exist skips every path: the destination is left as it was
   * and the run ends with `finished(True)` alone.
   */
  lemma {:induction false} SyncNoSource(dst: Fs, rest: seq<string>, done: nat, total: nat)
    ensures Sync(NoSource(), dst, rest, done, total) == Report(dst, [Finished(true)])
    decreases |rest|
  {
    if rest != [] {
      SyncNoSource(dst, rest[1..], done + 1, total);
    }
  }

  /**
   * The shape of what a run emits: progress events, then either `finished(True)` alone or one
   * error followed by `finished(False)`.
   */
  predicate Terminated(ev: seq<Event>)
    decreases |ev|
  {
    || ev == [Finished(true)]
    || (|ev| == 2 && ev[0].CopyError? && ev[1] == Finished(false))
    || (|ev| >= 2 && ev[0].Progress? && Terminated(ev[1..]))
  }

  /** The final signal is `finished(True)`. */
  function Succeeded(ev: seq<Event>): bool {
    |ev| >= 1 && ev[|ev| - 1] == Finished(true)
  }

  /** In a terminated list, success is reported exactly when no error was emitted. */
  lemma {:induction false} SucceededIffNoError(ev: seq<Event>)
    requires Terminated(ev)
    ensures ev[|ev| - 1].Finished?
    ensures Succeeded(ev) <==> forall j | 0 <= j < |ev| :: !ev[j].CopyError?
    decreases |ev|
  {
    if |ev| >= 2 && ev[0].Progress? && Terminated(ev[1..]) {
      SucceededIffNoError(ev[1..]);
      assert forall j | 1 <= j < |ev| :: ev[j] == ev[1..][j - 1];
    }
  }

  /**
   * Each progress count exceeds every count before it (and `lo`), is at most `hi`, and carries
   * the total `t`: the counts strictly increase.
   */
  predicate ProgressWithin(ev: seq<Event>, lo: nat, hi: nat, t: nat)
    decreases |ev|
  {
    ev == [] ||
    if ev[0].Progress? then
      lo < ev[0].done <= hi && ev[0].total == t && ProgressWithin(ev[1..], ev[0].done, hi, t)
    else
      ProgressWithin(ev[1..], lo, hi, t)
  }

  lemma {:induction false} ProgressWithinLower(ev: seq<Event>, lo: nat, lo': nat, hi: nat, t: nat)
    requires lo' <= lo
    requires ProgressWithin(ev, lo, hi, t)
    ensures ProgressWithin(ev, lo', hi, t)
    decreases |ev|
  {
    if ev != [] && !ev[0].Progress? {
      ProgressWithinLower(ev[1..], lo, lo', hi, t);
    }
  }

  /** No progress count in the list exceeds `hi`. */
  lemma {:induction false} ProgressAtMost(ev: seq<Event>, lo: nat, hi: nat, t: nat)
    requires ProgressWithin(ev, lo, hi, t)
    ensures forall e | e in ev && e.Progress? :: e.done <= hi
    decreases |ev|
  {
    if ev != [] {
      if ev[0].Progress? {
        ProgressAtMost(ev[1..], ev[0].done, hi, t);
      } else {
        ProgressAtMost(ev[1..], lo, hi, t);
      }
      assert forall e | e in ev :: e == ev[0] || e in ev[1..];
    }
  }

  /**
   * The loop of main.py:41-58 as a reference definition: `rest` are the paths still to handle,
   * `done` how many precede them and `total` the length of the whole list.
   */
  function Sync(step: Step, dst: Fs, rest: seq<string>, done: nat, total: nat): (r: Report)
    ensures r.events != [] && r.events[|r.events| - 1].Finished?
    decreases |rest|
  {
    if rest == [] then Report(dst, [Finished(true)])
    else match step(dst, rest[0])
      case Missing => Sync(step, dst, rest[1..], done + 1, total)
      case Failed => Report(dst, [CopyError(rest[0]), Finished(false)])
      case Copied(fs) =>
        var r := Sync(step, fs, rest[1..], done + 1, total);
        Report(r.fs, [Progress(done + 1, total)] + r.events)
  }

  /**
   * Every run ends with a single `finished`, preceded by progress events and at most one error;
   * the progress counts strictly increase and never exceed `hi`, any bound on the paths handled.
   */
  lemma {:induction false} SyncShape(step: Step, dst: Fs, rest: seq<string>, done: nat, total: nat, hi: nat)
    requires done + |rest| <= hi
    ensures Terminated(Sync(step, dst, rest, done, total).events)
    ensures ProgressWithin(Sync(step, dst, rest, done, total).events, done, hi, total)
    decreases |rest|
  {
    var r := Sync(step, dst, rest, done, total);
    if rest != [] {
      match step(dst, rest[0])
      case Missing =>
        SyncShape(step, dst, rest[1..], done + 1, total, hi);
        ProgressWithinLower(r.events, done + 1, done, hi, total);
      case Failed =>
      case Copied(fs) =>
        var t := Sync(step, fs, rest[1..], done + 1, total);
        SyncShape(step, fs, rest[1..], done + 1, total, hi);
        assert r.events[1..] == t.events;
    }
  }

  /** `events` emitted before a run whose report is `r`. */
  function After(events: seq<Event>, r: Report): Report {
    Report(r.fs, events + r.events)
  }

  lemma AfterAfter(a: seq<Event>, b: seq<Event>, r: Report)
    ensures After(a, After(b, r)) == After(a + b, r)
  {
    assert a + (b + r.events) == (a + b) + r.events;
  }

  /**
   * `CopyWorker.run`: the loop over `paths`, returning the final destination and the events.
   * It computes the reference `Sync` for the worker's step, so it emits progress events with
   * strictly increasing counts and ends with one `finished`, after at most one error.
   */
  method Run(src: Fs, dst: Fs, paths: seq<string>, fails: string -> bool) returns (out: Fs, events: seq<Event>)
    ensures Report(out, events) == Sync(Body(src, fails), dst, paths, 0, |paths|)
    ensures Terminated(events)
    ensures ProgressWithin(events, 0, |paths|, |paths|)
    ensures paths == [] ==> out == dst && events == [Finished(true)]
  {
    var step := Body(src, fails);
    var cur := dst;
    events := [];
    var i := 0;
    AfterNothing(paths, Sync(step, dst, paths, 0, |paths|));
    while i < |paths|
      invariant 0 <= i <= |paths|
      invariant Sync(step, dst, paths, 0, |paths|) == After(events, Sync(step, cur, paths[i..], i, |paths|))
    {
      var o := CopyOne(src, cur, paths[i], fails);
      SyncStep(src, fails, cur, paths, i);
      if o.Failed? {
        out := cur;
        events := events + [CopyError(paths[i]), Finished(false)];
        RunShape(src, fails, dst, paths, out, events);
        return;
      }
      if o.Copied? {
        AfterAfter(events, [Progress(i + 1, |paths|)], Sync(step, o.fs, paths[i + 1..], i + 1, |paths|));
        cur := o.fs;
        events := events + [Progress(i + 1, |paths|)];
      }
      i := i + 1;
    }
    assert paths[i..] == [];
    out := cur;
    events := events + [Finished(true)];
    RunShape(src, fails, dst, paths, out, events);
  }

  /** Before the loop nothing has been emitted and every path is still to come. */
  lemma AfterNothing(paths: seq<string>, r: Report)
    ensures paths[0..] == paths && After([], r) == r
  {
    assert [] + r.events == r.events;
  }

  /** One turn of the worker's loop, from path `i` with the destination as it stands. */
  lemma SyncStep(src: Fs, fails: string -> bool, cur: Fs, paths: seq<string>, i: nat)
    requires i < |paths|
    ensures var o := CopyOne(src, cur, paths[i], fails);
      var here := Sync(Body(src, fails), cur, paths[i..], i, |paths|);
      && (o.Missing? ==> here == Sync(Body(src, fails), cur, paths[i + 1..], i + 1, |paths|))
      && (o.Failed? ==> here == Report(cur, [CopyError(paths[i]), Finished(false)]))
      && (o.Copied? ==> here == After([Progress(i + 1, |paths|)], Sync(Body(src, fails), o.fs, paths[i + 1..], i + 1, |paths|)))
  {
    assert paths[i..][0] == paths[i] && paths[i..][1..] == paths[i + 1..];
    assert Body(src, fails)(cur, paths[i]) == CopyOne(src, cur, paths[i], fails);
  }

  /** What the worker emits has the shape of every run. */
  lemma RunShape(src: Fs, fails: string -> bool, dst: Fs, paths: seq<string>, out: Fs, events: seq<Event>)
    requires Report(out, events) == Sync(Body(src, fails), dst, paths, 0, |paths|)
    ensures Terminated(events)
    ensures ProgressWithin(events, 0, |paths|, |paths|)
  {
    SyncShape(Body(src, fails), dst, paths, 0, |paths|, |paths|);
  }

  /**
   * The state after the first `k` paths of `paths` were handled and none failed: the
   * destination and the progress emitted so far; `None` once one of them failed.
   */
  function Handled(step: Step, dst: Fs, paths: seq<string>, k: nat): Option<Report>
    requires k <= |paths|
    decreases k
  {
    if k == 0 then Some(Report(dst, []))
    else match Handled(step, dst, paths, k - 1)
      case None => None
      case Some(r) =>
        match step(r.fs, paths[k - 1])
        case Missing => Some(r)
        case Failed => None
        case Copied(fs) => Some(Report(fs, r.events + [Progress(k, |paths|)]))
  }

  /** After a failure, no longer prefix is handled. */
  lemma {:induction false} HandledStops(step: Step, dst: Fs, paths: seq<string>, k: nat, m: nat)
    requires k < m <= |paths|
    requires Handled(step, dst, paths, k).Some?
    requires step(Handled(step, dst, paths, k).value.fs, paths[k]).Failed?
    ensures Handled(step, dst, paths, m).None?
    decreases m
  {
    if m > k + 1 {
      HandledStops(step, dst, paths, k, m - 1);
    }
  }

  /** A run is the progress of its handled prefix followed by a run over the remaining paths. */
  lemma {:induction false} SyncSplit(step: Step, dst: Fs, paths: seq<string>, k: nat)
    requires k <= |paths|
    requires Handled(step, dst, paths, k).Some?
    ensures var h := Handled(step, dst, paths, k).value;
      Sync(step, dst, paths, 0, |paths|) == After(h.events, Sync(step, h.fs, paths[k..], k, |paths|))
    decreases k
  {
    if k == 0 {
      assert paths[0..] == paths;
    } else {
      var h0 := Handled(step, dst, paths, k - 1).value;
      SyncSplit(step, dst, paths, k - 1);
      var rest := paths[k - 1..];
      assert rest[0] == paths[k - 1] && rest[1..] == paths[k..];
      match step(h0.fs, paths[k - 1])
      case Missing =>
      case Copied(fs) =>
        AfterAfter(h0.events, [Progress(k, |paths|)], Sync(step, fs, paths[k..], k, |paths|));
    }
  }

  /**
   * The loop stops at the first failure: an error for that path and `finished(False)` follow
   * the progress so far, and the destination is left as the earlier paths made it.
   */
  lemma StopsAtFailure(step: Step, dst: Fs, paths: seq<string>, k: nat)
    requires k < |paths|
    requires Handled(step, dst, paths, k).Some?
    requires step(Handled(step, dst, paths, k).value.fs, paths[k]).Failed?
    ensures var h := Handled(step, dst, paths, k).value;
      Sync(step, dst, paths, 0, |paths|) == Report(h.fs, h.events + [CopyError(paths[k]), Finished(false)])
  {
    SyncSplit(step, dst, paths, k);
    assert paths[k..][0] == paths[k];
  }

  /**
   * `finished(True)` is emitted exactly when every path was handled without failure, and then
   * the run leaves the destination those paths made; an empty list succeeds at once.
   */
  lemma SucceedsIffAllHandled(step: Step, dst: Fs, paths: seq<string>)
    ensures var r := Sync(step, dst, paths, 0, |paths|);
      Succeeded(r.events) <==> Handled(step, dst, paths, |paths|).Some?
    ensures var h := Handled(step, dst, paths, |paths|);
      h.Some? ==> Sync(step, dst, paths, 0, |paths|) == Report(h.value.fs, h.value.events + [Finished(true)])
  {
    var h := Handled(step, dst, paths, |paths|);
    if h.Some? {
      SyncSplit(step, dst, paths, |paths|);
      assert paths[|paths|..] == [];
    } else {
      var k := FirstFailure(step, dst, paths, |paths|);
      StopsAtFailure(step, dst, paths, k);
    }
  }

  /** The index of the path that failed, when the first `n` paths were not all handled. */
  lemma {:induction false} FirstFailure(step: Step, dst: Fs, paths: seq<string>, n: nat) returns (k: nat)
    requires n <= |paths|
    requires Handled(step, dst, paths, n).None?
    ensures k < n
    ensures Handled(step, dst, paths, k).Some?
    ensures step(Handled(step, dst, paths, k).value.fs, paths[k]).Failed?
    decreases n
  {
    if Handled(step, dst, paths, n - 1).None? {
      k := FirstFailure(step, dst, paths, n - 1);
    } else {
      k := n - 1;
    }
  }

  /** Every event of a handled prefix is a progress event for a path among the first `k`. */
  lemma {:induction false} HandledProgress(step: Step, dst: Fs, paths: seq<string>, k: nat, d: nat)
    requires k <= |paths|
    requires Handled(step, dst, paths, k).Some?
    ensures forall e | e in Handled(step, dst, paths, k).value.events :: e.Progress? && e.total == |paths|
    ensures Progress(d, |paths|) in Handled(step, dst, paths, k).value.events <==>
      1 <= d <= k && Handled(step, dst, paths, d - 1).Some? &&
      step(Handled(step, dst, paths, d - 1).value.fs, paths[d - 1]).Copied?
    decreases k
  {
    if k > 0 {
      HandledProgress(step, dst, paths, k - 1, d);
      var h0 := Handled(step, dst, paths, k - 1).value;
      assert forall e | e in h0.events + [Progress(k, |paths|)] :: e in h0.events || e == Progress(k, |paths|);
    }
  }

  /**
   * A progress event for the `d`-th path is emitted exactly when that path was copied, all
   * before it having been handled without failure; so 100% is reached only when the last path
   * is copied, and never when it is missing.
   */
  lemma ProgressIffCopied(step: Step, dst: Fs, paths: seq<string>, d: nat)
    ensures Progress(d, |paths|) in Sync(step, dst, paths, 0, |paths|).events <==>
      1 <= d <= |paths| && Handled(step, dst, paths, d - 1).Some? &&
      step(Handled(step, dst, paths, d - 1).value.fs, paths[d - 1]).Copied?
  {
    var n := |paths|;
    if Handled(step, dst, paths, n).Some? {
      ProgressWhenAllHandled(step, dst, paths, d);
    } else {
      var k := FirstFailure(step, dst, paths, n);
      ProgressWhenFailed(step, dst, paths, k, d);
    }
  }

  /** `ProgressIffCopied` for a run in which no path failed. */
  lemma ProgressWhenAllHandled(step: Step, dst: Fs, paths: seq<string>, d: nat)
    requires Handled(step, dst, paths, |paths|).Some?
    ensures Progress(d, |paths|) in Sync(step, dst, paths, 0, |paths|).events <==>
      1 <= d <= |paths| && Handled(step, dst, paths, d - 1).Some? &&
      step(Handled(step, dst, paths, d - 1).value.fs, paths[d - 1]).Copied?
  {
    var h := Handled(step, dst, paths, |paths|).value;
    SucceedsIffAllHandled(step, dst, paths);
    HandledProgress(step, dst, paths, |paths|, d);
    var ev := Sync(step, dst, paths, 0, |paths|).events;
    assert ev == h.events + [Finished(true)];
    assert Progress(d, |paths|) in ev <==> Progress(d, |paths|) in h.events;
  }

  /** `ProgressIffCopied` for a run whose path `k` failed. */
  lemma ProgressWhenFailed(step: Step, dst: Fs, paths: seq<string>, k: nat, d: nat)
    requires k < |paths|
    requires Handled(step, dst, paths, k).Some?
    requires step(Handled(step, dst, paths, k).value.fs, paths[k]).Failed?
    ensures Progress(d, |paths|) in Sync(step, dst, paths, 0, |paths|).events <==>
      1 <= d <= |paths| && Handled(step, dst, paths, d - 1).Some? &&
      step(Handled(step, dst, paths, d - 1).value.fs, paths[d - 1]).Copied?
  {
    var hk := Handled(step, dst, paths, k).value;
    StopsAtFailure(step, dst, paths, k);
    HandledProgress(step, dst, paths, k, d);
    var ev := Sync(step, dst, paths, 0, |paths|).events;
    assert ev == hk.events + [CopyError(paths[k]), Finished(false)];
    assert Progress(d, |paths|) in ev <==> Progress(d, |paths|) in hk.events;
    if k + 1 < d <= |paths| {
      HandledStops(step, dst, paths, k, d - 1);
    }
  }

  /** The events other than progress: the error, if any, and the final `finished`. */
  function Outline(ev: seq<Event>): (r: seq<Event>)
    ensures forall e | e in r :: e in ev && !e.Progress?
    ensures forall e | e in ev && !e.Progress? :: e in r
    decreases |ev|
  {
    if ev == [] then []
    else if ev[0].Progress? then Outline(ev[1..])
    else [ev[0]] + Outline(ev[1..])
  }

  /** A single event is kept in the outline exactly when it is not a progress event. */
  lemma OutlineOne(e: Event)
    ensures Outline([e]) == (if e.Progress? then [] else [e])
  {
    assert [e][1..] == [];
  }

  /** The outline of a list is that of its first event followed by the outline of the rest. */
  lemma OutlineCons(e: Event, s: seq<Event>)
    ensures Outline([e] + s) == Outline([e]) + Outline(s)
  {
    assert ([e] + s)[1..] == s;
    OutlineOne(e);
  }

  /** One event put in front of a join whose outline splits still splits. */
  lemma OutlineAppendStep(e: Event, t: seq<Event>, b: seq<Event>)
    requires Outline(t + b) == Outline(t) + Outline(b)
    ensures Outline([e] + t + b) == Outline([e] + t) + Outline(b)
  {
    assert [e] + t + b == [e] + (t + b);
    OutlineCons(e, t);
    OutlineCons(e, t + b);
    ConcatAssoc(Outline([e]), Outline(t), Outline(b));
  }

  lemma ConcatAssoc(x: seq<Event>, y: seq<Event>, z: seq<Event>)
    ensures x + (y + z) == (x + y) + z
  {
  }

  /**
   * The outline of two lists joined is their outlines joined. With `OutlineOne` this fixes the
   * outline as the list's non-progress events, each as often as it occurs, in their order.
   */
  lemma {:induction false} OutlineAppend(a: seq<Event>, b: seq<Event>)
    ensures Outline(a + b) == Outline(a) + Outline(b)
    decreases |a|
  {
    if a == [] {
      assert a + b == b;
    } else {
      OutlineAppend(a[1..], b);
      OutlineAppendStep(a[0], a[1..], b);
      assert [a[0]] + a[1..] == a;
    }
  }

  /** Dropping progress events keeps the final event of a run, so a run's success shows in its outline. */
  lemma {:induction false} OutlineKeepsLast(ev: seq<Event>)
    requires Terminated(ev)
    ensures Outline(ev) != [] && Outline(ev)[|Outline(ev)| - 1] == ev[|ev| - 1]
    ensures Succeeded(ev) <==> Succeeded(Outline(ev))
    decreases |ev|
  {
    if ev == [Finished(true)] {
      assert Outline(ev) == [Finished(true)] + Outline([]);
    } else if |ev| == 2 && ev[0].CopyError? && ev[1] == Finished(false) {
      assert ev[1..][1..] == [];
      assert Outline(ev[1..]) == [ev[1]] + Outline([]);
      assert Outline(ev) == [ev[0], ev[1]];
    } else {
      var tail := ev[1..];
      assert ev[0].Progress? && Terminated(tail);
      assert Outline(ev) == Outline(tail);
      OutlineKeepsLast(tail);
      assert tail[|tail| - 1] == ev[|ev| - 1];
    }
  }

  /** Where in the list a run starts and how long the list is change only the progress events. */
  lemma {:induction false} Renumber(step: Step, dst: Fs, rest: seq<string>, d1: nat, t1: nat, d2: nat, t2: nat)
    ensures Sync(step, dst, rest, d1, t1).fs == Sync(step, dst, rest, d2, t2).fs
    ensures Outline(Sync(step, dst, rest, d1, t1).events) == Outline(Sync(step, dst, rest, d2, t2).events)
    decreases |rest|
  {
    if rest != [] {
      match step(dst, rest[0])
      case Missing =>
        Renumber(step, dst, rest[1..], d1 + 1, t1, d2 + 1, t2);
      case Failed =>
      case Copied(fs) =>
        Renumber(step, fs, rest[1..], d1 + 1, t1, d2 + 1, t2);
        var e1 := Sync(step, fs, rest[1..], d1 + 1, t1).events;
        var e2 := Sync(step, fs, rest[1..], d2 + 1, t2).events;
        assert ([Progress(d1 + 1, t1)] + e1)[1..] == e1;
        assert ([Progress(d2 + 1, t2)] + e2)[1..] == e2;
    }
  }

  /** Taking out a path that is skipped whatever the destination changes only the progress events. */
  lemma {:induction false} SkipAnywhere(step: Step, dst: Fs, a: seq<string>, m: string, b: seq<string>, d1: nat, t1: nat, d2: nat, t2: nat)
    requires forall fs: Fs :: step(fs, m).Missing?
    ensures Sync(step, dst, a + [m] + b, d1, t1).fs == Sync(step, dst, a + b, d2, t2).fs
    ensures Outline(Sync(step, dst, a + [m] + b, d1, t1).events) == Outline(Sync(step, dst, a + b, d2, t2).events)
    decreases |a|
  {
    if a == [] {
      assert (a + [m] + b)[0] == m && (a + [m] + b)[1..] == b && a + b == b;
      Renumber(step, dst, b, d1 + 1, t1, d2, t2);
    } else {
      var l := a + [m] + b;
      var s := a + b;
      assert l[0] == a[0] && s[0] == a[0];
      assert l[1..] == a[1..] + [m] + b && s[1..] == a[1..] + b;
      match step(dst, a[0])
      case Missing =>
        SkipAnywhere(step, dst, a[1..], m, b, d1 + 1, t1, d2 + 1, t2);
      case Failed =>
      case Copied(fs) =>
        SkipAnywhere(step, fs, a[1..], m, b, d1 + 1, t1, d2 + 1, t2);
        var e1 := Sync(step, fs, l[1..], d1 + 1, t1).events;
        var e2 := Sync(step, fs, s[1..], d2 + 1, t2).events;
        assert ([Progress(d1 + 1, t1)] + e1)[1..] == e1;
        assert ([Progress(d2 + 1, t2)] + e2)[1..] == e2;
    }
  }

  /**
   * A path whose source does not exist is skipped: the run with it and the run without it leave
   * the same destination, emit the same error (if any) and report the same success.
   */
  lemma SkipMissing(src: Fs, fails: string -> bool, dst: Fs, a: seq<string>, m: string, b: seq<string>)
    requires !Exists(src, Resolve(m))
    ensures var r1 := Sync(Body(src, fails), dst, a + [m] + b, 0, |a + [m] + b|);
      var r2 := Sync(Body(src, fails), dst, a + b, 0, |a + b|);
      && r1.fs == r2.fs
      && Outline(r1.events) == Outline(r2.events)
      && (Succeeded(r1.events) <==> Succeeded(r2.events))
  {
    var step := Body(src, fails);
    forall fs: Fs
      ensures step(fs, m).Missing?
    {
      assert step(fs, m) == CopyOne(src, fs, m, fails);
    }
    SkipAnywhere(step, dst, a, m, b, 0, |a + [m] + b|, 0, |a + b|);
    var r1 := Sync(step, dst, a + [m] + b, 0, |a + [m] + b|);
    var r2 := Sync(step, dst, a + b, 0, |a + b|);
    SyncShape(step, dst, a + [m] + b, 0, |a + [m] + b|, |a + [m] + b|);
    SyncShape(step, dst, a + b, 0, |a + b|, |a + b|);
    OutlineKeepsLast(r1.events);
    OutlineKeepsLast(r2.events);
    assert Succeeded(Outline(r1.events)) == Succeeded(Outline(r2.events));
  }

  /** Some existing path of `rest` may write `q` when copied. */
  predicate TouchedBy(src: Fs, rest: seq<string>, q: Path)
    decreases |rest|
  {
    rest != [] &&
    ((Exists(src, Resolve(rest[0])) && Touches(src, Resolve(rest[0]), q)) || TouchedBy(src, rest[1..], q))
  }

  /**
   * Nothing else changes: a run keeps every destination entry, alters only entries some existing
   * listed path may write, and creates nothing else.
   */
  lemma {:induction false} SyncFrame(src: Fs, fails: string -> bool, dst: Fs, rest: seq<string>, done: nat, total: nat)
    ensures var out := Sync(Body(src, fails), dst, rest, done, total).fs;
      && (forall q | q in dst :: q in out)
      && (forall q | q in dst && !TouchedBy(src, rest, q) :: out[q] == dst[q])
      && (forall q | q in out :: q in dst || TouchedBy(src, rest, q))
    decreases |rest|
  {
    if rest != [] {
      assert Body(src, fails)(dst, rest[0]) == CopyOne(src, dst, rest[0], fails);
      match CopyOne(src, dst, rest[0], fails)
      case Missing =>
        SyncFrame(src, fails, dst, rest[1..], done + 1, total);
      case Failed =>
      case Copied(fs) =>
        CopyFrame(src, dst, Resolve(rest[0]));
        SyncFrame(src, fails, fs, rest[1..], done + 1, total);
    }
  }

  /** A copy that raises nothing keeps a well-formed destination well formed. */
  lemma CopyWellFormed(src: Fs, dst: Fs, p: Path)
    requires WellFormed(src) && WellFormed(dst)
    requires Exists(src, p) && !Conflict(src, dst, p)
    ensures WellFormed(Copy(src, dst, p))
  {
    if IsDir(src, p) {
      CopyTreeWellFormed(src, dst, p);
    } else {
      CopyFileWellFormed(src, dst, p);
    }
  }

  /** A run from a well-formed source leaves a well-formed destination well formed, even when it fails. */
  lemma {:induction false} SyncWellFormed(src: Fs, fails: string -> bool, dst: Fs, rest: seq<string>, done: nat, total: nat)
    requires WellFormed(src) && WellFormed(dst)
    ensures WellFormed(Sync(Body(src, fails), dst, rest, done, total).fs)
    decreases |rest|
  {
    if rest != [] {
      assert Body(src, fails)(dst, rest[0]) == CopyOne(src, dst, rest[0], fails);
      match CopyOne(src, dst, rest[0], fails)
      case Missing =>
        SyncWellFormed(src, fails, dst, rest[1..], done + 1, total);
      case Failed =>
      case Copied(fs) =>
        CopyWellFormed(src, dst, Resolve(rest[0]));
        SyncWellFormed(src, fails, fs, rest[1..], done + 1, total);
    }
  }

  /** In a well-formed tree nothing lies below a file. */
  lemma FileIsLeaf(fs: Fs, p: Path, q: Path)
    requires WellFormed(fs)
    requires p in fs && fs[p].File?
    requires q in fs && p <= q
    ensures q == p
  {
    if q != p {
      AncestorsAreDirs(fs, q, p);
    }
  }

  /** Copying from a well-formed source never alters an entry that already equals the source's. */
  lemma CopyKeepsAgreement(src: Fs, dst: Fs, p: Path, q: Path)
    requires WellFormed(src)
    requires Exists(src, p)
    requires q in src && q in dst && dst[q] == src[q]
    ensures var r := Copy(src, dst, p); q in r && r[q] == src[q]
  {
    CopyFrame(src, dst, p);
    if Touches(src, p, q) {
      if OnPathTo(q, p) && q != p {
        if p != [] {
          AncestorsAreDirs(src, p, q);
        }
      } else if !IsDir(src, p) {
        FileIsLeaf(src, p, q);
      }
    }
  }

  /** A run from a well-formed source never alters an entry that already equals the source's. */
  lemma {:induction false} SyncKeepsAgreement(src: Fs, fails: string -> bool, dst: Fs, rest: seq<string>, done: nat, total: nat, q: Path)
    requires WellFormed(src)
    requires q in src && q in dst && dst[q] == src[q]
    ensures var out := Sync(Body(src, fails), dst, rest, done, total).fs; q in out && out[q] == src[q]
    decreases |rest|
  {
    if rest != [] {
      assert Body(src, fails)(dst, rest[0]) == CopyOne(src, dst, rest[0], fails);
      match CopyOne(src, dst, rest[0], fails)
      case Missing =>
        SyncKeepsAgreement(src, fails, dst, rest[1..], done + 1, total, q);
      case Failed =>
      case Copied(fs) =>
        CopyKeepsAgreement(src, dst, Resolve(rest[0]), q);
        SyncKeepsAgreement(src, fails, fs, rest[1..], done + 1, total, q);
    }
  }

  /** `q` is an existing listed path or lies below one. */
  predicate CoveredBy(src: Fs, rest: seq<string>, q: Path)
    decreases |rest|
  {
    rest != [] && ((Exists(src, Resolve(rest[0])) && Resolve(rest[0]) <= q) || CoveredBy(src, rest[1..], q))
  }

  /**
   * After a successful run from a well-formed source, every source entry at or below a listed
   * path is in the destination with the source's content: directories merged, files overwritten.
   */
  lemma {:induction false} SyncCopiesContent(src: Fs, fails: string -> bool, dst: Fs, rest: seq<string>, done: nat, total: nat)
    requires WellFormed(src)
    ensures var r := Sync(Body(src, fails), dst, rest, done, total);
      Succeeded(r.events) ==> forall q | q in src && CoveredBy(src, rest, q) :: q in r.fs && r.fs[q] == src[q]
    decreases |rest|
  {
    var r := Sync(Body(src, fails), dst, rest, done, total);
    if rest != [] && Succeeded(r.events) {
      assert Body(src, fails)(dst, rest[0]) == CopyOne(src, dst, rest[0], fails);
      match CopyOne(src, dst, rest[0], fails)
      case Missing =>
        SyncCopiesContent(src, fails, dst, rest[1..], done + 1, total);
      case Copied(fs) =>
        var t := Sync(Body(src, fails), fs, rest[1..], done + 1, total);
        var p := Resolve(rest[0]);
        assert r.events == [Progress(done + 1, total)] + t.events;
        assert Succeeded(t.events);
        SyncCopiesContent(src, fails, fs, rest[1..], done + 1, total);
        CopyFrame(src, dst, p);
        forall q | q in src && p <= q
          ensures q in t.fs && t.fs[q] == src[q]
        {
          if !IsDir(src, p) {
            FileIsLeaf(src, p, q);
          }
          SyncKeepsAgreement(src, fails, fs, rest[1..], done + 1, total, q);
        }
    }
  }

  /** A progress event is emitted only for a path whose source exists and whose copy succeeded. */
  lemma ProgressOnlyForCopied(src: Fs, fails: string -> bool, dst: Fs, paths: seq<string>, d: nat)
    ensures Progress(d, |paths|) in Sync(Body(src, fails), dst, paths, 0, |paths|).events ==>
      1 <= d <= |paths| && Exists(src, Resolve(paths[d - 1])) && !fails(paths[d - 1])
  {
    ProgressIffCopied(Body(src, fails), dst, paths, d);
    if 1 <= d <= |paths| && Handled(Body(src, fails), dst, paths, d - 1).Some? {
      var h := Handled(Body(src, fails), dst, paths, d - 1).value;
      assert Body(src, fails)(h.fs, paths[d - 1]) == CopyOne(src, h.fs, paths[d - 1], fails);
    }
  }

  /**
   * The bar reaches 100% exactly when the last path is copied: every earlier path was handled
   * without failure, and the last one exists and copies without error. A missing last path
   * therefore leaves the bar short of 100% even though the run succeeds.
   */
  lemma CompleteIffLastCopied(src: Fs, fails: string -> bool, dst: Fs, paths: seq<string>)
    requires paths != []
    ensures var n := |paths|;
      var h := Handled(Body(src, fails), dst, paths, n - 1);
      var p := Resolve(paths[n - 1]);
      Progress(n, n) in Sync(Body(src, fails), dst, paths, 0, n).events <==>
        h.Some? && Exists(src, p) && !fails(paths[n - 1]) && !Conflict(src, h.value.fs, p)
  {
    var n := |paths|;
    ProgressIffCopied(Body(src, fails), dst, paths, n);
    var h := Handled(Body(src, fails), dst, paths, n - 1);
    if h.Some? {
      assert Body(src, fails)(h.value.fs, paths[n - 1]) == CopyOne(src, h.value.fs, paths[n - 1], fails);
    }
  }
}
