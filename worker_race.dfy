/**
 * The hand-off between `add_scan_request` and the worker thread of
 * `_batch_processor`, at the granularity of its atomic steps.
 *
 * The worker decides to stop under the lock when it finds the dictionary
 * empty, but it is still alive until its function has returned. An add that
 * runs in between sees a live worker and starts none; the worker then ends
 * and the new entry waits, with no worker, until a later add starts one or
 * shutdown flushes it.
 * `AsWritten` models that; `Corrected` clears the worker in the same atomic
 * step as the decision to stop, which is what the coalescer class does.
 */
module WorkerRace {

  /** No worker; a worker in its loop; a worker that has left its loop but is still alive. */
  datatype Worker = Idle | Looping | Returning

  predicate Alive(w: Worker)
  {
    w != Idle
  }

  /** The keys waiting in the dictionary, and the worker. */
  datatype World = World(pending: set<string>, worker: Worker)

  /** An add under the lock, then a start when no worker is alive; a pass taking out some keys; the worker's return. */
  datatype Action = AddKey(key: string) | RunPass(ready: set<string>) | Finish

  /** Some scan is pending and no worker is alive to emit it. */
  predicate Stranded(w: World)
  {
    w.pending != {} && !Alive(w.worker)
  }

  /** The invariant the coalescer needs: a pending scan always has a live worker. */
  predicate Covered(w: World)
  {
    w.pending != {} ==> Alive(w.worker)
  }

  /** The steps as the code takes them: the worker stays alive after deciding to stop. */
  function AsWritten(w: World, a: Action): World
  {
    match a
    case AddKey(key) => World(w.pending + {key}, if Alive(w.worker) then w.worker else Looping)
    case RunPass(ready) =>
      if w.worker != Looping then w
      else
        var left := w.pending - ready;
        World(left, if left == {} then Returning else Looping)
    case Finish => if w.worker == Returning then World(w.pending, Idle) else w
  }

  /** The steps with the decision to stop and the end of the worker made one atomic step. */
  function Corrected(w: World, a: Action): World
  {
    match a
    case AddKey(key) => World(w.pending + {key}, if Alive(w.worker) then w.worker else Looping)
    case RunPass(ready) =>
      if w.worker != Looping then w
      else
        var left := w.pending - ready;
        World(left, if left == {} then Idle else Looping)
    case Finish => if w.worker == Returning then World(w.pending, Idle) else w
  }

  function RunAsWritten(w: World, actions: seq<Action>): World
  {
    if actions == [] then w
    else AsWritten(RunAsWritten(w, actions[..|actions| - 1]), actions[|actions| - 1])
  }

  function RunCorrected(w: World, actions: seq<Action>): World
  {
    if actions == [] then w
    else Corrected(RunCorrected(w, actions[..|actions| - 1]), actions[|actions| - 1])
  }

  /**
   * As written, a pass that empties the dictionary, an add before the worker
   * has returned, and the return leave that add's scan with no worker, from
   * a start where every pending scan had one.
   */
  lemma AsWrittenStrandsEntry()
    ensures Covered(World({"1:/a"}, Looping))
    ensures Stranded(RunAsWritten(World({"1:/a"}, Looping), [RunPass({"1:/a"}), AddKey("1:/b"), Finish]))
  {
    var w0 := World({"1:/a"}, Looping);
    var actions := [RunPass({"1:/a"}), AddKey("1:/b"), Finish];
    assert actions[..2] == [RunPass({"1:/a"}), AddKey("1:/b")];
    assert actions[..2][..1] == [RunPass({"1:/a"})];
    assert actions[..2][..1][..0] == [];
    var w1 := AsWritten(w0, RunPass({"1:/a"}));
    assert w1 == World({}, Returning);
    assert RunAsWritten(w0, actions[..2][..1]) == w1;
    assert RunAsWritten(w0, actions[..2]) == AsWritten(w1, AddKey("1:/b"));
  }

  /** A corrected step keeps every pending scan covered by a live worker. */
  lemma CorrectedStepKeepsCovered(w: World, a: Action)
    requires Covered(w) && w.worker != Returning
    ensures Covered(Corrected(w, a)) && Corrected(w, a).worker != Returning
  {
  }

  /** Whatever the interleaving of adds, passes and returns, the corrected steps never strand a scan. */
  lemma {:induction false} CorrectedNeverStrands(w: World, actions: seq<Action>)
    requires Covered(w) && w.worker != Returning
    ensures Covered(RunCorrected(w, actions)) && !Stranded(RunCorrected(w, actions))
    ensures RunCorrected(w, actions).worker != Returning
  {
    if actions != [] {
      var n := |actions| - 1;
      CorrectedNeverStrands(w, actions[..n]);
      CorrectedStepKeepsCovered(RunCorrected(w, actions[..n]), actions[n]);
    }
  }
}
