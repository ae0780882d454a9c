/** Which child the helper runner reports about, over whole histories of runs,
    child exits, signals and polls. */
module HelperReports {
  import opened Outcomes
  import opened HelperStream

  /** The runner and its children, numbered as they start. */
  datatype World = World(runner: Runner, started: nat, exited: set<nat>)

  datatype Happening =
    | Start(starts: bool, error: string)
    | ChildExits(child: nat)
    | ReadReady(chunk: string)
    | ExitSignal(sender: nat, chunk: string, normal: bool, code: int)
    | PollCall(chunk: string, normal: bool, code: int)

  const BEGINNING := World(Runner("", None, false, [], []), 0, {})

  predicate IsReported(w: World, child: nat) {
    exists i | 0 <= i < |w.runner.finished| :: w.runner.finished[i].process == Some(child)
  }

  predicate Running(w: World) {
    w.runner.process.Some? && w.runner.process.value !in w.exited
  }

  /** A child exits once; its exit signal may come as long as its process object has
      not been handed to deleteLater, which happens when it is reported. */
  predicate Enabled(w: World, h: Happening) {
    match h
    case ChildExits(child) => child < w.started && child !in w.exited
    case ExitSignal(sender, _, _, _) => sender in w.exited && !IsReported(w, sender)
    case _ => true
  }

  /** The slots look at the current process only, whoever sent the signal. */
  function Next(w: World, h: Happening): World {
    match h
    case Start(starts, error) =>
      w.(runner := AfterRun(w.runner, Running(w), w.started, starts, error),
         started := if !Running(w) && starts then w.started + 1 else w.started)
    case ChildExits(child) => w.(exited := w.exited + {child})
    case ReadReady(chunk) => w.(runner := AfterRead(w.runner, chunk))
    case ExitSignal(_, chunk, normal, code) => w.(runner := AfterExit(w.runner, chunk, normal, code))
    case PollCall(chunk, normal, code) => w.(runner := AfterPoll(w.runner, Running(w), chunk, normal, code))
  }

  /** A start that run() accepts while no unreported process is left over. */
  predicate CleanStart(w: World, h: Happening) {
    h.Start? && !Running(w) ==> w.runner.process.None?
  }

  function After(hs: seq<Happening>): World {
    if hs == [] then BEGINNING else Next(After(hs[..|hs| - 1]), hs[|hs| - 1])
  }

  ghost predicate CleanHistory(hs: seq<Happening>) {
    forall i | 0 <= i < |hs| :: Enabled(After(hs[..i]), hs[i]) && CleanStart(After(hs[..i]), hs[i])
  }

  /** Every report about a child is about one that has exited, and no child is
      reported twice. */
  ghost predicate Truthful(w: World) {
    var f := w.runner.finished;
    && (forall i | 0 <= i < |f| && f[i].process.Some? :: f[i].process.value in w.exited)
    && (forall i, j | 0 <= i < j < |f| && f[i].process.Some? :: f[i].process != f[j].process)
  }

  /** Every child but the current one has been reported. */
  ghost predicate Settled(w: World) {
    && (forall child: nat | child < w.started && w.runner.process != Some(child) :: IsReported(w, child))
    && (w.runner.process.Some? ==>
          w.runner.process.value < w.started && !w.runner.reported && !IsReported(w, w.runner.process.value))
    && (forall child | child in w.exited :: child < w.started)
    && (forall child: nat | IsReported(w, child) :: child < w.started)
  }

  lemma ReportedAfter(w: World, r: Report, v: World)
    requires v.runner.finished == w.runner.finished + [r]
    ensures forall child: nat :: IsReported(v, child) <==> IsReported(w, child) || r.process == Some(child)
  {
    var f, g := w.runner.finished, v.runner.finished;
    forall child: nat ensures IsReported(v, child) <==> IsReported(w, child) || r.process == Some(child) {
      if i :| 0 <= i < |f| && f[i].process == Some(child) {
        assert g[i].process == Some(child);
      }
      assert g[|f|] == r;
    }
  }

  lemma CleanStep(w: World, h: Happening)
    requires Truthful(w) && Settled(w) && Enabled(w, h) && CleanStart(w, h)
    ensures Truthful(Next(w, h)) && Settled(Next(w, h))
  {
    var v := Next(w, h);
    if v.runner.finished == w.runner.finished {
      assert forall child: nat :: IsReported(v, child) <==> IsReported(w, child);
    } else {
      var f := w.runner.finished;
      var r := v.runner.finished[|f|];
      assert v.runner.finished == f + [r];
      ReportedAfter(w, r, v);
      if r.process.Some? {
        assert r.process == w.runner.process;
        if h.ExitSignal? {
          assert w.runner.process == Some(h.sender);
        }
        forall i | 0 <= i < |f| && f[i].process.Some? ensures f[i].process != r.process {
          assert IsReported(w, f[i].process.value);
        }
      }
    }
  }

  /** If every accepted start is clean, every report is about a child that has
      exited, and each child is reported at most once; every child but the current
      one has been reported. */
  lemma {:induction false} CleanHistoryTruthful(hs: seq<Happening>)
    requires CleanHistory(hs)
    ensures Truthful(After(hs)) && Settled(After(hs))
  {
    if hs != [] {
      var last := |hs| - 1;
      forall i | 0 <= i < last ensures hs[..last][..i] == hs[..i] {
      }
      CleanHistoryTruthful(hs[..last]);
      CleanStep(After(hs[..last]), hs[last]);
    }
  }

  /** After an exit signal or a poll that finds the child gone, the current child is
      reported, exactly once. */
  lemma ExitIsReported(hs: seq<Happening>, h: Happening)
    requires CleanHistory(hs) && Enabled(After(hs), h)
    requires h.ExitSignal? || (h.PollCall? && After(hs).runner.process.Some? && !Running(After(hs)))
    ensures After(hs).runner.process.Some?
    ensures var w, v := After(hs), Next(After(hs), h);
            && IsReported(v, w.runner.process.value) && Truthful(v)
            && |v.runner.finished| == |w.runner.finished| + 1
  {
    var w := After(hs);
    CleanHistoryTruthful(hs);
    CleanStep(w, h);
    var v := Next(w, h);
    if h.ExitSignal? {
      assert w.runner.process == Some(h.sender);
    }
    assert v.runner.finished[|w.runner.finished|].process == w.runner.process;
  }

  /** A start is clean exactly when no exit signal can arrive before its own child
      exits. */
  lemma StartSafeIff(hs: seq<Happening>, error: string)
    requires CleanHistory(hs) && !Running(After(hs))
    ensures CleanStart(After(hs), Start(true, error))
            <==> forall sender: nat :: !Enabled(Next(After(hs), Start(true, error)), ExitSignal(sender, "", true, 0))
  {
    CleanHistoryTruthful(hs);
    var w := After(hs);
    var v := Next(w, Start(true, error));
    assert forall sender: nat :: IsReported(v, sender) <==> IsReported(w, sender);
    if w.runner.process.Some? {
      assert Enabled(v, ExitSignal(w.runner.process.value, "", true, 0));
    }
  }

  /** Start a child, let it exit, start another before anything was reported, and let the
      exit signal of the first arrive. */
  function DirtyHistory(): seq<Happening> {
    [Start(true, ""), ChildExits(0), Start(true, ""), ExitSignal(0, "", true, 0)]
  }

  lemma Unfolded(hs: seq<Happening>, h: Happening)
    ensures After(hs + [h]) == Next(After(hs), h)
  {
    assert (hs + [h])[..|hs|] == hs;
  }

  /** This history is possible, and its one report is about the second child, which has
      not exited. */
  lemma DirtyExample()
    ensures forall i | 0 <= i < 4 :: Enabled(After(DirtyHistory()[..i]), DirtyHistory()[i])
    ensures var w := After(DirtyHistory());
            && w.runner.finished == [Report(Some(1), true, 0)]
            && w.started == 2 && w.exited == {0} && !Truthful(w)
  {
    var hs := DirtyHistory();
    var one := Runner("", Some(0), false, [], []);
    var two := Runner("", Some(1), false, [], []);
    assert hs[..0] == [] && hs[..1] == [] + [hs[0]] && hs[..2] == hs[..1] + [hs[1]];
    assert hs[..3] == hs[..2] + [hs[2]] && hs == hs[..3] + [hs[3]];
    Unfolded([], hs[0]);
    assert After(hs[..1]) == World(one, 1, {});
    Unfolded(hs[..1], hs[1]);
    assert After(hs[..2]) == World(one, 1, {0});
    Unfolded(hs[..2], hs[2]);
    assert After(hs[..3]) == World(two, 2, {0});
    Unfolded(hs[..3], hs[3]);
    assert After(hs).runner.finished[0].process == Some(1);
  }

  /** A run that starts over an unreported process is reported as finished by the old
      child's signal while its own child still runs. */
  lemma DirtyStartMisreports(hs: seq<Happening>, error: string, code: int)
    requires CleanHistory(hs) && !Running(After(hs)) && After(hs).runner.process.Some?
    ensures var w := After(hs);
            var stale, v := w.runner.process.value, Next(w, Start(true, error));
            && Enabled(v, ExitSignal(stale, "", true, code))
            && v.runner.process == Some(w.started) && w.started !in v.exited
            && var x := Next(v, ExitSignal(stale, "", true, code));
               && IsReported(x, w.started) && !Truthful(x)
  {
    CleanHistoryTruthful(hs);
    var w := After(hs);
    var v := Next(w, Start(true, error));
    var x := Next(v, ExitSignal(w.runner.process.value, "", true, code));
    var n := |w.runner.finished|;
    assert x.runner.finished[n].process == Some(w.started);
  }
}
