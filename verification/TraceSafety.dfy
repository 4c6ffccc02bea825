/** What a trace of commands may do to a set of targets disks. */
module DiskWorld {
  import opened Dicts
  import opened PartitionNames
  import opened CommandRunner

  /**
   * How far each disk has been wiped (0 to 3), how many partitions it has, which nodes exist, and which of
   * them have been formatted or put into an array.
   */
  datatype World = World(stage: map<string, int>, count: map<string, int>, nodes: set<string>, used: set<string>)
  {
    function Stage(d: string): int {
      if d in stage then stage[d] else 0
    }

    function Count(d: string): int {
      if d in count then count[d] else 0
    }
  }

  const UNTOUCHED := World(map[], map[], {}, {})

  /** The nodes exist, are listed once, and have not been consumed. */
  predicate Available(w: World, nodes: seq<string>) {
    Distinct(nodes) && forall i :: 0 <= i < |nodes| ==> nodes[i] in w.nodes && nodes[i] !in w.used
  }

  /** The rules: what a command may name, given what happened before it. */
  predicate Allowed(targets: set<string>, w: World, c: Command) {
    match c
    case Wipefs(d) => d in targets && w.Stage(d) == 0
    case ZapAll(d) => d in targets && w.Stage(d) == 1
    case ClearTable(d) => d in targets && w.Stage(d) == 2
    case NewPartition(d, num, _, _, _) =>
      && d in targets && (forall e :: e in targets ==> w.Stage(e) == 3)
      && num == w.Count(d) + 1 && num > 0 && PartName(d, num) !in w.nodes
    case PartProbe(d) => d in targets
    case Settle => true
    case Mkfs(_, _, _, nodes) => nodes != [] && Available(w, nodes)
    case MdCreate(md, _, members) => members != [] && Available(w, members) && md !in w.nodes
    case MountTop(n) => n in w.nodes
    case CreateSubvolume(n, _) => n in w.nodes
    case UmountTop(n) => n in w.nodes
    case Mount(n, _, _) => n in w.nodes
  }

  function Elements(s: seq<string>): set<string> {
    set x | x in s
  }

  function Next(w: World, c: Command): World {
    match c
    case Wipefs(d) => w.(stage := w.stage[d := 1])
    case ZapAll(d) => w.(stage := w.stage[d := 2])
    case ClearTable(d) => w.(stage := w.stage[d := 3])
    case NewPartition(d, num, _, _, _) =>
      if num < 0 then w else w.(count := w.count[d := num], nodes := w.nodes + {PartName(d, num)})
    case Mkfs(_, _, _, nodes) => w.(used := w.used + Elements(nodes))
    case MdCreate(md, _, members) => w.(nodes := w.nodes + {md}, used := w.used + Elements(members))
    case _ => w
  }

  predicate Safe(targets: set<string>, w: World, trace: seq<Command>)
    decreases |trace|
  {
    trace == [] || (Allowed(targets, w, trace[0]) && Safe(targets, Next(w, trace[0]), trace[1..]))
  }

  function AfterTrace(w: World, trace: seq<Command>): World
    decreases |trace|
  {
    if trace == [] then w else AfterTrace(Next(w, trace[0]), trace[1..])
  }

  lemma {:induction false} SafeConcat(targets: set<string>, w: World, x: seq<Command>, y: seq<Command>)
    ensures Safe(targets, w, x + y) <==> Safe(targets, w, x) && Safe(targets, AfterTrace(w, x), y)
    ensures AfterTrace(w, x + y) == AfterTrace(AfterTrace(w, x), y)
    decreases |x|
  {
    if x == [] {
      assert x + y == y;
    } else {
      assert (x + y)[1..] == x[1..] + y;
      SafeConcat(targets, Next(w, x[0]), x[1..], y);
    }
  }

  // ---- From programs to traces ----

  /** The commands of a step when nothing fails. */
  function StepCommands(step: Step): seq<Command> {
    match step
    case Run(c) => [c]
    case Guarded(body, cleanup) => body + [cleanup]
    case Abort => []
  }

  predicate Aborts(prog: seq<Step>) {
    Abort in prog
  }

  /** The commands of a program when nothing fails, up to its first exception. */
  function Commands(prog: seq<Step>): seq<Command>
    decreases |prog|
  {
    if prog == [] || prog[0].Abort? then [] else StepCommands(prog[0]) + Commands(prog[1..])
  }

  lemma {:induction false} CommandsConcat(p: seq<Step>, q: seq<Step>)
    ensures Commands(p + q) == Commands(p) + if Aborts(p) then [] else Commands(q)
    decreases |p|
  {
    if p == [] {
      assert p + q == q;
    } else {
      assert (p + q)[1..] == p[1..] + q;
      CommandsConcat(p[1..], q);
      assert Aborts(p) <==> p[0].Abort? || Aborts(p[1..]);
    }
  }

  /** A program in pieces raises exactly if one of its pieces does. */
  lemma {:induction false} FlattenAborts(progs: seq<seq<Step>>)
    ensures Aborts(Flatten(progs)) <==> exists i :: 0 <= i < |progs| && Aborts(progs[i])
    decreases |progs|
  {
    if progs != [] {
      var n := |progs| - 1;
      FlattenAborts(progs[..n]);
      assert Aborts(Flatten(progs)) <==> Aborts(Flatten(progs[..n])) || Aborts(progs[n]);
      if i :| 0 <= i < n && Aborts(progs[..n][i]) { assert Aborts(progs[i]); }
    }
  }

  /** Guarded commands only create subvolumes on one node, and clean up by unmounting it. */
  predicate WellGuarded(step: Step) {
    step.Guarded? ==>
      && step.cleanup.UmountTop?
      && forall i :: 0 <= i < |step.body| ==> step.body[i].CreateSubvolume? && step.body[i].node == step.cleanup.node
  }

  predicate AllWellGuarded(prog: seq<Step>) {
    forall i :: 0 <= i < |prog| ==> WellGuarded(prog[i])
  }

  lemma {:induction false} BodySafe(targets: set<string>, w: World, body: seq<Command>, node: string, fails: Fails,
                                    n: int)
    requires forall i :: 0 <= i < |body| ==> body[i].CreateSubvolume? && body[i].node == node
    requires node in w.nodes
    ensures Safe(targets, w, ExecBody(body, fails, n).trace)
    ensures AfterTrace(w, ExecBody(body, fails, n).trace) == w
    decreases |body|
  {
    if body != [] {
      assert Allowed(targets, w, body[0]) && Next(w, body[0]) == w;
      assert [body[0]][1..] == [];
      if !fails(n) {
        BodySafe(targets, w, body[1..], node, fails, n + 1);
        SafeConcat(targets, w, [body[0]], ExecBody(body[1..], fails, n + 1).trace);
      }
    }
  }

  lemma StepSafe(targets: set<string>, w: World, step: Step, fails: Fails, n: int)
    requires WellGuarded(step) && Safe(targets, w, StepCommands(step))
    ensures Safe(targets, w, ExecStep(step, fails, n).trace)
  {
    if step.Guarded? {
      var node := step.cleanup.node;
      SafeConcat(targets, w, step.body, [step.cleanup]);
      assert node in w.nodes by {
        if step.body == [] {
          assert Allowed(targets, w, step.cleanup);
        } else {
          assert Allowed(targets, w, step.body[0]);
        }
      }
      var o := ExecBody(step.body, fails, n);
      BodySafe(targets, w, step.body, node, fails, n);
      SafeConcat(targets, w, o.trace, [step.cleanup]);
      assert [step.cleanup][1..] == [];
    }
  }

  lemma {:induction false} BodyDone(body: seq<Command>, fails: Fails, n: int)
    requires ExecBody(body, fails, n).ok
    ensures ExecBody(body, fails, n).trace == body
    decreases |body|
  {
    if body != [] { BodyDone(body[1..], fails, n + 1); }
  }

  lemma StepDone(step: Step, fails: Fails, n: int)
    requires ExecStep(step, fails, n).ok
    ensures ExecStep(step, fails, n).trace == StepCommands(step) && !step.Abort?
  {
    if step.Guarded? { BodyDone(step.body, fails, n); }
  }

  lemma CommandsCons(prog: seq<Step>)
    requires prog != [] && !prog[0].Abort?
    ensures Commands(prog) == StepCommands(prog[0]) + Commands(prog[1..])
    ensures Aborts(prog) <==> Aborts(prog[1..])
  {
  }

  /** A complete run issues all the commands of its program. */
  lemma {:induction false} RunDone(prog: seq<Step>, fails: Fails, n: int)
    requires Exec(prog, fails, n).ok
    ensures !Aborts(prog) && Exec(prog, fails, n).trace == Commands(prog)
    decreases |prog|
  {
    if prog != [] {
      StepDone(prog[0], fails, n);
      RunDone(prog[1..], fails, n + |ExecStep(prog[0], fails, n).trace|);
      CommandsCons(prog);
    }
  }

  /** No command fails. */
  predicate Never(k: int) {
    false
  }

  lemma {:induction false} QuietBody(body: seq<Command>, n: int)
    ensures ExecBody(body, Never, n) == Outcome(body, true)
    decreases |body|
  {
    if body != [] { QuietBody(body[1..], n + 1); }
  }

  /** When no command fails, a program issues its commands up to the first exception, and completes if there is none. */
  lemma {:induction false} QuietRun(prog: seq<Step>, n: int)
    ensures Exec(prog, Never, n) == Outcome(Commands(prog), !Aborts(prog))
    decreases |prog|
  {
    if prog != [] && !prog[0].Abort? {
      if prog[0].Guarded? { QuietBody(prog[0].body, n); }
      QuietRun(prog[1..], n + |ExecStep(prog[0], Never, n).trace|);
      CommandsCons(prog);
    }
  }

  /** A program that raises never completes, and what follows it is never reached. */
  lemma AbortStops(p: seq<Step>, q: seq<Step>, fails: Fails, n: int)
    requires Aborts(p)
    ensures !Exec(p, fails, n).ok && Exec(p + q, fails, n) == Exec(p, fails, n)
  {
    if Exec(p, fails, n).ok { RunDone(p, fails, n); }
    ExecConcat(p, q, fails, n);
  }

  lemma FirstStepSafe(targets: set<string>, w: World, prog: seq<Step>, fails: Fails, n: int)
    requires prog != [] && !prog[0].Abort? && WellGuarded(prog[0]) && Safe(targets, w, Commands(prog))
    ensures Safe(targets, w, ExecStep(prog[0], fails, n).trace)
    ensures ExecStep(prog[0], fails, n).ok ==>
              Safe(targets, AfterTrace(w, ExecStep(prog[0], fails, n).trace), Commands(prog[1..]))
  {
    CommandsCons(prog);
    SafeConcat(targets, w, StepCommands(prog[0]), Commands(prog[1..]));
    StepSafe(targets, w, prog[0], fails, n);
    if ExecStep(prog[0], fails, n).ok { StepDone(prog[0], fails, n); }
  }

  /** Whichever commands fail, the trace of a safe program is safe. */
  lemma {:induction false} RunSafe(targets: set<string>, w: World, prog: seq<Step>, fails: Fails, n: int)
    requires AllWellGuarded(prog) && Safe(targets, w, Commands(prog))
    ensures Safe(targets, w, Exec(prog, fails, n).trace)
    decreases |prog|
  {
    hide Allowed, Next;
    if prog != [] && !prog[0].Abort? {
      var o := ExecStep(prog[0], fails, n);
      FirstStepSafe(targets, w, prog, fails, n);
      if o.ok {
        RunSafe(targets, AfterTrace(w, o.trace), prog[1..], fails, n + |o.trace|);
        SafeConcat(targets, w, o.trace, Exec(prog[1..], fails, n + |o.trace|).trace);
      }
    }
  }

  // ---- Safe programs ----

  ghost predicate SafeProg(targets: set<string>, w: World, prog: seq<Step>) {
    AllWellGuarded(prog) && Safe(targets, w, Commands(prog))
  }

  function EndWorld(w: World, prog: seq<Step>): World {
    AfterTrace(w, Commands(prog))
  }

  lemma SafeProgConcat(targets: set<string>, w: World, p: seq<Step>, q: seq<Step>)
    requires SafeProg(targets, w, p) && (!Aborts(p) ==> SafeProg(targets, EndWorld(w, p), q)) && AllWellGuarded(q)
    ensures SafeProg(targets, w, p + q)
    ensures !Aborts(p) ==> EndWorld(w, p + q) == EndWorld(EndWorld(w, p), q)
    ensures Aborts(p + q) <==> Aborts(p) || Aborts(q)
  {
    CommandsConcat(p, q);
    SafeConcat(targets, w, Commands(p), if Aborts(p) then [] else Commands(q));
    assert forall s :: s in p + q <==> s in p || s in q;
    assert forall i :: 0 <= i < |p + q| ==> (p + q)[i] == if i < |p| then p[i] else q[i - |p|];
  }

  lemma OneCommand(targets: set<string>, w: World, c: Command)
    requires Allowed(targets, w, c)
    ensures SafeProg(targets, w, [Run(c)]) && EndWorld(w, [Run(c)]) == Next(w, c) && !Aborts([Run(c)])
  {
    var prog := [Run(c)];
    assert prog[1..] == [] && [c][1..] == [];
    CommandsCons(prog);
    assert Commands(prog) == [c];
    assert AfterTrace(w, [c]) == AfterTrace(Next(w, c), []);
  }

  lemma {:induction false} FlattenWellGuarded(progs: seq<seq<Step>>)
    requires forall i :: 0 <= i < |progs| ==> AllWellGuarded(progs[i])
    ensures AllWellGuarded(Flatten(progs))
    decreases |progs|
  {
    if progs != [] {
      var n := |progs| - 1;
      FlattenWellGuarded(progs[..n]);
      var p, q := Flatten(progs[..n]), progs[n];
      assert forall i :: 0 <= i < |p + q| ==> (p + q)[i] == if i < |p| then p[i] else q[i - |p|];
    }
  }

  /** Piece `i` is safe from every world that `inv` allows before it, and leads to one it allows after it. */
  ghost predicate Keeps(targets: set<string>, inv: (int, World) -> bool, prog: seq<Step>, i: int) {
    AllWellGuarded(prog)
    && forall w {:trigger SafeProg(targets, w, prog)} :: inv(i, w) ==>
        SafeProg(targets, w, prog) && (!Aborts(prog) ==> inv(i + 1, EndWorld(w, prog)))
  }

  /** The loop rule. */
  lemma {:induction false} LoopSafe(targets: set<string>, inv: (int, World) -> bool, progs: seq<seq<Step>>, w: World)
    requires forall i :: 0 <= i < |progs| ==> Keeps(targets, inv, progs[i], i)
    requires inv(0, w)
    ensures SafeProg(targets, w, Flatten(progs))
    ensures !Aborts(Flatten(progs)) ==> inv(|progs|, EndWorld(w, Flatten(progs)))
    decreases |progs|
  {
    if progs != [] {
      var n := |progs| - 1;
      LoopSafe(targets, inv, progs[..n], w);
      assert Keeps(targets, inv, progs[n], n);
      assert !Aborts(Flatten(progs[..n])) ==> SafeProg(targets, EndWorld(w, Flatten(progs[..n])), progs[n]);
      SafeProgConcat(targets, w, Flatten(progs[..n]), progs[n]);
    }
  }
}
