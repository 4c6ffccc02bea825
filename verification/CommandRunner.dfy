/** The commands the installer issues, runs of them that may fail at any point, and the object that issues them. */
module CommandRunner {

  datatype Command =
    | Wipefs(disk: string)
    | ZapAll(disk: string)
    | ClearTable(disk: string)
    | NewPartition(disk: string, num: int, size: string, typeCode: string, partLabel: string)
    | PartProbe(disk: string)
    | Settle
    | Mkfs(tool: string, profile: string, fsLabel: string, nodes: seq<string>)
    | MdCreate(md: string, level: string, members: seq<string>)
    | MountTop(node: string)
    | CreateSubvolume(node: string, name: string)
    | UmountTop(node: string)
    | Mount(node: string, options: string, target: string)

  /**
   * A step of a program: one command; commands with a clean-up that is issued whether or not they
   * fail; or an exception raised between two commands.
   */
  datatype Step =
    | Run(cmd: Command)
    | Guarded(body: seq<Command>, cleanup: Command)
    | Abort

  /** What a run issued, and whether it reached the end. */
  datatype Outcome = Outcome(trace: seq<Command>, ok: bool)

  /** Which of the commands issued in a run fail, by position. */
  type Fails = int -> bool

  function Prepend(cmds: seq<Command>, o: Outcome): Outcome {
    Outcome(cmds + o.trace, o.ok)
  }

  function ExecBody(body: seq<Command>, fails: Fails, n: int): Outcome
    decreases |body|
  {
    if body == [] then Outcome([], true)
    else if fails(n) then Outcome([body[0]], false)
    else Prepend([body[0]], ExecBody(body[1..], fails, n + 1))
  }

  function ExecStep(step: Step, fails: Fails, n: int): Outcome {
    match step
    case Run(cmd) => Outcome([cmd], !fails(n))
    case Abort => Outcome([], false)
    case Guarded(body, cleanup) =>
      var o := ExecBody(body, fails, n);
      Outcome(o.trace + [cleanup], o.ok && !fails(n + |o.trace|))
  }

  /** Running a program after `n` commands have been issued. */
  function Exec(prog: seq<Step>, fails: Fails, n: int): Outcome
    decreases |prog|
  {
    if prog == [] then Outcome([], true)
    else
      var o := ExecStep(prog[0], fails, n);
      if o.ok then Prepend(o.trace, Exec(prog[1..], fails, n + |o.trace|)) else o
  }

  /** `o`, and after it, if it succeeded, `next`. */
  function Then(o: Outcome, next: Outcome): Outcome {
    if o.ok then Prepend(o.trace, next) else o
  }

  lemma ThenAssociates(a: Outcome, b: Outcome, c: Outcome)
    ensures Then(a, Then(b, c)) == Then(Then(a, b), c)
  {
    assert a.trace + (b.trace + c.trace) == (a.trace + b.trace) + c.trace;
  }

  lemma {:induction false} ExecConcat(p: seq<Step>, q: seq<Step>, fails: Fails, n: int)
    ensures Exec(p + q, fails, n) == Then(Exec(p, fails, n), Exec(q, fails, n + |Exec(p, fails, n).trace|))
    decreases |p|
  {
    if p == [] {
      assert p + q == q;
      assert Exec(q, fails, n).trace == [] + Exec(q, fails, n).trace;
    } else {
      var o := ExecStep(p[0], fails, n);
      var m := n + |o.trace|;
      var rest := Exec(p[1..], fails, m);
      assert (p + q)[0] == p[0] && (p + q)[1..] == p[1..] + q;
      ExecConcat(p[1..], q, fails, m);
      if o.ok {
        assert Exec(p + q, fails, n) == Then(o, Exec(p[1..] + q, fails, m));
        ThenAssociates(o, rest, Exec(q, fails, m + |rest.trace|));
        assert Exec(p, fails, n) == Then(o, rest);
      }
    }
  }

  /** `after` is `before` extended by a run of `prog` that ended as `ok` says. */
  ghost predicate Ran(fails: Fails, before: seq<Command>, after: seq<Command>, prog: seq<Step>, ok: bool) {
    var o := Exec(prog, fails, |before|);
    after == before + o.trace && ok == o.ok
  }

  lemma RanNothing(fails: Fails, a: seq<Command>)
    ensures Ran(fails, a, a, [], true)
  {
  }

  lemma RanThen(fails: Fails, a: seq<Command>, b: seq<Command>, c: seq<Command>, p: seq<Step>, q: seq<Step>, ok: bool)
    requires Ran(fails, a, b, p, true) && Ran(fails, b, c, q, ok)
    ensures Ran(fails, a, c, p + q, ok)
  {
    hide Exec;
    ExecConcat(p, q, fails, |a|);
    var o := Exec(p, fails, |a|);
    assert |b| == |a| + |o.trace|;
    assert a + (o.trace + Exec(q, fails, |b|).trace) == (a + o.trace) + Exec(q, fails, |b|).trace;
  }

  lemma RanStopped(fails: Fails, a: seq<Command>, b: seq<Command>, p: seq<Step>, q: seq<Step>)
    requires Ran(fails, a, b, p, false)
    ensures Ran(fails, a, b, p + q, false)
  {
    ExecConcat(p, q, fails, |a|);
  }

  lemma ExecOne(step: Step, fails: Fails, n: int)
    ensures Exec([step], fails, n) == ExecStep(step, fails, n)
  {
    assert [step][1..] == [];
    var o := ExecStep(step, fails, n);
    assert o.trace + [] == o.trace;
  }

  // ---- Programs in pieces ----

  function Flatten(progs: seq<seq<Step>>): seq<Step> {
    if progs == [] then [] else Flatten(progs[..|progs| - 1]) + progs[|progs| - 1]
  }

  lemma FlattenSnoc(progs: seq<seq<Step>>, i: int)
    requires 0 <= i < |progs|
    ensures Flatten(progs[..i + 1]) == Flatten(progs[..i]) + progs[i]
  {
    assert progs[..i + 1][..i] == progs[..i];
  }

  lemma {:induction false} FlattenConcat(p: seq<seq<Step>>, q: seq<seq<Step>>)
    ensures Flatten(p + q) == Flatten(p) + Flatten(q)
  {
    if q == [] {
      assert p + q == p;
    } else {
      var n := |q| - 1;
      assert (p + q)[..|p + q| - 1] == p + q[..n];
      FlattenConcat(p, q[..n]);
    }
  }

  /** Before the first piece. */
  lemma RanNoPiece(fails: Fails, a: seq<Command>, progs: seq<seq<Step>>)
    ensures Ran(fails, a, a, Flatten(progs[..0]), true)
  {
    RanNothing(fails, a);
    assert progs[..0] == [];
  }

  /** The loop over `progs` stopped in the piece after the first `i`. */
  lemma RanStoppedIn(fails: Fails, a: seq<Command>, b: seq<Command>, progs: seq<seq<Step>>, i: int)
    requires 0 <= i < |progs| && Ran(fails, a, b, Flatten(progs[..i + 1]), false)
    ensures Ran(fails, a, b, Flatten(progs), false)
  {
    FlattenConcat(progs[..i + 1], progs[i + 1..]);
    assert progs == progs[..i + 1] + progs[i + 1..];
    RanStopped(fails, a, b, Flatten(progs[..i + 1]), Flatten(progs[i + 1..]));
  }

  /** One more piece of the loop over `progs` has been run. */
  lemma RanPiece(fails: Fails, a: seq<Command>, b: seq<Command>, c: seq<Command>, progs: seq<seq<Step>>, i: int,
                 ok: bool)
    requires 0 <= i < |progs|
    requires Ran(fails, a, b, Flatten(progs[..i]), true) && Ran(fails, b, c, progs[i], ok)
    ensures Ran(fails, a, c, Flatten(progs[..i + 1]), ok)
    ensures !ok ==> Ran(fails, a, c, Flatten(progs), false)
  {
    FlattenSnoc(progs, i);
    RanThen(fails, a, b, c, Flatten(progs[..i]), progs[i], ok);
    if !ok { RanStoppedIn(fails, a, c, progs, i); }
  }

  /** Issues commands one at a time and remembers them. */
  class Runner {
    const fails: Fails
    var trace: seq<Command>

    constructor (fails: Fails)
      ensures this.fails == fails && trace == []
    {
      this.fails := fails;
      trace := [];
    }

    method Issue(cmd: Command) returns (ok: bool)
      modifies this
      ensures Ran(fails, old(trace), trace, [Run(cmd)], ok)
    {
      ok := !fails(|trace|);
      trace := trace + [cmd];
    }

    /** The body of a `try`: stops at the first command that fails. */
    method IssueBody(body: seq<Command>) returns (ok: bool)
      modifies this
      ensures var o := ExecBody(body, fails, |old(trace)|); trace == old(trace) + o.trace && ok == o.ok
    {
      for i := 0 to |body|
        invariant Then(Outcome(trace, true), ExecBody(body[i..], fails, |trace|)) ==
                  Then(Outcome(old(trace), true), ExecBody(body, fails, |old(trace)|))
      {
        assert body[i..][0] == body[i] && body[i..][1..] == body[i + 1..];
        ok := !fails(|trace|);
        ThenAssociates(Outcome(trace, true), Outcome([body[i]], ok), ExecBody(body[i + 1..], fails, |trace| + 1));
        trace := trace + [body[i]];
        if !ok { return; }
      }
      assert body[|body|..] == [];
      ok := true;
    }

    /** `try: body finally: cleanup`. */
    method IssueGuarded(body: seq<Command>, cleanup: Command) returns (ok: bool)
      modifies this
      ensures Ran(fails, old(trace), trace, [Guarded(body, cleanup)], ok)
    {
      ok := IssueBody(body);
      var clean := !fails(|trace|);
      trace := trace + [cleanup];
      ok := ok && clean;
      ExecOne(Guarded(body, cleanup), fails, |old(trace)|);
    }
  }
}
