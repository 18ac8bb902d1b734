// How the shell wires the commands of a pipeline (shell/exec.c): descriptor tables as values, the
// table every command is exec'd with, and who holds the ends of each pipe.
module Pipeline {

  // What an open descriptor refers to. Initial stands for whatever the shell had open.
  datatype Desc = Initial(n: nat) | ReadEnd(p: nat) | WriteEnd(p: nat) | InFile(name: string) | OutFile(name: string)

  type Table = map<nat, Desc>

  datatype Program = Program(argv: seq<string>, eargv: seq<string>, inFile: string, outFile: string, errFile: string)

  // struct cmd: EXEC, REDIR, BACK, PIPE.
  datatype Cmd = Exec(e: Program) | Redir(e: Program) | Back(c: Cmd) | Pipe(l: Cmd, r: Cmd)

  // The files that open(2) would open for reading, and for writing or creating.
  datatype Files = Files(readable: set<string>, writable: set<string>)

  // How a process that runs one command ends up: replaced by the program, exited because there is
  // no program to run, or exited because a file could not be opened.
  datatype Fate = Execed | Nothing | CannotOpen

  datatype Leaf = Leaf(e: Program, fate: Fate, fds: Table)

  // The commands' processes in pipeline order, the tables of the processes that wait for them, and
  // the next unused pipe.
  datatype Outcome = Outcome(leaves: seq<Leaf>, waiting: seq<Table>, next: nat)

  // ---------------------------------------------------------------- descriptors

  lemma {:induction false} RangeFits(keys: set<nat>, k: nat)
    requires forall j: nat :: j < k ==> j in keys
    ensures k <= |keys|
  {
    if k > 0 {
      var fewer := keys - {k - 1};
      assert forall j: nat :: j < k - 1 ==> j in fewer;
      RangeFits(fewer, k - 1);
    }
  }

  // The descriptor that open, pipe and dup return: the lowest one that is not open.
  function LowestFrom(t: Table, k: nat): (fd: nat)
    requires forall j: nat :: j < k ==> j in t
    ensures fd !in t && forall j: nat :: j < fd ==> j in t
    decreases |t.Keys| - k
  {
    RangeFits(t.Keys, k);
    if k in t then RangeFits(t.Keys, k + 1); LowestFrom(t, k + 1) else k
  }

  function Lowest(t: Table): (fd: nat)
    ensures fd !in t && forall j: nat :: j < fd ==> j in t
  {
    LowestFrom(t, 0)
  }

  // open, dup2 to target, close.
  function OpenTo(t: Table, d: Desc, target: nat): Table {
    var fd := Lowest(t);
    var t1 := t[fd := d];
    t1[target := t1[fd]] - {fd}
  }

  // That works exactly when the file does not get the target's own number.
  lemma OpenToExact(t: Table, d: Desc, target: nat)
    ensures OpenTo(t, d, target) == t[target := d] <==> Lowest(t) != target
  {
    if Lowest(t) == target {
      assert target !in OpenTo(t, d, target);
    } else {
      assert OpenTo(t, d, target) == t[target := d];
    }
  }

  // redirect_stdin, redirect_stdout and redirect_stderr in that order; false if a file cannot be opened.
  function Redirect(files: Files, e: Program, t: Table): (bool, Table)
    requires 0 in t && 1 in t && 2 in t
  {
    if e.inFile != "" && e.inFile !in files.readable then (false, t)
    else
      var t1 := if e.inFile == "" then t else OpenTo(t, InFile(e.inFile), 0);
      if e.outFile != "" && e.outFile !in files.writable then (false, t1)
      else
        var t2 := if e.outFile == "" then t1 else OpenTo(t1, OutFile(e.outFile), 1);
        if e.errFile == "" then (true, t2)
        else if e.errFile == "&1" then (true, if 1 in t2 then t2[2 := t2[1]] else t2)
        else if e.errFile !in files.writable then (false, t2)
        else (true, OpenTo(t2, OutFile(e.errFile), 2))
  }

  predicate Opens(files: Files, e: Program) {
    && (e.inFile == "" || e.inFile in files.readable)
    && (e.outFile == "" || e.outFile in files.writable)
    && (e.errFile == "" || e.errFile == "&1" || e.errFile in files.writable)
  }

  // The table that the redirections ask for: stderr may follow stdout, redirected or not.
  function Redirected(e: Program, t: Table): Table
    requires 1 in t
  {
    var t1 := if e.inFile == "" then t else t[0 := InFile(e.inFile)];
    var t2 := if e.outFile == "" then t1 else t1[1 := OutFile(e.outFile)];
    if e.errFile == "" then t2
    else if e.errFile == "&1" then t2[2 := t2[1]]
    else t2[2 := OutFile(e.errFile)]
  }

  predicate Standard(t: Table) { 0 in t && 1 in t && 2 in t }

  lemma RedirectMeaning(files: Files, e: Program, t: Table)
    requires Standard(t)
    ensures Redirect(files, e, t).0 <==> Opens(files, e)
    ensures Opens(files, e) ==> Redirect(files, e, t).1 == Redirected(e, t)
    ensures Redirect(files, e, t).1.Keys == t.Keys == Redirected(e, t).Keys
  {
    hide OpenTo, Lowest;
    assert Lowest(t) !in t;
    OpenToExact(t, InFile(e.inFile), 0);
    var t1 := if e.inFile == "" then t else t[0 := InFile(e.inFile)];
    assert t1.Keys == t.Keys && Lowest(t1) !in t1;
    OpenToExact(t1, OutFile(e.outFile), 1);
    var t2 := if e.outFile == "" then t1 else t1[1 := OutFile(e.outFile)];
    assert t2.Keys == t.Keys && Lowest(t2) !in t2;
    OpenToExact(t2, OutFile(e.errFile), 2);
    assert t2[2 := t2[1]].Keys == t.Keys && t2[2 := OutFile(e.errFile)].Keys == t.Keys;
  }

  // ---------------------------------------------------------------- run_pipe

  // pipe(2): the table with both ends, and their numbers.
  function WithPipe(t: Table, p: nat): (Table, nat, nat) {
    var rd := Lowest(t);
    var t1 := t[rd := ReadEnd(p)];
    var wr := Lowest(t1);
    (t1[wr := WriteEnd(p)], rd, wr)
  }

  // The child that runs the left command: close read end, dup2 write end to stdout, close it.
  function LeftTable(t: Table, p: nat): Table {
    var (t1, rd, wr) := WithPipe(t, p);
    var t2 := t1 - {rd};
    t2[1 := WriteEnd(p)] - {wr}
  }

  function RightTable(t: Table, p: nat): Table {
    var (t1, rd, wr) := WithPipe(t, p);
    var t2 := t1 - {wr};
    t2[0 := ReadEnd(p)] - {rd}
  }

  function ParentTable(t: Table, p: nat): Table {
    var (t1, rd, wr) := WithPipe(t, p);
    t1 - {rd} - {wr}
  }

  // The children get exactly one end each, on the right descriptor, exactly when the shell's own
  // stdin is open; the parent always gets its table back.
  lemma PipeExact(t: Table, p: nat)
    ensures ParentTable(t, p) == t
    ensures LeftTable(t, p) == t[1 := WriteEnd(p)] && RightTable(t, p) == t[0 := ReadEnd(p)] <==> 0 in t
  {
    hide Lowest;
    var (t1, rd, wr) := WithPipe(t, p);
    assert rd != wr && (0 in t <==> rd != 0);
    assert ParentTable(t, p) == t;
    if 0 in t {
      assert wr != 1;
      assert LeftTable(t, p) == t[1 := WriteEnd(p)];
      assert RightTable(t, p) == t[0 := ReadEnd(p)];
    } else {
      assert 0 !in RightTable(t, p);
    }
  }

  // exec_cmd in a process with table t, with every process it forks, run_pipe included.
  function Run(files: Files, cmd: Cmd, t: Table, next: nat): Outcome
    requires Standard(t)
  {
    match cmd
    case Exec(e) => Outcome([Leaf(e, if e.argv == [] then Nothing else Execed, t)], [], next)
    case Redir(e) =>
      var (ok, t1) := Redirect(files, e, t);
      Outcome([Leaf(e, if !ok then CannotOpen else if e.argv == [] then Nothing else Execed, t1)], [], next)
    case Back(c) => Run(files, c, t, next)
    case Pipe(l, r) =>
      PipeExact(t, next);
      var left := Run(files, l, LeftTable(t, next), next + 1);
      var right := Run(files, r, RightTable(t, next), left.next);
      Outcome(left.leaves + right.leaves, left.waiting + right.waiting + [ParentTable(t, next)], right.next)
  }

  // ---------------------------------------------------------------- what it comes to

  // The commands of a tree in pipeline order, and whether their redirections count.
  function Commands(cmd: Cmd): (cs: seq<Cmd>)
    ensures cs != [] && forall c :: c in cs ==> c.Exec? || c.Redir?
  {
    match cmd
    case Exec(_) => [cmd]
    case Redir(_) => [cmd]
    case Back(c) => Commands(c)
    case Pipe(l, r) => Commands(l) + Commands(r)
  }

  function PipeCount(cmd: Cmd): nat { |Commands(cmd)| - 1 }

  // The pipe between each command and the next.
  function Pipes(cmd: Cmd, next: nat): (ps: seq<nat>)
    ensures |ps| == PipeCount(cmd)
    ensures forall p :: p in ps ==> next <= p < next + PipeCount(cmd)
    ensures forall i, j :: 0 <= i < j < |ps| ==> ps[i] != ps[j]
  {
    match cmd
    case Exec(_) => []
    case Redir(_) => []
    case Back(c) => Pipes(c, next)
    case Pipe(l, r) =>
      var left, right := Pipes(l, next + 1), Pipes(r, next + 1 + PipeCount(l));
      assert forall i :: 0 <= i < |left| ==> left[i] in left;
      assert forall i :: 0 <= i < |right| ==> right[i] in right;
      left + [next] + right
  }

  // Command i reads from the pipe before it and writes to the pipe after it, the first and the last
  // from and to what the shell has; all else is the shell's.
  function Wired(t: Table, ps: seq<nat>, i: nat): (w: Table)
    requires i <= |ps| && 0 in t && 1 in t
    ensures w.Keys == t.Keys
  {
    t[0 := if i == 0 then t[0] else ReadEnd(ps[i - 1])][1 := if i == |ps| then t[1] else WriteEnd(ps[i])]
  }

  // The process of a command that was wired with table t.
  function Expected(files: Files, c: Cmd, t: Table): Leaf
    requires Standard(t) && (c.Exec? || c.Redir?)
  {
    if c.Redir? && !Opens(files, c.e) then Leaf(c.e, CannotOpen, Redirect(files, c.e, t).1)
    else Leaf(c.e, if c.e.argv == [] then Nothing else Execed, if c.Redir? then Redirected(c.e, t) else t)
  }

  ghost predicate WiredRight(files: Files, cmd: Cmd, t: Table, next: nat)
    requires Standard(t)
  {
    var leaves := Run(files, cmd, t, next).leaves;
    && |leaves| == |Commands(cmd)|
    && forall i {:trigger leaves[i]} :: 0 <= i < |leaves| ==>
      leaves[i] == Expected(files, Commands(cmd)[i], Wired(t, Pipes(cmd, next), i))
  }

  lemma RunNext(files: Files, cmd: Cmd, t: Table, next: nat)
    requires Standard(t)
    ensures Run(files, cmd, t, next).next == next + PipeCount(cmd)
  {
    if cmd.Pipe? {
      PipeExact(t, next);
      RunNext(files, cmd.l, LeftTable(t, next), next + 1);
      RunNext(files, cmd.r, RightTable(t, next), Run(files, cmd.l, LeftTable(t, next), next + 1).next);
    }
  }

  // For any tree of commands, every command gets exactly the table it should have.
  lemma {:induction false} RunWires(files: Files, cmd: Cmd, t: Table, next: nat)
    requires Standard(t)
    ensures WiredRight(files, cmd, t, next)
  {
    match cmd {
      case Exec(e) =>
        OneCommand(files, cmd, t, next);
      case Redir(e) =>
        OneCommand(files, cmd, t, next);
      case Back(c) =>
        RunWires(files, c, t, next);
      case Pipe(l, r) =>
        RunWires(files, l, t[1 := WriteEnd(next)], next + 1);
        RunWires(files, r, t[0 := ReadEnd(next)], next + 1 + PipeCount(l));
        PipeWires(files, l, r, t, next);
    }
  }

  lemma {:induction false} OneCommand(files: Files, cmd: Cmd, t: Table, next: nat)
    requires Standard(t) && (cmd.Exec? || cmd.Redir?)
    ensures WiredRight(files, cmd, t, next)
  {
    hide Redirect, Redirected;
    assert Wired(t, [], 0) == t;
    RedirectMeaning(files, cmd.e, t);
  }

  lemma {:induction false} PipeWires(files: Files, l: Cmd, r: Cmd, t: Table, next: nat)
    requires Standard(t)
    requires WiredRight(files, l, t[1 := WriteEnd(next)], next + 1)
    requires WiredRight(files, r, t[0 := ReadEnd(next)], next + 1 + PipeCount(l))
    ensures WiredRight(files, Pipe(l, r), t, next)
  {
    hide Wired, Expected, Commands, Run, LeftTable, RightTable, Pipes;
    var tl, tr, cmd := t[1 := WriteEnd(next)], t[0 := ReadEnd(next)], Pipe(l, r);
    var ls, rs := Run(files, l, tl, next + 1).leaves, Run(files, r, tr, next + 1 + PipeCount(l)).leaves;
    var ps, left, right := Pipes(cmd, next), Pipes(l, next + 1), Pipes(r, next + 1 + PipeCount(l));
    PipeParts(files, l, r, t, next);
    var leaves := ls + rs;
    forall i {:trigger leaves[i]} | 0 <= i < |leaves|
      ensures leaves[i] == Expected(files, Commands(cmd)[i], Wired(t, ps, i))
    {
      if i < |ls| {
        WiredLeft(t, left, next, right, i);
        assert leaves[i] == ls[i] && Commands(cmd)[i] == Commands(l)[i];
      } else {
        WiredRest(t, left, next, right, i - |ls|);
        assert leaves[i] == rs[i - |ls|] && Commands(cmd)[i] == Commands(r)[i - |ls|];
      }
    }
  }

  lemma {:induction false} PipeParts(files: Files, l: Cmd, r: Cmd, t: Table, next: nat)
    requires Standard(t)
    ensures var left := Run(files, l, t[1 := WriteEnd(next)], next + 1);
      var right := Run(files, r, t[0 := ReadEnd(next)], next + 1 + PipeCount(l));
      Run(files, Pipe(l, r), t, next) ==
        Outcome(left.leaves + right.leaves, left.waiting + right.waiting + [t], right.next)
    ensures Commands(Pipe(l, r)) == Commands(l) + Commands(r)
    ensures Pipes(Pipe(l, r), next) == Pipes(l, next + 1) + [next] + Pipes(r, next + 1 + PipeCount(l))
  {
    hide LeftTable, RightTable, ParentTable, Pipes, Commands, Redirect;
    PipeLists(l, r, next);
    PipeExact(t, next);
    RunNext(files, l, t[1 := WriteEnd(next)], next + 1);
  }

  lemma {:induction false} PipeLists(l: Cmd, r: Cmd, next: nat)
    ensures Commands(Pipe(l, r)) == Commands(l) + Commands(r)
    ensures Pipes(Pipe(l, r), next) == Pipes(l, next + 1) + [next] + Pipes(r, next + 1 + PipeCount(l))
  {
  }

  lemma WiredLeft(t: Table, left: seq<nat>, p: nat, right: seq<nat>, i: nat)
    requires Standard(t) && i <= |left|
    ensures Wired(t, left + [p] + right, i) == Wired(t[1 := WriteEnd(p)], left, i)
  {
    var ps := left + [p] + right;
    assert i == 0 || ps[i - 1] == left[i - 1];
    assert ps[i] == if i == |left| then p else left[i];
  }

  lemma WiredRest(t: Table, left: seq<nat>, p: nat, right: seq<nat>, i: nat)
    requires Standard(t) && i <= |right|
    ensures Wired(t, left + [p] + right, |left| + 1 + i) == Wired(t[0 := ReadEnd(p)], right, i)
  {
    var ps := left + [p] + right;
    assert ps[|left| + i] == if i == 0 then p else right[i - 1];
    assert i == |right| || ps[|left| + 1 + i] == right[i];
  }

  // What becomes of a command's process whose stdin and stdout are wired to in and out, and whose
  // other descriptors are those of t: the redirections come in the order stdin, stdout, stderr and
  // end with the first file that cannot be opened.
  ghost predicate Served(files: Files, c: Cmd, t: Table, stdin: Desc, stdout: Desc, leaf: Leaf)
    requires Standard(t) && (c.Exec? || c.Redir?)
  {
    var e := c.e;
    var inOk := c.Exec? || e.inFile == "" || e.inFile in files.readable;
    var outOk := inOk && (c.Exec? || e.outFile == "" || e.outFile in files.writable);
    var ok := outOk && (c.Exec? || e.errFile == "" || e.errFile == "&1" || e.errFile in files.writable);
    && leaf.e == e && leaf.fds.Keys == t.Keys && (forall fd :: fd in t && fd > 2 ==> leaf.fds[fd] == t[fd])
    && leaf.fate == (if !ok then CannotOpen else if e.argv == [] then Nothing else Execed)
    && leaf.fds[0] == (if c.Redir? && inOk && e.inFile != "" then InFile(e.inFile) else stdin)
    && leaf.fds[1] == (if c.Redir? && outOk && e.outFile != "" then OutFile(e.outFile) else stdout)
    && leaf.fds[2] == (
        if c.Exec? || !ok || e.errFile == "" then t[2]
        else if e.errFile == "&1" then leaf.fds[1]
        else OutFile(e.errFile))
  }

  // Every command of a pipeline is served so: stdin is what the shell has or the pipe before it,
  // stdout what the shell has or the pipe after it.
  lemma {:induction false} RunServes(files: Files, cmd: Cmd, t: Table, next: nat, i: nat)
    requires Standard(t) && i < |Commands(cmd)|
    ensures |Run(files, cmd, t, next).leaves| == |Commands(cmd)|
    ensures var ps := Pipes(cmd, next);
      Served(files, Commands(cmd)[i], t, if i == 0 then t[0] else ReadEnd(ps[i - 1]),
             if i == |ps| then t[1] else WriteEnd(ps[i]), Run(files, cmd, t, next).leaves[i])
  {
    hide Run, Commands, Pipes, Redirect, Redirected, Served;
    RunWires(files, cmd, t, next);
    var ps := Pipes(cmd, next);
    var stdin, stdout := if i == 0 then t[0] else ReadEnd(ps[i - 1]), if i == |ps| then t[1] else WriteEnd(ps[i]);
    assert Wired(t, ps, i) == t[0 := stdin][1 := stdout];
    ExpectedServed(files, Commands(cmd)[i], t, stdin, stdout);
  }

  lemma ExpectedServed(files: Files, c: Cmd, t: Table, stdin: Desc, stdout: Desc)
    requires Standard(t) && (c.Exec? || c.Redir?)
    ensures Served(files, c, t, stdin, stdout, Expected(files, c, t[0 := stdin][1 := stdout]))
  {
    hide OpenTo, Lowest;
    var w := t[0 := stdin][1 := stdout];
    if c.Redir? {
      RedirectMeaning(files, c.e, w);
      if !Opens(files, c.e) { FailedTable(files, c.e, w); }
    }
  }

  // How far the redirections got when a file could not be opened.
  lemma FailedTable(files: Files, e: Program, t: Table)
    requires Standard(t) && !Opens(files, e)
    ensures var inOk := e.inFile == "" || e.inFile in files.readable;
      var outOk := inOk && (e.outFile == "" || e.outFile in files.writable);
      var t1 := if inOk && e.inFile != "" then t[0 := InFile(e.inFile)] else t;
      Redirect(files, e, t).1 == if outOk && e.outFile != "" then t1[1 := OutFile(e.outFile)] else t1
  {
    hide OpenTo, Lowest;
    assert Lowest(t) !in t;
    OpenToExact(t, InFile(e.inFile), 0);
    var t1 := if e.inFile == "" then t else t[0 := InFile(e.inFile)];
    assert t1.Keys == t.Keys && Lowest(t1) !in t1;
    OpenToExact(t1, OutFile(e.outFile), 1);
  }

  // No command inherits a descriptor too many, or lacks one: whatever it is, the numbers open in it
  // are those that were open in the shell.
  lemma {:induction false} NoLeaks(files: Files, cmd: Cmd, t: Table, next: nat, i: nat)
    requires Standard(t) && i < |Run(files, cmd, t, next).leaves|
    ensures Run(files, cmd, t, next).leaves[i].fds.Keys == t.Keys
  {
    hide Run, Commands, Pipes, Redirect, Redirected;
    RunWires(files, cmd, t, next);
    var w := Wired(t, Pipes(cmd, next), i);
    assert w.Keys == t.Keys;
    RedirectMeaning(files, Commands(cmd)[i].e, w);
  }

  // Command i's stdout and command i + 1's stdin are the two ends of one pipe, unless redirected
  // away.
  lemma {:induction false} Neighbours(files: Files, cmd: Cmd, t: Table, next: nat, i: nat)
    requires Standard(t) && i + 1 < |Commands(cmd)| && Opens(files, Commands(cmd)[i].e)
    requires Opens(files, Commands(cmd)[i + 1].e)
    ensures |Run(files, cmd, t, next).leaves| == |Commands(cmd)|
    ensures var (cs, leaves, p) := (Commands(cmd), Run(files, cmd, t, next).leaves, Pipes(cmd, next)[i]);
      && Standard(leaves[i].fds) && Standard(leaves[i + 1].fds)
      && (cs[i].Exec? || cs[i].e.outFile == "" ==> leaves[i].fds[1] == WriteEnd(p))
      && (cs[i + 1].Exec? || cs[i + 1].e.inFile == "" ==> leaves[i + 1].fds[0] == ReadEnd(p))
      && (cs[i].Redir? && cs[i].e.outFile != "" ==> leaves[i].fds[1] == OutFile(cs[i].e.outFile))
      && (cs[i + 1].Redir? && cs[i + 1].e.inFile != "" ==> leaves[i + 1].fds[0] == InFile(cs[i + 1].e.inFile))
  {
    hide Run, Pipes, Redirect;
    RunWires(files, cmd, t, next);
  }

  // ---------------------------------------------------------------- end of file

  predicate HasPipe(cmd: Cmd) {
    match cmd
    case Exec(_) => false
    case Redir(_) => false
    case Back(c) => HasPipe(c)
    case Pipe(_, _) => true
  }

  // What parse_line builds: every left side is a single command.
  predicate RightNested(cmd: Cmd) {
    match cmd
    case Exec(_) => true
    case Redir(_) => true
    case Back(c) => RightNested(c)
    case Pipe(l, r) => !HasPipe(l) && RightNested(r)
  }

  // No descriptor is the write end of pipe from or a later one.
  ghost predicate NoWriteEnd(t: Table, from: nat) {
    forall fd :: fd in t && t[fd].WriteEnd? ==> t[fd].p < from
  }

  // After the processes are started, the write end of a pipe is held by the command on its left,
  // if it was not redirected elsewhere, and by no other command.
  lemma {:induction false} OnlyTheWriterHolds(files: Files, cmd: Cmd, t: Table, next: nat, i: nat, j: nat)
    requires Standard(t) && NoWriteEnd(t, next) && i < |Commands(cmd)| && j < PipeCount(cmd)
    requires Opens(files, Commands(cmd)[i].e)
    ensures |Run(files, cmd, t, next).leaves| == |Commands(cmd)|
    ensures var (c, fds) := (Commands(cmd)[i], Run(files, cmd, t, next).leaves[i].fds);
      (exists fd :: fd in fds && fds[fd] == WriteEnd(Pipes(cmd, next)[j])) <==> i == j && (c.Exec? || c.e.outFile == "")
  {
    hide Run, Redirect, Redirected, Wired, Pipes, Commands;
    RunWires(files, cmd, t, next);
    var ps := Pipes(cmd, next);
    assert ps[j] in ps;
    HoldsAfterRedirection(Commands(cmd)[i], t, ps, i, j, next);
  }

  lemma HoldsAfterRedirection(c: Cmd, t: Table, ps: seq<nat>, i: nat, j: nat, next: nat)
    requires Standard(t) && NoWriteEnd(t, next) && (c.Exec? || c.Redir?)
    requires i <= |ps| && j < |ps| && ps[j] >= next && (i < |ps| && i != j ==> ps[i] != ps[j])
    ensures var fds := if c.Redir? then Redirected(c.e, Wired(t, ps, i)) else Wired(t, ps, i);
      (exists fd :: fd in fds && fds[fd] == WriteEnd(ps[j])) <==> i == j && (c.Exec? || c.e.outFile == "")
  {
    var w := Wired(t, ps, i);
    var fds := if c.Redir? then Redirected(c.e, w) else w;
    assert forall fd :: fd in fds && fd > 2 ==> fd in t && fds[fd] == t[fd];
    if i == j && (c.Exec? || c.e.outFile == "") {
      assert 1 in fds && fds[1] == WriteEnd(ps[j]);
    }
  }

  lemma {:induction false} PipeWaits(files: Files, cmd: Cmd, t: Table, next: nat)
    requires Standard(t)
    ensures HasPipe(cmd) ==> t in Run(files, cmd, t, next).waiting
    ensures !HasPipe(cmd) ==> Run(files, cmd, t, next).waiting == []
    ensures |Run(files, cmd, t, next).waiting| == PipeCount(cmd)
  {
    hide Pipes, Redirect, LeftTable, RightTable, ParentTable;
    match cmd {
      case Exec(_) =>
      case Redir(_) =>
      case Back(c) => PipeWaits(files, c, t, next);
      case Pipe(l, r) =>
        PipeParts(files, l, r, t, next);
        PipeWaits(files, l, t[1 := WriteEnd(next)], next + 1);
        PipeWaits(files, r, t[0 := ReadEnd(next)], next + 1 + PipeCount(l));
    }
  }

  // The waiting processes hold no write end, so that a reader sees end of file when its writer is
  // done, exactly for the trees in which no pipe is on the left of another.
  lemma {:induction false} WaitersHoldNoWriteEnd(files: Files, cmd: Cmd, t: Table, next: nat, from: nat)
    requires Standard(t) && NoWriteEnd(t, from) && from <= next
    ensures (forall w :: w in Run(files, cmd, t, next).waiting ==> NoWriteEnd(w, from)) <==> RightNested(cmd)
  {
    hide Commands, Pipes, Redirect, LeftTable, RightTable, ParentTable;
    match cmd {
      case Exec(_) =>
      case Redir(_) =>
      case Back(c) => WaitersHoldNoWriteEnd(files, c, t, next, from);
      case Pipe(l, r) =>
        var tl, tr := t[1 := WriteEnd(next)], t[0 := ReadEnd(next)];
        PipeParts(files, l, r, t, next);
        PipeWaits(files, l, tl, next + 1);
        assert tl[1].WriteEnd? && !NoWriteEnd(tl, from);
        WaitersHoldNoWriteEnd(files, r, tr, next + 1 + PipeCount(l), from);
        var left, right := Run(files, l, tl, next + 1).waiting, Run(files, r, tr, next + 1 + PipeCount(l)).waiting;
        assert forall w :: w in left + right + [t] <==> w in left || w in right || w == t;
    }
  }
}
