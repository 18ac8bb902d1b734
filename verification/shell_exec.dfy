// exec_cmd, run_pipe and the redirections of shell/exec.c as they happen: processes with descriptor
// tables that open, dup2, close and pipe change step by step, and that fork copies.
module ShellExec {
  import opened Pipeline

  class Process {
    var fds: Table

    // The result of fork in the child, or the process that the shell starts with.
    constructor (fds: Table)
      ensures this.fds == fds
    {
      this.fds := fds;
    }

    method Open(d: Desc) returns (fd: nat)
      modifies this
      ensures fd == Lowest(old(fds)) && fds == old(fds)[fd := d]
    {
      fd := Lowest(fds);
      fds := fds[fd := d];
    }

    method Dup2(from: nat, to: nat)
      requires from in fds
      modifies this
      ensures fds == old(fds)[to := old(fds)[from]]
    {
      fds := fds[to := fds[from]];
    }

    method Close(fd: nat)
      modifies this
      ensures fds == old(fds) - {fd}
    {
      fds := fds - {fd};
    }

    // redirect_stdin; false when the process exits because the file cannot be opened.
    method RedirectStdin(files: Files, file: string) returns (ok: bool)
      modifies this
      ensures ok <==> file == "" || file in files.readable
      ensures fds == if file == "" || !ok then old(fds) else OpenTo(old(fds), InFile(file), 0)
      ensures 0 in old(fds) && ok && file != "" ==> fds == old(fds)[0 := InFile(file)]
    {
      OpenToExact(fds, InFile(file), 0);
      if |file| > 0 {
        if file !in files.readable {
          return false;
        }
        var fd := Open(InFile(file));
        Dup2(fd, 0);
        Close(fd);
      }
      return true;
    }

    method RedirectStdout(files: Files, file: string) returns (ok: bool)
      modifies this
      ensures ok <==> file == "" || file in files.writable
      ensures fds == if file == "" || !ok then old(fds) else OpenTo(old(fds), OutFile(file), 1)
      ensures 1 in old(fds) && ok && file != "" ==> fds == old(fds)[1 := OutFile(file)]
    {
      OpenToExact(fds, OutFile(file), 1);
      if |file| > 0 {
        if file !in files.writable {
          return false;
        }
        var fd := Open(OutFile(file));
        Dup2(fd, 1);
        Close(fd);
      }
      return true;
    }

    method RedirectStderr(files: Files, file: string) returns (ok: bool)
      requires 1 in fds
      modifies this
      ensures ok <==> file == "" || file == "&1" || file in files.writable
      ensures fds ==
        if file == "" || !ok then old(fds)
        else if file == "&1" then old(fds)[2 := old(fds)[1]]
        else OpenTo(old(fds), OutFile(file), 2)
      ensures 2 in old(fds) && ok && file != "" && file != "&1" ==> fds == old(fds)[2 := OutFile(file)]
    {
      OpenToExact(fds, OutFile(file), 2);
      if |file| > 0 {
        if file == "&1" {
          Dup2(1, 2);
        } else {
          if file !in files.writable {
            return false;
          }
          var fd := Open(OutFile(file));
          Dup2(fd, 2);
          Close(fd);
        }
      }
      return true;
    }
  }

  class Shell {
    const files: Files
    var next: nat                   // pipes made so far

    constructor (files: Files)
      ensures this.files == files && next == 0
    {
      this.files := files;
      next := 0;
    }

    // run_exec: the end of the process.
    method RunExec(p: Process, e: Program) returns (leaf: Leaf)
      ensures leaf == Leaf(e, if e.argv == [] then Nothing else Execed, p.fds)
    {
      if e.argv == [] {
        return Leaf(e, Nothing, p.fds);
      }
      return Leaf(e, Execed, p.fds);
    }

    // The REDIR case of exec_cmd.
    method RunRedir(p: Process, e: Program) returns (leaf: Leaf)
      requires Standard(p.fds)
      modifies p
      ensures var (ok, t) := Redirect(files, e, old(p.fds));
        leaf == Leaf(e, if !ok then CannotOpen else if e.argv == [] then Nothing else Execed, t)
    {
      ghost var t := p.fds;
      hide OpenTo, Lowest;
      var ok := p.RedirectStdin(files, e.inFile);
      if !ok {
        return Leaf(e, CannotOpen, p.fds);
      }
      StaysStandard(t, InFile(e.inFile), 0);
      ghost var t1 := p.fds;
      ok := p.RedirectStdout(files, e.outFile);
      if !ok {
        return Leaf(e, CannotOpen, p.fds);
      }
      StaysStandard(t1, OutFile(e.outFile), 1);
      ok := p.RedirectStderr(files, e.errFile);
      if !ok {
        return Leaf(e, CannotOpen, p.fds);
      }
      leaf := RunExec(p, e);
    }

    // exec_cmd. The forked processes are run one after the other: they share no table.
    method ExecCmd(p: Process, cmd: Cmd) returns (leaves: seq<Leaf>, waiting: seq<Table>)
      requires Standard(p.fds)
      modifies this, p
      ensures Outcome(leaves, waiting, next) == Run(files, cmd, old(p.fds), old(next))
      ensures |leaves| == |Commands(cmd)|
      ensures var t, ps := old(p.fds), Pipes(cmd, old(next));
        forall i {:trigger leaves[i]} :: 0 <= i < |leaves| ==>
          Served(files, Commands(cmd)[i], t, if i == 0 then t[0] else ReadEnd(ps[i - 1]),
                 if i == |ps| then t[1] else WriteEnd(ps[i]), leaves[i])
      decreases cmd, 1
    {
      hide Redirect, Served;
      AllServed(files, cmd, p.fds, next);
      match cmd {
        case Exec(e) =>
          var leaf := RunExec(p, e);
          return [leaf], [];
        case Redir(e) =>
          var leaf := RunRedir(p, e);
          return [leaf], [];
        case Back(c) =>
          leaves, waiting := ExecCmd(p, c);
        case Pipe(l, r) =>
          leaves, waiting := RunPipe(p, l, r, cmd);
      }
    }

    // run_pipe.
    method RunPipe(p: Process, l: Cmd, r: Cmd, ghost cmd: Cmd) returns (leaves: seq<Leaf>, waiting: seq<Table>)
      requires Standard(p.fds) && cmd == Pipe(l, r)
      modifies this, p
      ensures Outcome(leaves, waiting, next) == Run(files, cmd, old(p.fds), old(next))
      ensures p.fds == old(p.fds)
      decreases cmd, 0
    {
      hide LeftTable, RightTable, ParentTable, Redirect, Lowest;
      ghost var t := p.fds;
      PipeExact(t, next);
      var rd := p.Open(ReadEnd(next));
      var wr := p.Open(WriteEnd(next));
      ghost var pipe := next;
      next := next + 1;
      var left := new Process(p.fds);
      LeftSide(left, rd, wr, t, pipe);
      var leftLeaves, leftWaiting := ExecCmd(left, l);
      var right := new Process(p.fds);
      RightSide(right, rd, wr, t, pipe);
      var rightLeaves, rightWaiting := ExecCmd(right, r);
      p.Close(rd);
      p.Close(wr);
      ParentIs(t, pipe);
      return leftLeaves + rightLeaves, leftWaiting + rightWaiting + [p.fds];
    }

    // What the left child does before it runs its command.
    method LeftSide(child: Process, rd: nat, wr: nat, ghost t: Table, ghost pipe: nat)
      requires (child.fds, rd, wr) == WithPipe(t, pipe)
      modifies child
      ensures child.fds == LeftTable(t, pipe)
    {
      hide Lowest;
      child.Close(rd);
      child.Dup2(wr, 1);
      child.Close(wr);
    }

    method RightSide(child: Process, rd: nat, wr: nat, ghost t: Table, ghost pipe: nat)
      requires (child.fds, rd, wr) == WithPipe(t, pipe)
      modifies child
      ensures child.fds == RightTable(t, pipe)
    {
      hide Lowest;
      child.Close(wr);
      child.Dup2(rd, 0);
      child.Close(rd);
    }
  }

  lemma AllServed(files: Files, cmd: Cmd, t: Table, next: nat)
    requires Standard(t)
    ensures var leaves, ps := Run(files, cmd, t, next).leaves, Pipes(cmd, next);
      && |leaves| == |Commands(cmd)|
      && forall i {:trigger leaves[i]} :: 0 <= i < |leaves| ==>
        Served(files, Commands(cmd)[i], t, if i == 0 then t[0] else ReadEnd(ps[i - 1]),
               if i == |ps| then t[1] else WriteEnd(ps[i]), leaves[i])
  {
    hide Served, Run, Commands, Pipes;
    RunServes(files, cmd, t, next, 0);
    var leaves, ps := Run(files, cmd, t, next).leaves, Pipes(cmd, next);
    forall i {:trigger leaves[i]} | 0 <= i < |leaves|
      ensures Served(files, Commands(cmd)[i], t, if i == 0 then t[0] else ReadEnd(ps[i - 1]),
                     if i == |ps| then t[1] else WriteEnd(ps[i]), leaves[i])
    {
      RunServes(files, cmd, t, next, i);
    }
  }

  lemma ParentIs(t: Table, pipe: nat)
    ensures var (t1, rd, wr) := WithPipe(t, pipe);
      ParentTable(t, pipe) == t1 - {rd} - {wr}
  {
  }

  lemma StaysStandard(t: Table, d: Desc, target: nat)
    requires Standard(t) && target <= 2
    ensures Standard(OpenTo(t, d, target))
  {
    OpenToExact(t, d, target);
  }
}
