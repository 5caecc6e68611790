/** The shell session: the `ShellEmulator` object, whose methods move the
    current position and update the ownership overlay in place, and the
    command loop of `main` that drives it from a startup script. */
module Shell {

  import opened Options
  import opened Text
  import opened PosixPaths
  import opened ZipTree
  import opened Navigation
  import opened Ownership
  import opened Listing
  import opened Session

  class ShellEmulator {
    const username: string
    /** The name of the archive file itself, which `zipfile.Path.name` reports at the root. */
    const archiveName: string
    /** The archive's entry names, as `infolist` gives them when it is opened. */
    const entries: set<string>

    var pwd: string
    var owners: map<string, Owner>
    /** The journal rows written by `log_action` during this session. */
    var log: seq<Record>

    function Names(): set<string>
    {
      NameSet(entries)
    }

    function Context(): Env
    {
      Env(Names(), username, archiveName)
    }

    function Snapshot(): State
      reads this
    {
      State(pwd, owners, log)
    }

    /** The current position is the root or an existing directory. */
    ghost predicate Valid()
      reads this
    {
      IsCwd(Names(), pwd)
    }

    /** The ownership part of `__init__`: start at the root, with every
        archive filename owned by the user and the user's group. */
    constructor (username: string, archiveName: string, entries: set<string>)
      ensures Valid()
      ensures this.username == username && this.archiveName == archiveName && this.entries == entries
      ensures pwd == [] && owners == Seed(entries, username) && log == []
    {
      this.username := username;
      this.archiveName := archiveName;
      this.entries := entries;
      pwd := [];
      owners := map e | e in entries :: Owner(username, username + "_group");
      log := [];
    }

    /** `resolve_path`: walk the parts from the current position; changes
        nothing. */
    method ResolvePath(parts: seq<string>) returns (r: Resolution)
      ensures r == Resolve(Names(), pwd, parts)
    {
      var names := Names();
      var temp := pwd;
      var i := 0;
      while i < |parts|
        invariant 0 <= i <= |parts|
        invariant Resolve(names, pwd, parts) == Resolve(names, temp, parts[i..])
      {
        var part := parts[i];
        assert parts[i..][0] == part && parts[i..][1..] == parts[i + 1..];
        if part == "/" {
          temp := [];
        } else if part == ".." {
          temp := if temp != [] then Parent(temp) else temp;
        } else if part == "." {
        } else {
          temp := ResolveDir(names, Join(temp, part));
          if temp !in names {
            return NotFound(part);
          }
        }
        i := i + 1;
      }
      return Found(temp);
    }

    /** `ls`: one line per child of the current position, with the owner
        record when `verbose`. Changes nothing. */
    method Ls(verbose: bool) returns (lines: set<LsLine>)
      requires Valid()
      ensures lines == LsLines(Names(), archiveName, username, pwd, owners, verbose)
    {
      var names := Names();
      var todo := names;
      lines := {};
      while todo != {}
        invariant todo <= names
        invariant lines == LinesOf(archiveName, username, owners, Children(names, pwd) - todo, verbose)
        decreases todo
      {
        var item :| item in todo;
        VisitOne(names, pwd, todo, item);
        if IsChild(pwd, item) {
          LinesOfAddOne(archiveName, username, owners, Children(names, pwd) - todo, item, verbose);
          lines := lines + {LineOf(archiveName, username, owners, item, verbose)};
        }
        todo := todo - {item};
      }
      assert Children(names, pwd) - todo == Children(names, pwd);
    }

    /** `cd`: move to `path` only when it exists and is a directory; return
        the new position, or `None` and stay put. */
    method Cd(path: Option<string>) returns (r: Option<string>)
      requires Valid()
      modifies this`pwd
      ensures Valid()
      ensures pwd == CdTarget(Names(), old(pwd), path)
      ensures r.Some? <==> path.Some? && path.value in Names() && IsDir(path.value)
      ensures r.Some? ==> r.value == pwd
    {
      if path.None? || path.value !in Names() || !IsDir(path.value) {
        return None;
      }
      pwd := path.value;
      return Some(pwd);
    }

    /** `chown`: resolve the path and, if it resolves, record (user, group)
        under the terminal name of the position it reached. */
    method Chown(parts: seq<string>, user: string, group: string)
      modifies this`owners
      ensures owners == ChownOwners(Names(), archiveName, pwd, old(owners), parts, user, group)
    {
      var resolved := ResolvePath(parts);
      if resolved.Found? {
        owners := owners[ItemName(resolved.node, archiveName) := Owner(user, group)];
      }
    }

    /** `log_action`: append one journal row. */
    method LogAction(command: string, args: string)
      modifies this`log
      ensures log == old(log) + [Record(username, command, args)]
    {
      log := log + [Record(username, command, args)];
    }
  }

  /** One command of `main`'s loop, after its line has been journaled. */
  method DispatchCommand(shell: ShellEmulator, cmd: string, args: seq<string>) returns (control: Control)
    requires shell.Valid()
    modifies shell
    ensures shell.Valid()
    ensures Transition(shell.Snapshot(), control) == Dispatch(shell.Context(), old(shell.Snapshot()), cmd, args)
  {
    if cmd == "exit" {
      return Exit;
    } else if cmd == "ls" {
      var listing := shell.Ls("-l" in args);
    } else if cmd == "cd" {
      if args != [] {
        var path := shell.ResolvePath(ParsePath(args[0]));
        if path.Found? {
          var moved := shell.Cd(Some(path.node));
        }
      }
    } else if cmd == "chown" {
      if |args| == 2 {
        var pieces := Split(args[0], ':');
        if |pieces| != 2 {
          return Fault;
        }
        shell.Chown(ParsePath(args[1]), pieces[0], pieces[1]);
      }
    } else if cmd == "cal" {
      if args != [] && ParseInt(args[0]).None? {
        return Fault;
      }
    }
    return Continue;
  }

  /** One line of `main`'s loop: skip it if blank, otherwise split it,
      journal it, and run its command. */
  method ExecuteLine(shell: ShellEmulator, command: string) returns (control: Control)
    requires shell.Valid()
    modifies shell
    ensures shell.Valid()
    ensures Transition(shell.Snapshot(), control) == ExecLine(shell.Context(), old(shell.Snapshot()), command)
  {
    if IsBlank(command) {
      return Continue;
    }
    var parts := Words(command);
    var cmd, args := parts[0], parts[1..];
    shell.LogAction(cmd, JoinWith(args, ' '));
    control := DispatchCommand(shell, cmd, args);
  }

  /** The loop of `main`: take the script lines first to last until
      `exit`, an escaped `ValueError`, or the end of the script, where the
      shell would start prompting for input. */
  method RunScript(shell: ShellEmulator, script: seq<string>) returns (outcome: Outcome)
    requires shell.Valid()
    modifies shell
    ensures shell.Valid()
    ensures Finish(shell.Snapshot(), outcome) == Run(shell.Context(), old(shell.Snapshot()), script)
  {
    var commands := script;
    while commands != []
      invariant shell.Valid()
      invariant Run(shell.Context(), old(shell.Snapshot()), script) == Run(shell.Context(), shell.Snapshot(), commands)
      decreases |commands|
    {
      var command := commands[0];
      commands := commands[1..];
      var control := ExecuteLine(shell, command);
      if control == Exit {
        return Exited;
      } else if control == Fault {
        return Crashed;
      }
    }
    return AwaitingInput;
  }
}
