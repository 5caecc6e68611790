/** The scripted command loop of `main`, as a function of the session
    state: each non-blank line is journaled and then dispatched. */
module Session {

  import opened Options
  import opened Text
  import opened PosixPaths
  import opened ZipTree
  import opened Navigation
  import opened Ownership

  /** What does not change during a session: the archive's names, the
      user, and the archive file's own name. */
  datatype Env = Env(names: set<string>, username: string, archiveName: string)

  /** One journal row: the user, the command word and its arguments joined
      by spaces. The timestamp is not modelled. */
  datatype Record = Record(user: string, command: string, args: string)

  /** The session state the commands read and change. */
  datatype State = State(pwd: string, owners: map<string, Owner>, log: seq<Record>)

  /** After a line: go on, leave the loop on `exit`, or stop because a
      `ValueError` escaped from `chown` or `cal`. */
  datatype Control = Continue | Exit | Fault

  /** Why the loop ended: `exit`, an escaped `ValueError`, or the script ran
      out and the shell would now prompt for input. */
  datatype Outcome = Exited | Crashed | AwaitingInput

  datatype Transition = Transition(state: State, control: Control)

  datatype Finish = Finish(state: State, outcome: Outcome)

  /** The journal row for a split line. */
  function RecordOf(username: string, words: seq<string>): (r: Record)
    requires words != []
    ensures r.user == username && r.command == words[0]
  {
    Record(username, words[0], JoinWith(words[1..], ' '))
  }

  /** A journal row keeps the arguments recoverable: splitting its
      argument column gives back the arguments of the line. */
  lemma RecordArgsSplitBack(username: string, words: seq<string>)
    requires words != [] && forall k :: 0 <= k < |words| ==> IsWord(words[k])
    ensures Words(RecordOf(username, words).args) == words[1..]
  {
    SplitJoinedWords(words[1..]);
  }

  /** The commands that raise: `chown` whose first argument does not split
      into exactly two pieces on `:`, and `cal` with a year that is not an
      integer. */
  predicate Raises(cmd: string, args: seq<string>)
  {
    || (cmd == "chown" && |args| == 2 && |Split(args[0], ':')| != 2)
    || (cmd == "cal" && args != [] && ParseInt(args[0]).None?)
  }

  /** Run one command after it has been journaled. */
  function Dispatch(env: Env, st: State, cmd: string, args: seq<string>): (t: Transition)
    ensures t.state.log == st.log
    ensures cmd != "cd" ==> t.state.pwd == st.pwd
    ensures cmd != "chown" ==> t.state.owners == st.owners
    ensures t.control == Exit <==> cmd == "exit"
    ensures t.control == Fault <==> Raises(cmd, args)
    ensures t.control != Continue ==> t.state == st
    ensures cmd == "chown" && |args| != 2 ==> t == Transition(st, Continue)
    ensures cmd == "cd" && args == [] ==> t.state.pwd == st.pwd
    ensures cmd == "cd" && args != [] ==>
              t.state.pwd == match Resolve(env.names, st.pwd, ParsePath(args[0]))
                             case Found(node) => CdTarget(env.names, st.pwd, Some(node))
                             case NotFound(_) => st.pwd
    ensures cmd == "chown" && |args| == 2 && |Split(args[0], ':')| == 2 ==>
              t.state.owners == ChownOwners(env.names, env.archiveName, st.pwd, st.owners, ParsePath(args[1]),
                                            Split(args[0], ':')[0], Split(args[0], ':')[1])
    ensures IsCwd(env.names, st.pwd) ==> IsCwd(env.names, t.state.pwd)
  {
    if cmd == "exit" then Transition(st, Exit)
    else if cmd == "ls" then Transition(st, Continue)
    else if cmd == "cd" then
      if args == [] then Transition(st, Continue)
      else
        match Resolve(env.names, st.pwd, ParsePath(args[0]))
        case NotFound(_) => Transition(st, Continue)
        case Found(node) => Transition(st.(pwd := CdTarget(env.names, st.pwd, Some(node))), Continue)
    else if cmd == "chown" then
      if |args| != 2 then Transition(st, Continue)
      else
        var pieces := Split(args[0], ':');
        if |pieces| != 2 then Transition(st, Fault)
        else
          var owners := ChownOwners(env.names, env.archiveName, st.pwd, st.owners,
                                    ParsePath(args[1]), pieces[0], pieces[1]);
          Transition(st.(owners := owners), Continue)
    else if cmd == "cal" then
      if args != [] && ParseInt(args[0]).None? then Transition(st, Fault) else Transition(st, Continue)
    else Transition(st, Continue)
  }

  /** One script line: blank lines are skipped; any other line is split,
      journaled once, and dispatched. */
  function ExecLine(env: Env, st: State, line: string): (t: Transition)
    ensures IsBlank(line) ==> t == Transition(st, Continue)
    ensures !IsBlank(line) ==> t.state.log == st.log + [RecordOf(env.username, Words(line))]
    ensures t.control == Exit <==> !IsBlank(line) && Words(line)[0] == "exit"
    ensures IsCwd(env.names, st.pwd) ==> IsCwd(env.names, t.state.pwd)
  {
    if IsBlank(line) then Transition(st, Continue)
    else
      var words := Words(line);
      var logged := st.(log := st.log + [RecordOf(env.username, words)]);
      Dispatch(env, logged, words[0], words[1..])
  }

  /** The loop of `main` over the queued script lines, first to last. */
  function Run(env: Env, st: State, lines: seq<string>): (f: Finish)
    decreases |lines|
  {
    if lines == [] then Finish(st, AwaitingInput)
    else
      var t := ExecLine(env, st, lines[0]);
      match t.control
      case Exit => Finish(t.state, Exited)
      case Fault => Finish(t.state, Crashed)
      case Continue => Run(env, t.state, lines[1..])
  }

  /** A line that ends the loop: `exit`, or a command that raises. */
  predicate Stops(line: string)
  {
    !IsBlank(line) && (Words(line)[0] == "exit" || Raises(Words(line)[0], Words(line)[1..]))
  }

  /** The journal a script produces, defined from the lines alone: one row
      per non-blank line, in order, up to and including the line that
      stops the loop. */
  function Journal(username: string, lines: seq<string>): seq<Record>
  {
    if lines == [] then []
    else if IsBlank(lines[0]) then Journal(username, lines[1..])
    else [RecordOf(username, Words(lines[0]))] + (if Stops(lines[0]) then [] else Journal(username, lines[1..]))
  }

  lemma ExecLineStops(env: Env, st: State, line: string)
    ensures ExecLine(env, st, line).control != Continue <==> Stops(line)
  {
  }

  /** The loop appends to the journal exactly the rows `Journal` lists:
      every non-blank line once, in order, whether the command succeeded,
      failed or was unknown, and nothing after the line that stops it. */
  lemma {:induction false} RunJournals(env: Env, st: State, lines: seq<string>)
    ensures Run(env, st, lines).state.log == st.log + Journal(env.username, lines)
    decreases |lines|
  {
    if lines != [] {
      var t := ExecLine(env, st, lines[0]);
      ExecLineStops(env, st, lines[0]);
      if t.control == Continue {
        RunJournals(env, t.state, lines[1..]);
      }
    }
  }

  /** The loop only waits for input when no line of the script stopped it. */
  lemma {:induction false} RunOutcome(env: Env, st: State, lines: seq<string>)
    ensures Run(env, st, lines).outcome == AwaitingInput <==>
            forall k :: 0 <= k < |lines| ==> !Stops(lines[k])
    ensures Run(env, st, lines).outcome == Exited ==>
            exists k :: 0 <= k < |lines| && !IsBlank(lines[k]) && Words(lines[k])[0] == "exit"
    decreases |lines|
  {
    if lines != [] {
      var t := ExecLine(env, st, lines[0]);
      ExecLineStops(env, st, lines[0]);
      if t.control == Continue {
        RunOutcome(env, t.state, lines[1..]);
        assert forall k :: 1 <= k < |lines| ==> lines[k] == lines[1..][k - 1];
        if Run(env, st, lines).outcome == Exited {
          var k :| 0 <= k < |lines[1..]| && !IsBlank(lines[1..][k]) && Words(lines[1..][k])[0] == "exit";
          assert lines[k + 1] == lines[1..][k];
        }
      }
    }
  }

  /** The non-blank lines of a script, in order. */
  function NonBlank(lines: seq<string>): (r: seq<string>)
    ensures forall k :: 0 <= k < |r| ==> !IsBlank(r[k])
  {
    if lines == [] then []
    else (if IsBlank(lines[0]) then [] else [lines[0]]) + NonBlank(lines[1..])
  }

  /** The journal rows of non-blank lines, one per line, in order. */
  function RecordsOf(username: string, lines: seq<string>): (r: seq<Record>)
    requires forall k :: 0 <= k < |lines| ==> !IsBlank(lines[k])
    ensures |r| == |lines|
  {
    if lines == [] then [] else [RecordOf(username, Words(lines[0]))] + RecordsOf(username, lines[1..])
  }

  /** When no line stops the loop, the journal holds exactly one row per
      non-blank line, in script order, and none for blank lines. */
  lemma {:induction false} JournalOfUnstoppedScript(username: string, lines: seq<string>)
    requires forall k :: 0 <= k < |lines| ==> !Stops(lines[k])
    ensures Journal(username, lines) == RecordsOf(username, NonBlank(lines))
    decreases |lines|
  {
    if lines != [] {
      assert forall k :: 1 <= k < |lines| ==> lines[k] == lines[1..][k - 1];
      JournalOfUnstoppedScript(username, lines[1..]);
      if !IsBlank(lines[0]) {
        assert !Stops(lines[0]);
        assert Journal(username, lines) == [RecordOf(username, Words(lines[0]))] + Journal(username, lines[1..]);
        assert NonBlank(lines) == [lines[0]] + NonBlank(lines[1..]);
        assert RecordsOf(username, NonBlank(lines)) ==
               [RecordOf(username, Words(lines[0]))] + RecordsOf(username, NonBlank(lines[1..]));
      } else {
        assert NonBlank(lines) == [] + NonBlank(lines[1..]) == NonBlank(lines[1..]);
        assert Journal(username, lines) == Journal(username, lines[1..]);
      }
    }
  }

  /** `exit` ends the session at once: it is journaled, changes nothing
      else, and the lines after it are never read. */
  lemma ExitIgnoresTheRest(env: Env, st: State, line: string, rest: seq<string>)
    requires !IsBlank(line) && Words(line)[0] == "exit"
    ensures Run(env, st, [line] + rest) ==
            Finish(st.(log := st.log + [RecordOf(env.username, Words(line))]), Exited)
  {
    assert ([line] + rest)[0] == line;
  }

  /** The current position stays the root or an existing directory through
      any script. */
  lemma {:induction false} RunKeepsCwd(env: Env, st: State, lines: seq<string>)
    requires IsCwd(env.names, st.pwd)
    ensures IsCwd(env.names, Run(env, st, lines).state.pwd)
    decreases |lines|
  {
    if lines != [] {
      var t := ExecLine(env, st, lines[0]);
      if t.control == Continue {
        RunKeepsCwd(env, t.state, lines[1..]);
      }
    }
  }

  /** Only `chown` changes the overlay and only `cd` the position: a script
      without either leaves both as they were. */
  lemma {:induction false} RunWithoutCdOrChown(env: Env, st: State, lines: seq<string>)
    requires forall k :: 0 <= k < |lines| ==> IsBlank(lines[k]) || (Words(lines[k])[0] != "cd" && Words(lines[k])[0] != "chown")
    ensures Run(env, st, lines).state.pwd == st.pwd
    ensures Run(env, st, lines).state.owners == st.owners
    decreases |lines|
  {
    if lines != [] {
      var t := ExecLine(env, st, lines[0]);
      if t.control == Continue {
        assert forall k :: 1 <= k < |lines| ==> lines[k] == lines[1..][k - 1];
        RunWithoutCdOrChown(env, t.state, lines[1..]);
      }
    }
  }

  /** The root is never one of the archive's names, so a `cd` whose path
      resolves to the root is refused: `cd ..` out of a top-level directory
      leaves the position where it was. */
  lemma CdUpFromTopLevelStays(entries: set<string>, username: string, archiveName: string,
                              st: State, line: string)
    requires WellFormed(entries)
    requires Words(line) == ["cd", ".."]
    requires st.pwd != [] && Parent(st.pwd) == []
    ensures ExecLine(Env(NameSet(entries), username, archiveName), st, line).state.pwd == st.pwd
  {
    PlainName("..");
    assert Resolve(NameSet(entries), st.pwd, [".."]) == Found([]) by {
      assert [".."][1..] == [];
    }
    CdNeverReachesRoot(entries, st.pwd);
  }

  /** `cal` with a year of more than `MaxStrDigits` digits raises after
      the line is journaled, so the loop stops there. */
  lemma CalWithLongYearCrashes(env: Env, st: State, line: string, year: string)
    requires Words(line) == ["cal", year] && DigitCount(year) > MaxStrDigits
    ensures ExecLine(env, st, line) ==
            Transition(st.(log := st.log + [RecordOf(env.username, ["cal", year])]), Fault)
  {
    LongNumeralRefused(year);
    assert ["cal", year][1..] == [year];
  }
}
