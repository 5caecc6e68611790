/** What `ls` and `ls -l` report for the current position. */
module Listing {

  import opened ZipTree
  import opened Navigation
  import opened Ownership

  /** One reported item: its name, and with `-l` its owner record. */
  datatype LsLine = Plain(name: string) | Long(name: string, owner: Owner)

  /** The line `ls` prints for the child `node`. */
  function LineOf(archiveName: string, username: string, owners: map<string, Owner>,
                  node: string, verbose: bool): LsLine
  {
    var name := ItemName(node, archiveName);
    if verbose then Long(name, OwnerOf(owners, name, username)) else Plain(name)
  }

  /** The names of the children of `at`. */
  function ChildNames(names: set<string>, archiveName: string, at: string): set<string>
  {
    set n | n in Children(names, at) :: ItemName(n, archiveName)
  }

  /** The lines for a set of children. */
  function LinesOf(archiveName: string, username: string, owners: map<string, Owner>,
                   nodes: set<string>, verbose: bool): set<LsLine>
  {
    set n | n in nodes :: LineOf(archiveName, username, owners, n, verbose)
  }

  /** Listing one more child adds exactly its line. */
  lemma LinesOfAddOne(archiveName: string, username: string, owners: map<string, Owner>,
                      nodes: set<string>, n: string, verbose: bool)
    ensures LinesOf(archiveName, username, owners, nodes + {n}, verbose) ==
            LinesOf(archiveName, username, owners, nodes, verbose) + {LineOf(archiveName, username, owners, n, verbose)}
  {
  }

  /** Taking one more name off the names still to visit adds it to the
      visited children exactly when it is a child. */
  lemma VisitOne(names: set<string>, at: string, todo: set<string>, item: string)
    requires item in todo && item in names
    ensures Children(names, at) - (todo - {item}) ==
            if IsChild(at, item) then (Children(names, at) - todo) + {item} else Children(names, at) - todo
  {
  }

  /** `ls [-l]`: one line per child of the current position; with `-l` each
      line carries the overlay's record for the child's name. */
  function LsLines(names: set<string>, archiveName: string, username: string, pwd: string,
                   owners: map<string, Owner>, verbose: bool): (lines: set<LsLine>)
    ensures forall n :: n in Children(names, pwd) ==> LineOf(archiveName, username, owners, n, verbose) in lines
    ensures forall l :: l in lines ==> l.name in ChildNames(names, archiveName, pwd)
    ensures forall l :: l in lines ==> (l.Long? <==> verbose)
    ensures forall l :: l in lines && l.Long? ==> l.owner == OwnerOf(owners, l.name, username)
  {
    LinesOf(archiveName, username, owners, Children(names, pwd), verbose)
  }

  /** A name without a record is listed with the session's default owner. */
  lemma UnrecordedNamesShowDefault(names: set<string>, archiveName: string, username: string, pwd: string,
                                   owners: map<string, Owner>, l: LsLine)
    requires l in LsLines(names, archiveName, username, pwd, owners, true)
    requires l.name !in owners
    ensures l.owner == DefaultOwner(username)
  {
  }

  /** After `chown` on a child of the current position, `ls -l` shows that
      child with exactly the new owner: the line is there and no line of
      that name shows any other owner. */
  lemma ChownThenList(names: set<string>, archiveName: string, username: string, pwd: string,
                      owners: map<string, Owner>, parts: seq<string>, user: string, group: string)
    requires Resolve(names, pwd, parts).Found?
    requires Resolve(names, pwd, parts).node in Children(names, pwd)
    ensures var name := ItemName(Resolve(names, pwd, parts).node, archiveName);
            var lines := LsLines(names, archiveName, username, pwd,
                                 ChownOwners(names, archiveName, pwd, owners, parts, user, group), true);
            && Long(name, Owner(user, group)) in lines
            && forall o :: Long(name, o) in lines ==> o == Owner(user, group)
  {
    var node := Resolve(names, pwd, parts).node;
    var owners' := ChownOwners(names, archiveName, pwd, owners, parts, user, group);
    assert LineOf(archiveName, username, owners', node, true) in
           LsLines(names, archiveName, username, pwd, owners', true);
  }
}
