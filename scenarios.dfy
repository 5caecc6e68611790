/** The situations the repository's unit tests set up, stated for every
    archive: a session at the root of an archive whose root holds plain
    files such as `file1.txt` and `file2.txt`. */
module Scenarios {

  import opened Options
  import opened Text
  import opened PosixPaths
  import opened ZipTree
  import opened Navigation
  import opened Ownership
  import opened Listing
  import opened Session

  /** `cd` to a file at the root resolves but is refused, because a file is
      not a directory: the position stays at the root. */
  lemma CdIntoFileFails(entries: set<string>, f: string)
    requires f in entries && IsChildPart(f)
    ensures Resolve(NameSet(entries), [], ParsePath(f)) == Found(f)
    ensures CdTarget(NameSet(entries), [], Some(f)) == []
  {
    PlainName(f);
    ResolveOneChild(NameSet(entries), [], f);
    assert [] + f == f;
  }

  /** `cd` to a name that is neither a file nor a directory does not
      resolve, and the missing name is the one reported. */
  lemma CdIntoMissingFails(entries: set<string>, x: string)
    requires IsChildPart(x) && x !in NameSet(entries) && x + "/" !in NameSet(entries)
    ensures Resolve(NameSet(entries), [], ParsePath(x)) == NotFound(x)
  {
    PlainName(x);
    ResolveOneChild(NameSet(entries), [], x);
    assert [] + x == x;
  }

  /** `ls -l` at the root of a fresh session lists each root file with
      the default owner `<user>:<user>_group`. */
  lemma FreshListingShowsDefault(entries: set<string>, archiveName: string, username: string, f: string)
    requires f in entries && IsChildPart(f)
    ensures Long(f, Owner(username, username + "_group")) in
            LsLines(NameSet(entries), archiveName, username, [], Seed(entries, username), true)
  {
    ListedChildResolves(NameSet(entries), archiveName, [], f, f);
    assert [] + f == f;
    var l := LineOf(archiveName, username, Seed(entries, username), f, true);
    assert l == Long(f, DefaultOwner(username));
  }

  /** `chown` of a root file sets that file's record to the new owner and
      leaves the record of every other name as it was. */
  lemma ChownRootFile(entries: set<string>, archiveName: string, username: string, f: string, g: string,
                      user: string, group: string)
    requires f in entries && IsChildPart(f) && g != f
    ensures var owners := ChownOwners(NameSet(entries), archiveName, [], Seed(entries, username),
                                      ParsePath(f), user, group);
            && owners[f] == Owner(user, group)
            && OwnerOf(owners, g, username) == DefaultOwner(username)
  {
    CdIntoFileFails(entries, f);
    NameBelow([], f);
    assert [] + f == f;
  }

  /** `chown` of a missing name leaves the overlay as it was; in
      particular no record for that name appears. */
  lemma ChownMissingFile(entries: set<string>, archiveName: string, username: string, x: string,
                         user: string, group: string)
    requires IsChildPart(x) && x !in NameSet(entries) && x + "/" !in NameSet(entries)
    ensures ChownOwners(NameSet(entries), archiveName, [], Seed(entries, username), ParsePath(x), user, group)
            == Seed(entries, username)
    ensures x !in Seed(entries, username)
  {
    CdIntoMissingFails(entries, x);
  }

  /** A first argument without a colon makes `chown` raise. */
  lemma ChownWithoutColonRaises(spec: string, path: string)
    requires ':' !in spec
    ensures Raises("chown", [spec, path])
  {
    SplitWithoutSeparator(spec, ':');
  }

  /** The overlay is keyed by terminal name, as `chown` and `ls -l` use it:
      after `chown` on the file `x` in one directory, `ls -l` in another
      directory reports the new owner for its own `x`. */
  lemma SameNameSharesOwner(names: set<string>, archiveName: string, username: string,
                            d1: string, d2: string, x: string, owners: map<string, Owner>,
                            user: string, group: string)
    requires IsPlainDir(d1) && IsPlainDir(d2) && IsChildPart(x)
    requires d1 + x in names && d2 + x in names
    ensures Long(x, Owner(user, group)) in
            LsLines(names, archiveName, username, d2,
                    ChownOwners(names, archiveName, d1, owners, [x], user, group), true)
  {
    ListedChildResolves(names, archiveName, d1, x, d1 + x);
    ListedChildResolves(names, archiveName, d2, x, d2 + x);
    var owners' := ChownOwners(names, archiveName, d1, owners, [x], user, group);
    assert LineOf(archiveName, username, owners', d2 + x, true) == Long(x, Owner(user, group));
  }
}
