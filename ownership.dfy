/** The ownership overlay: synthetic (user, group) records the shell keeps
    beside the archive, seeded by `__init__` and changed by `chown`. */
module Ownership {

  import opened ZipTree
  import opened Navigation

  datatype Owner = Owner(user: string, group: string)

  /** The owner an entry has until `chown` says otherwise. */
  function DefaultOwner(username: string): Owner
  {
    Owner(username, username + "_group")
  }

  /** The overlay as the session starts: one record per archive filename,
      keyed by the full filename (a directory marker keeps its slash). */
  function Seed(entries: set<string>, username: string): map<string, Owner>
  {
    map e | e in entries :: DefaultOwner(username)
  }

  /** `owners.get(name, default)`: the record for `name`, or the default. */
  function OwnerOf(owners: map<string, Owner>, name: string, username: string): Owner
  {
    if name in owners then owners[name] else DefaultOwner(username)
  }

  /** Right after seeding there is a record for every archive filename,
      and every name reads as owned by the session user, whether or not it
      was a key of the seed. */
  lemma SeededOwnersAreDefault(entries: set<string>, username: string, name: string)
    ensures Seed(entries, username).Keys == entries
    ensures OwnerOf(Seed(entries, username), name, username) == DefaultOwner(username)
  {
  }

  /** `chown` on the overlay: the path is resolved from `pwd`; if that
      fails nothing changes, otherwise the record keyed by the resolved
      position's terminal name is set to (user, group) and no other. */
  function ChownOwners(names: set<string>, archiveName: string, pwd: string, owners: map<string, Owner>,
                       parts: seq<string>, user: string, group: string): (r: map<string, Owner>)
    ensures Resolve(names, pwd, parts).NotFound? ==> r == owners
    ensures Resolve(names, pwd, parts).Found? ==>
              var key := ItemName(Resolve(names, pwd, parts).node, archiveName);
              && key in r && r[key] == Owner(user, group)
              && r.Keys == owners.Keys + {key}
              && forall k :: k in owners && k != key ==> r[k] == owners[k]
  {
    match Resolve(names, pwd, parts)
    case NotFound(_) => owners
    case Found(node) => owners[ItemName(node, archiveName) := Owner(user, group)]
  }

  /** What a later lookup reads after `chown`: the changed name reads as
      (user, group), every other name reads as before, and a path that
      does not resolve changes no reading. */
  lemma ReadAfterChown(names: set<string>, archiveName: string, pwd: string, owners: map<string, Owner>,
                       parts: seq<string>, user: string, group: string, username: string, name: string)
    ensures var r := ChownOwners(names, archiveName, pwd, owners, parts, user, group);
            match Resolve(names, pwd, parts)
            case NotFound(_) => OwnerOf(r, name, username) == OwnerOf(owners, name, username)
            case Found(node) =>
              OwnerOf(r, name, username) ==
              if name == ItemName(node, archiveName) then Owner(user, group) else OwnerOf(owners, name, username)
  {
  }
}
