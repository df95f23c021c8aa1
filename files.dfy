/** The part of the local filesystem the program touches: directories, the
    file entries in each, and the files (inodes) those entries name, so that
    a hard link is visibly the same file as its source. */
module Files {
  import opened Common
  import opened Paths

  type Inode = nat

  /** Each directory path that exists, with the file entries it holds. */
  type Tree = map<string, map<string, Inode>>

  /** The entries of `dir`: none when the directory does not exist. */
  function Entries(t: Tree, dir: string): map<string, Inode> {
    if dir in t then t[dir] else map[]
  }

  /** `t` with the entry `name` of the existing directory `dir` naming `ino`. */
  function AddEntry(t: Tree, dir: string, name: string, ino: Inode): Tree
    requires dir in t
  {
    var entries: map<string, Inode> := t[dir][name := ino];
    t[dir := entries]
  }

  /** Adding an entry for a new name changes only `dir`, and keeps every
      entry it had. */
  lemma AddEntryKeeps(t: Tree, dir: string, name: string, ino: Inode)
    requires dir in t && name !in t[dir]
    ensures var t' := AddEntry(t, dir, name, ino);
      && t'.Keys == t.Keys
      && (forall d :: d in t && d != dir ==> t'[d] == t[d])
      && (forall m :: m in t[dir] ==> m in t'[dir] && t'[dir][m] == t[dir][m])
  {
  }

  /** Entry names are plain names and every entry names an allocated inode. */
  ghost predicate WellFormed(t: Tree, next: Inode) {
    && (forall d, n :: d in t && n in t[d] ==> t[d][n] < next)
    && (forall d, n :: d in t && n in t[d] ==> IsEntryName(n))
  }

  lemma AddEntryWellFormed(t: Tree, next: Inode, dir: string, name: string, ino: Inode)
    requires WellFormed(t, next) && dir in t && IsEntryName(name) && ino < next
    ensures WellFormed(AddEntry(t, dir, name, ino), next)
  {
    var t' := AddEntry(t, dir, name, ino);
    forall d, n | d in t' && n in t'[d] ensures t'[d][n] < next && IsEntryName(n) {
      if d == dir && n == name {
      } else {
        assert n in t[d] && t'[d][n] == t[d][n];
      }
    }
  }

  lemma WellFormedEntry(t: Tree, next: Inode, dir: string, name: string)
    requires WellFormed(t, next) && name in Entries(t, dir)
    ensures dir in t && name in t[dir] && t[dir][name] < next
  {
  }

  /** The names that `glob.glob(os.path.join(dir, '*.deb'))` lists. */
  function DebFiles(t: Tree, dir: string): (debs: set<string>)
    ensures forall n :: n in debs <==> n in Entries(t, dir) && MatchesDebGlob(n)
  {
    set n | n in Entries(t, dir) && MatchesDebGlob(n)
  }

  class FileSystem {
    var dirs: Tree
    /** The next inode a newly written file gets. */
    var nextInode: Inode

    ghost predicate Valid()
      reads this
    {
      WellFormed(dirs, nextInode)
    }

    constructor (t: Tree, next: Inode)
      requires WellFormed(t, next)
      ensures Valid() && dirs == t && nextInode == next
    {
      dirs, nextInode := t, next;
    }

    /** `glob.glob(os.path.join(dir, '*.deb'))`, as entry names: every
        matching entry once, in an order the model leaves open (the order
        `os.listdir` produces). */
    method Glob(dir: string) returns (debs: seq<string>)
      ensures Distinct(debs)
      ensures forall n :: n in debs <==> n in DebFiles(dirs, dir)
    {
      var todo := DebFiles(dirs, dir);
      debs := [];
      while todo != {}
        invariant todo <= DebFiles(dirs, dir)
        invariant forall n :: n in debs <==> n in DebFiles(dirs, dir) && n !in todo
        invariant Distinct(debs)
        decreases |todo|
      {
        var n :| n in todo;
        debs := debs + [n];
        todo := todo - {n};
      }
    }

    /** `os.path.exists(os.path.join(dir, name))` for a file entry. */
    method Exists(dir: string, name: string) returns (b: bool)
      ensures b == (name in Entries(dirs, dir))
    {
      b := name in Entries(dirs, dir);
    }

    /** `os.makedirs(path)` where an existing directory is not an error. */
    method MakeDirs(path: string)
      requires Valid()
      modifies this
      ensures Valid() && nextInode == old(nextInode)
      ensures dirs == if path in old(dirs) then old(dirs) else old(dirs)[path := map[]]
    {
      if path !in dirs {
        dirs := dirs[path := map[]];
      }
    }

    /** `os.link(src, dst)`: a new entry for the same inode. */
    method Link(srcDir: string, srcName: string, dstDir: string, dstName: string)
      requires Valid()
      requires srcName in Entries(dirs, srcDir)
      requires dstDir in dirs && dstName !in dirs[dstDir] && IsEntryName(dstName)
      modifies this
      ensures Valid() && nextInode == old(nextInode)
      ensures dirs == AddEntry(old(dirs), dstDir, dstName, old(dirs)[srcDir][srcName])
    {
      WellFormedEntry(dirs, nextInode, srcDir, srcName);
      AddEntryWellFormed(dirs, nextInode, dstDir, dstName, dirs[srcDir][srcName]);
      dirs := AddEntry(dirs, dstDir, dstName, dirs[srcDir][srcName]);
    }

    /** `urlretrieve(url, os.path.join(dir, name))` for a name not yet
        present: a new file, or `false` (the `IOError`) when `dir` is
        missing. */
    method Retrieve(dir: string, name: string) returns (ok: bool)
      requires Valid() && IsEntryName(name) && name !in Entries(dirs, dir)
      modifies this
      ensures Valid()
      ensures ok == (dir in old(dirs))
      ensures ok ==> dirs == AddEntry(old(dirs), dir, name, old(nextInode))
      ensures ok ==> nextInode == old(nextInode) + 1
      ensures !ok ==> dirs == old(dirs) && nextInode == old(nextInode)
    {
      ok := dir in dirs;
      if ok {
        AddEntryWellFormed(dirs, nextInode + 1, dir, name, nextInode);
        dirs := AddEntry(dirs, dir, name, nextInode);
        nextInode := nextInode + 1;
      }
    }
  }
}
