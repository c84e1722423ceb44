/**
 * The part of the file system the application touches: the set of
 * directories that exist (the temporary profile directories made by the
 * login flow) and the rows of `accounts.csv`, if the file exists.
 */
module FileSystem {
  import opened Wrappers
  import opened Accounts

  /** The directory `q` is `p` itself or lies somewhere below it. */
  predicate Within(q: string, p: string)
  {
    q == p || p + "/" <= q
  }

  /** The directories that remain once the whole tree rooted at `p` is removed. */
  function Pruned(dirs: set<string>, p: string): (r: set<string>)
    ensures r <= dirs && p !in r
  {
    set q | q in dirs && !Within(q, p)
  }

  /** Removing the tree at `p` takes away exactly the directories within it. */
  lemma PrunedMembers(dirs: set<string>, p: string, q: string)
    ensures q in Pruned(dirs, p) <==> q in dirs && !Within(q, p)
  {
  }

  class Disk {
    /** The directories that exist, by path. */
    var dirs: set<string>
    /** The records of `accounts.csv`, or None when the file does not exist. */
    var accountsFile: Option<seq<Row>>

    constructor (dirs0: set<string>, file0: Option<seq<Row>>)
      ensures dirs == dirs0 && accountsFile == file0
    {
      dirs := dirs0;
      accountsFile := file0;
    }

    /** `Path(p).exists()`. */
    predicate Exists(p: string)
      reads this
    {
      p in dirs
    }

    /** `mkdir(exist_ok=True)`: afterwards `p` exists, whether or not it did before. */
    method MakeDir(p: string)
      modifies this
      ensures dirs == old(dirs) + {p}
      ensures accountsFile == old(accountsFile)
    {
      dirs := dirs + {p};
    }

    /**
     * `shutil.rmtree(p, ignore_errors=True)`, taken to succeed: `p` and every
     * directory below it are gone, and nothing else is touched.
     */
    method RemoveTree(p: string)
      modifies this
      ensures dirs == Pruned(old(dirs), p)
      ensures accountsFile == old(accountsFile)
    {
      dirs := Pruned(dirs, p);
    }

    /** Opening `accounts.csv` for writing and writing `rows` replaces its contents. */
    method WriteAccounts(rows: seq<Row>)
      modifies this
      ensures accountsFile == Some(rows)
      ensures dirs == old(dirs)
    {
      accountsFile := Some(rows);
    }
  }
}
