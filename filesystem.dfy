/**
  The directory tree the program writes to, as a map from clean paths to
  entries, with the three operating-system calls it uses on it:
  `os.MkdirAll`, create-truncate-and-write, and `os.RemoveAll`.
 */
module FileSystem {
  import opened Paths
  import opened Wrappers

  datatype Node = File(content: string) | Dir

  type Tree = map<Path, Node>

  datatype FsError =
    | NotADirectory(path: Path)   // a path component exists but is a regular file
    | IsADirectory(path: Path)    // the file to create exists as a directory

  /**
    Every entry below the top level sits in a directory that exists: the
    parent of every entry with more than one segment is a `Dir`.
   */
  ghost predicate TreeShaped(fs: Tree)
  {
    [] !in fs &&
    forall p {:trigger Parent(p)} :: p in fs && |p| > 1 ==> Parent(p) in fs && fs[Parent(p)].Dir?
  }

  /** In a tree, every non-empty proper prefix of an entry is a directory. */
  lemma {:induction false} AncestorsAreDirs(fs: Tree, p: Path, q: Path)
    requires TreeShaped(fs) && p in fs
    requires q < p && q != []
    ensures q in fs && fs[q].Dir?
    decreases |p|
  {
    var r := Parent(p);
    PrefixesOrdered(q, r, p);
    if q != r {
      AncestorsAreDirs(fs, r, q);
    }
  }

  /** The non-empty prefixes of `d`: `d` and the directories above it. */
  function Prefixes(d: Path): (r: set<Path>)
    ensures forall q :: q in r <==> q != [] && q <= d
  {
    var r := set n | 1 <= n <= |d| :: d[..n];
    assert forall q :: q != [] && q <= d ==> q in r by {
      forall q | q != [] && q <= d ensures q in r {
        assert q == d[..|q|];
      }
    }
    r
  }

  /**
    `os.MkdirAll(d)`: fails when `d` or a directory above it exists as a
    regular file (nothing is created then); otherwise creates every missing
    directory on the way to `d` and leaves existing entries alone.
   */
  function MkdirAll(fs: Tree, d: Path): (r: Result<Tree, FsError>)
    ensures r.Err? <==> exists q :: q in fs && q != [] && q <= d && fs[q].File?
    ensures r.Ok? ==> forall q :: q in r.value <==> q in fs || (q != [] && q <= d)
    ensures r.Ok? ==> forall q :: q in fs ==> r.value[q] == fs[q]
    ensures r.Ok? ==> forall q :: q != [] && q <= d ==> r.value[q] == Dir
    ensures r.Ok? && TreeShaped(fs) ==> TreeShaped(r.value)
  {
    if exists n :: 1 <= n <= |d| && d[..n] in fs && fs[d[..n]].File? then
      Err(NotADirectory(d))
    else
      var made := map q | q in fs.Keys + Prefixes(d) :: if q in fs then fs[q] else Dir;
      assert forall q :: q in fs && q != [] && q <= d ==> !fs[q].File? by {
        forall q | q in fs && q != [] && q <= d ensures !fs[q].File? {
          assert q == d[..|q|];
        }
      }
      assert TreeShaped(fs) ==> TreeShaped(made) by {
        if TreeShaped(fs) {
          forall p | p in made && |p| > 1 ensures Parent(p) in made && made[Parent(p)].Dir? {
            if p !in fs {
              assert Parent(p) <= d;
            }
          }
        }
      }
      Ok(made)
  }

  /** `os.MkdirAll` on a directory that already exists changes nothing. */
  lemma MkdirAllExisting(fs: Tree, d: Path)
    requires TreeShaped(fs) && d in fs && fs[d].Dir?
    ensures MkdirAll(fs, d) == Ok(fs)
  {
    forall q | q != [] && q <= d ensures q in fs && fs[q].Dir? {
      if q != d {
        AncestorsAreDirs(fs, d, q);
      }
    }
    var r := MkdirAll(fs, d);
    assert r.Ok?;
    assert r.value == fs;
  }

  /**
    The file at `p` can be written: every directory above it that exists is
    a directory, and `p` itself is not a directory.
   */
  ghost predicate Writable(fs: Tree, p: Path)
  {
    (forall q :: q in fs && q < p ==> fs[q].Dir?) &&
    (p in fs ==> fs[p].File?)
  }

  /**
    A file is writable exactly when `os.MkdirAll` of its directory succeeds
    and it is not itself a directory.
   */
  lemma WritableIff(fs: Tree, p: Path)
    requires TreeShaped(fs) && |p| > 1
    ensures Writable(fs, p) <==> MkdirAll(fs, Parent(p)).Ok? && !(p in fs && fs[p].Dir?)
  {
    if MkdirAll(fs, Parent(p)).Ok? {
      forall q | q in fs && q < p ensures fs[q].Dir? {
        PrefixesOrdered(q, Parent(p), p);
      }
    }
  }

  /** Truncating a file and then writing to it leaves only what was written. */
  lemma OverwriteTwice(fs: Tree, p: Path, first: Node, second: Node)
    ensures fs[p := first][p := second] == fs[p := second]
  {
  }

  /**
    The tree after `writeToFile(p, content)` succeeds: the directories up to
    `p` exist, `p` holds exactly `content`, and nothing else changed.
   */
  function Written(fs: Tree, p: Path, content: string): (r: Tree)
    requires TreeShaped(fs) && Writable(fs, p) && |p| > 1
    ensures TreeShaped(r)
    ensures p in r && r[p] == File(content)
    ensures Parent(p) in r && r[Parent(p)] == Dir
    ensures forall q :: q in fs && q != p ==> q in r && r[q] == fs[q]
    ensures forall q :: q in r && q !in fs ==> q <= p
    ensures forall q :: q in r && q < p ==> r[q] == Dir
  {
    var m := MkdirAll(fs, Parent(p));
    assert m.Ok? by {
      forall q | q in fs && q != [] && q <= Parent(p) ensures !fs[q].File? {
        assert q < p;
      }
    }
    var r := m.value[p := File(content)];
    forall q | q in r && q < p ensures r[q] == Dir {
      PrefixesOrdered(q, Parent(p), p);
    }
    assert TreeShaped(r) by {
      forall q | q in r && |q| > 1 ensures Parent(q) in r && r[Parent(q)].Dir? {
        if Parent(q) == p {
          assert false;
        }
      }
    }
    r
  }

  /** In a well-formed tree an existing file can always be written again. */
  lemma FileWritable(fs: Tree, p: Path)
    requires TreeShaped(fs) && p in fs && fs[p].File?
    ensures Writable(fs, p)
  {
    forall q | q in fs && q < p ensures fs[q].Dir? {
      AncestorsAreDirs(fs, p, q);
    }
  }

  /**
    A file that cannot be written stays so after another file is written:
    a file above it stays a file and a directory in its place stays a
    directory.
   */
  lemma UnwritablePersists(fs: Tree, p: Path, content: string, q: Path)
    requires TreeShaped(fs) && |p| > 1 && Writable(fs, p)
    requires !Writable(fs, q)
    ensures !Writable(Written(fs, p, content), q)
  {
    var r := Written(fs, p, content);
    if q in fs && fs[q].Dir? {
      assert q != p;
      assert r[q] == Dir;
    } else {
      var a :| a in fs && a < q && fs[a].File?;
      assert a in r && r[a].File?;
    }
  }

  /** Writing the content a file already holds changes nothing. */
  lemma WrittenSame(fs: Tree, p: Path, content: string)
    requires TreeShaped(fs) && |p| > 1
    requires p in fs && fs[p] == File(content)
    ensures Writable(fs, p)
    ensures Written(fs, p, content) == fs
  {
    FileWritable(fs, p);
    AncestorsAreDirs(fs, p, Parent(p));
    MkdirAllExisting(fs, Parent(p));
  }

  /**
    Writing one file keeps another file writable, unless one of the two
    paths lies inside the other.
   */
  lemma WritablePreserved(fs: Tree, p: Path, content: string, q: Path)
    requires TreeShaped(fs) && |p| > 1
    requires Writable(fs, p) && Writable(fs, q)
    requires p != q && !(p < q) && !(q < p)
    ensures Writable(Written(fs, p, content), q)
  {
  }

  /**
    `os.RemoveAll(p)`: `p` and everything below it are gone, everything else
    is kept; removing a missing path changes nothing.
   */
  function RemoveAll(fs: Tree, p: Path): (r: Tree)
    ensures forall q :: p <= q ==> q !in r
    ensures forall q :: q in fs && !(p <= q) ==> q in r && r[q] == fs[q]
    ensures r.Keys <= fs.Keys
    ensures TreeShaped(fs) ==> TreeShaped(r)
  {
    var r := map q | q in fs && !(p <= q) :: fs[q];
    assert TreeShaped(fs) ==> TreeShaped(r) by {
      if TreeShaped(fs) {
        forall q | q in r && |q| > 1 ensures Parent(q) in r {
          if p <= Parent(q) {
            assert false;
          }
        }
      }
    }
    r
  }
}
