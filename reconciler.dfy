/**
  The reconciliation engine: project a node's labels onto the directory
  tree (one file per label) and prune the entries no label accounts for.
 */
module Reconciler {
  import opened Paths
  import opened FileSystem
  import opened Config
  import opened Wrappers

  /**
    `q` has to stay: it is the file of some label, or a directory strictly
    between the root and such a file.
   */
  ghost predicate Required(directory: string, keys: set<string>, q: Path)
  {
    exists k :: k in keys && RootPath(directory) < q && q <= LabelPath(directory, k)
  }

  /** `q` exists below the root and no label needs it. */
  ghost predicate IsStale(directory: string, keys: set<string>, fs: Tree, q: Path)
  {
    q in fs && RootPath(directory) < q && !Required(directory, keys, q)
  }

  ghost predicate NoStale(directory: string, keys: set<string>, fs: Tree)
  {
    forall q :: !IsStale(directory, keys, fs, q)
  }

  /** Every label's file exists and holds exactly the label's value. */
  ghost predicate Present(directory: string, labels: map<string, string>, fs: Tree)
  {
    forall k :: k in labels ==>
      LabelPath(directory, k) in fs && fs[LabelPath(directory, k)] == File(labels[k])
  }

  /** The tree below the root is exactly what the labels call for. */
  ghost predicate Converged(directory: string, labels: map<string, string>, fs: Tree)
  {
    Present(directory, labels, fs) && NoStale(directory, labels.Keys, fs)
  }

  /**
    Every label whose file can be written already holds its value there:
    a pass of writes has nothing left to change.
   */
  ghost predicate Applied(directory: string, labels: map<string, string>, fs: Tree)
  {
    forall k :: k in labels && Writable(fs, LabelPath(directory, k)) ==>
      LabelPath(directory, k) in fs && fs[LabelPath(directory, k)] == File(labels[k])
  }

  /**
    What a pass leaves behind: the labels are applied and, when stale
    entries are deleted, nothing is stale.
   */
  ghost predicate Settled(directory: string, labels: map<string, string>, deleteStale: bool, fs: Tree)
  {
    Applied(directory, labels, fs) && (deleteStale ==> NoStale(directory, labels.Keys, fs))
  }

  /** No label's file lies inside another label's file. */
  ghost predicate NoNesting(directory: string, keys: set<string>)
  {
    forall j, k :: j in keys && k in keys ==> !(LabelPath(directory, j) < LabelPath(directory, k))
  }

  ghost predicate AllWritable(directory: string, keys: set<string>, fs: Tree)
  {
    forall k :: k in keys ==> Writable(fs, LabelPath(directory, k))
  }

  /**
    `after` differs from `before` only by successful writes for `keys`:
    nothing is removed, a directory is never replaced, the only entries that
    change are files at those labels' paths, and every new entry is one of
    those labels' files or a directory above one.
   */
  ghost predicate WritesOnly(before: Tree, after: Tree, directory: string, keys: set<string>)
  {
    (forall q :: q in before ==> q in after) &&
    (forall q :: q in before && (before[q].Dir? || forall k :: k in keys ==> q != LabelPath(directory, k)) ==>
       after[q] == before[q]) &&
    (forall q :: q in after && q !in before ==>
       exists k :: k in keys && q <= LabelPath(directory, k))
  }

  /**
    What the ancestor loop of `filesToDelete` records for one label path
    `p`: `p` itself, then its parent, and so on up to but excluding `root`.
   */
  ghost function Chain(p: Path, root: Path): set<Path>
    requires root <= p
    decreases |p|
  {
    if p == root then {} else {p} + Chain(Parent(p), root)
  }

  /** The chain from `p` up to `root` is every path strictly below `root` that leads to `p`. */
  lemma {:induction false} ChainIsRange(p: Path, root: Path, q: Path)
    requires root <= p
    ensures q in Chain(p, root) <==> root < q && q <= p
    decreases |p|
  {
    if p != root {
      ChainIsRange(Parent(p), root, q);
      if root < q && q <= p && q != p {
        PrefixesOrdered(q, Parent(p), p);
      }
    }
  }

  /** Everything the ancestor loop records for the labels `keys`. */
  ghost function RequiredSet(directory: string, keys: set<string>): set<Path>
  {
    set k, q | k in keys && q in Chain(LabelPath(directory, k), RootPath(directory)) :: q
  }

  lemma RequiredSetAdd(directory: string, keys: set<string>, k: string)
    ensures RequiredSet(directory, keys + {k}) ==
            RequiredSet(directory, keys) + Chain(LabelPath(directory, k), RootPath(directory))
  {
  }

  /** The recorded paths are exactly the required ones. */
  lemma RequiredSetIff(directory: string, keys: set<string>, q: Path)
    ensures q in RequiredSet(directory, keys) <==> Required(directory, keys, q)
  {
    var root := RootPath(directory);
    if Required(directory, keys, q) {
      var k :| k in keys && root < q && q <= LabelPath(directory, k);
      ChainIsRange(LabelPath(directory, k), root, q);
    }
    if q in RequiredSet(directory, keys) {
      var k :| k in keys && q in Chain(LabelPath(directory, k), root);
      ChainIsRange(LabelPath(directory, k), root, q);
    }
  }

  lemma RequiredSetExact(directory: string, keys: set<string>)
    ensures forall q :: q in RequiredSet(directory, keys) <==> Required(directory, keys, q)
  {
    forall q ensures q in RequiredSet(directory, keys) <==> Required(directory, keys, q) {
      RequiredSetIff(directory, keys, q);
    }
  }

  /** The tree with every stale entry removed: what deleting the stale files leaves. */
  ghost function Pruned(fs: Tree, directory: string, keys: set<string>): (r: Tree)
    ensures TreeShaped(fs) ==> TreeShaped(r)
    ensures NoStale(directory, keys, r)
    ensures forall q :: q in fs && !IsStale(directory, keys, fs, q) ==> q in r && r[q] == fs[q]
    ensures r.Keys <= fs.Keys
    ensures NoStale(directory, keys, fs) ==> r == fs
  {
    var r := map q | q in fs && !IsStale(directory, keys, fs, q) :: fs[q];
    assert TreeShaped(fs) ==> TreeShaped(r) by {
      if TreeShaped(fs) {
        forall q | q in r && |q| > 1 ensures Parent(q) in r {
          if IsStale(directory, keys, fs, Parent(q)) {
            RequiredUpward(directory, keys, Parent(q), q);
            assert false;
          }
        }
      }
    }
    r
  }

  /** Whatever lies below an entry no label needs is not needed either. */
  lemma RequiredUpward(directory: string, keys: set<string>, p: Path, q: Path)
    requires RootPath(directory) < p && p <= q
    requires Required(directory, keys, q)
    ensures Required(directory, keys, p)
  {
    var k :| k in keys && RootPath(directory) < q && q <= LabelPath(directory, k);
    assert p <= LabelPath(directory, k);
  }

  /**
    In a converged tree the entries below the root are exactly the required
    paths: each label's file and each directory between the root and it.
   */
  lemma ConvergedExact(directory: string, labels: map<string, string>, fs: Tree, q: Path)
    requires TreeShaped(fs) && Converged(directory, labels, fs)
    requires RootPath(directory) < q
    ensures q in fs <==> Required(directory, labels.Keys, q)
  {
    if Required(directory, labels.Keys, q) {
      var k :| k in labels && RootPath(directory) < q && q <= LabelPath(directory, k);
      if q != LabelPath(directory, k) {
        AncestorsAreDirs(fs, LabelPath(directory, k), q);
      }
    } else {
      assert !IsStale(directory, labels.Keys, fs, q);
    }
  }

  /** Of the attempted labels `done`, `failed` holds exactly those whose file cannot be written. */
  ghost predicate FailedExactly(directory: string, fs: Tree, done: set<string>, failed: set<string>)
  {
    failed <= done &&
    forall k :: k in done ==> (k in failed <==> !Writable(fs, LabelPath(directory, k)))
  }

  /** Every attempted label that did not fail has its file, holding its value. */
  ghost predicate FilesWritten(directory: string, labels: map<string, string>, fs: Tree,
                               done: set<string>, failed: set<string>)
  {
    forall k :: k in done && k !in failed && k in labels ==>
      LabelPath(directory, k) in fs && fs[LabelPath(directory, k)] == File(labels[k])
  }

  /** Writing a label's file keeps the files of the labels attempted before it. */
  lemma WrittenKeepsFiles(directory: string, labels: map<string, string>, fs: Tree,
                          done: set<string>, failed: set<string>, key: string)
    requires TreeShaped(fs) && key in labels && key !in done && ValidKeys(labels.Keys)
    requires Writable(fs, LabelPath(directory, key))
    requires FilesWritten(directory, labels, fs, done, failed)
    ensures FilesWritten(directory, labels, Written(fs, LabelPath(directory, key), labels[key]),
                         done + {key}, failed)
  {
    var p := LabelPath(directory, key);
    forall k | k in done && k !in failed && k in labels ensures LabelPath(directory, k) != p {
      if LabelPath(directory, k) == p {
        LabelPathInjective(directory, k, key);
      }
    }
  }

  /** Writing a label's file keeps `failed` exact: what could not be written still cannot. */
  lemma WrittenKeepsFailed(directory: string, labels: map<string, string>, fs: Tree,
                           done: set<string>, failed: set<string>, key: string)
    requires TreeShaped(fs) && key in labels && key !in done && done <= labels.Keys && ValidKeys(labels.Keys)
    requires Writable(fs, LabelPath(directory, key))
    requires FailedExactly(directory, fs, done, failed)
    requires FilesWritten(directory, labels, fs, done, failed)
    ensures FailedExactly(directory, Written(fs, LabelPath(directory, key), labels[key]), done + {key}, failed)
  {
    var p := LabelPath(directory, key);
    var r := Written(fs, p, labels[key]);
    WrittenKeepsFiles(directory, labels, fs, done, failed, key);
    forall k | k in done + {key} ensures k in failed <==> !Writable(r, LabelPath(directory, k)) {
      if k in failed {
        UnwritablePersists(fs, p, labels[key], LabelPath(directory, k));
      } else {
        FileWritable(r, LabelPath(directory, k));
      }
    }
  }

  /** Without nesting, writing one label's file keeps the remaining ones writable. */
  lemma WrittenKeepsWritable(directory: string, keys: set<string>, fs: Tree, key: string, content: string)
    requires TreeShaped(fs) && key in keys && ValidKeys(keys) && NoNesting(directory, keys)
    requires AllWritable(directory, keys, fs)
    ensures AllWritable(directory, keys - {key}, Written(fs, LabelPath(directory, key), content))
  {
    var p := LabelPath(directory, key);
    forall k | k in keys - {key} ensures Writable(Written(fs, p, content), LabelPath(directory, k)) {
      if LabelPath(directory, k) == p {
        LabelPathInjective(directory, k, key);
      }
      WritablePreserved(fs, p, content, LabelPath(directory, k));
    }
  }

  /** A label whose file cannot be written is recorded without changing the tree. */
  lemma FailedKeeps(directory: string, labels: map<string, string>, fs: Tree,
                    done: set<string>, failed: set<string>, key: string)
    requires key !in done
    requires !Writable(fs, LabelPath(directory, key))
    requires FailedExactly(directory, fs, done, failed)
    requires FilesWritten(directory, labels, fs, done, failed)
    ensures FailedExactly(directory, fs, done + {key}, failed + {key})
    ensures FilesWritten(directory, labels, fs, done + {key}, failed + {key})
  {
  }

  /** After every label is attempted, each label that did not fail is applied. */
  lemma OutcomeApplied(directory: string, labels: map<string, string>, fs: Tree, failed: set<string>)
    requires FailedExactly(directory, fs, labels.Keys, failed)
    requires FilesWritten(directory, labels, fs, labels.Keys, failed)
    ensures Applied(directory, labels, fs)
  {
  }

  /** The tree alone decides which labels fail. */
  lemma FailedUnique(directory: string, fs: Tree, keys: set<string>, a: set<string>, b: set<string>)
    requires FailedExactly(directory, fs, keys, a) && FailedExactly(directory, fs, keys, b)
    ensures a == b
  {
  }

  /**
    A successful write of one more label's file keeps `WritesOnly`.  The
    file's path cannot be a directory of `before`: that directory would
    still be there, and the path would not be writable.
   */
  lemma WrittenOnly(before: Tree, fs: Tree, directory: string, keys: set<string>, key: string, content: string)
    requires TreeShaped(fs) && Writable(fs, LabelPath(directory, key))
    requires WritesOnly(before, fs, directory, keys)
    ensures WritesOnly(before, Written(fs, LabelPath(directory, key), content), directory, keys + {key})
  {
    var p := LabelPath(directory, key);
    var r := Written(fs, p, content);
    forall q | q in r && q !in before ensures exists k :: k in keys + {key} && q <= LabelPath(directory, k) {
      if q in fs {
        var k :| k in keys && q <= LabelPath(directory, k);
      } else {
        assert q <= p;
      }
    }
  }

  /** A failed write changes nothing, so the labels written so far are the same. */
  lemma FailureKeepsWritten(done: set<string>, failed: set<string>, key: string)
    requires key !in done
    ensures (done + {key}) - (failed + {key}) == done - failed
  {
  }

  /** A successful write adds its label to those written so far. */
  lemma SuccessAddsWritten(done: set<string>, failed: set<string>, key: string)
    requires failed <= done && key !in done
    ensures (done + {key}) - failed == (done - failed) + {key}
  {
  }

  /**
    Removing every stale entry together with everything below it leaves
    exactly the pruned tree: whatever lies below a stale entry is stale too.
   */
  lemma RemovedStaleIsPruned(before: Tree, fs: Tree, directory: string, keys: set<string>, files: seq<Path>)
    requires forall q :: q in files <==> IsStale(directory, keys, before, q)
    requires fs.Keys <= before.Keys && forall q :: q in fs ==> fs[q] == before[q]
    requires forall q :: q in before ==> (q in fs <==> forall j :: 0 <= j < |files| ==> !(files[j] <= q))
    ensures fs == Pruned(before, directory, keys)
  {
    var r := Pruned(before, directory, keys);
    forall q | q in before ensures q in fs <==> !IsStale(directory, keys, before, q) {
      if IsStale(directory, keys, before, q) {
        var j :| 0 <= j < |files| && files[j] == q;
      } else if q !in fs {
        var j :| 0 <= j < |files| && files[j] <= q;
        assert IsStale(directory, keys, before, files[j]);
        RequiredUpward(directory, keys, files[j], q);
      }
    }
    assert fs.Keys == r.Keys;
  }

  /**
    Pruning keeps every label's outcome: the files written stay, and what
    blocked a failed label (a file above its path, or a directory in its
    place) is required, so it stays too.
   */
  lemma PrunedKeepsOutcome(directory: string, labels: map<string, string>, fs: Tree, failed: set<string>)
    requires TreeShaped(fs)
    requires FailedExactly(directory, fs, labels.Keys, failed)
    requires FilesWritten(directory, labels, fs, labels.Keys, failed)
    ensures FailedExactly(directory, Pruned(fs, directory, labels.Keys), labels.Keys, failed)
    ensures FilesWritten(directory, labels, Pruned(fs, directory, labels.Keys), labels.Keys, failed)
  {
    var r := Pruned(fs, directory, labels.Keys);
    forall k | k in labels
      ensures k in failed <==> !Writable(r, LabelPath(directory, k))
      ensures k !in failed ==> LabelPath(directory, k) in r && r[LabelPath(directory, k)] == File(labels[k])
    {
      var p := LabelPath(directory, k);
      if k in failed {
        if p in fs && fs[p].Dir? {
          assert Required(directory, labels.Keys, p);
          assert r[p] == Dir;
        } else {
          var a :| a in fs && a < p && fs[a].File?;
          if RootPath(directory) < a {
            assert Required(directory, labels.Keys, a);
          }
          assert a in r && r[a].File?;
        }
      } else {
        assert Required(directory, labels.Keys, p);
        FileWritable(r, p);
      }
    }
  }

  /** Entries that are not stale before the writes are not stale after them either. */
  lemma WritesKeepNonStale(before: Tree, after: Tree, directory: string, labels: map<string, string>,
                           written: set<string>, q: Path)
    requires WritesOnly(before, after, directory, written)
    requires q in before && !IsStale(directory, labels.Keys, before, q)
    ensures q in after && !IsStale(directory, labels.Keys, after, q)
  {
  }

  /**
    A trailing '/' on the configured directory changes neither the stale
    entries nor the label paths.
   */
  lemma StaleIgnoresTrailingSlash(directory: string, keys: set<string>, fs: Tree, q: Path)
    requires CleanRoot(directory) && !HasSuffix(directory, "/")
    ensures CleanRoot(directory + "/")
    ensures forall k :: LabelPath(directory + "/", k) == LabelPath(directory, k)
    ensures IsStale(directory + "/", keys, fs, q) <==> IsStale(directory, keys, fs, q)
  {
    TrailingSlashSameRoot(directory);
  }

  /**
    Into a directory that exists (with only directories above it) and has
    nothing below it, every label's file can be written.
   */
  lemma EmptyRootAllWritable(directory: string, keys: set<string>, fs: Tree)
    requires forall q :: q in fs && q <= RootPath(directory) ==> fs[q].Dir?
    requires forall q :: q in fs ==> !(RootPath(directory) < q)
    ensures AllWritable(directory, keys, fs)
  {
    var root := RootPath(directory);
    forall k, q | k in keys && q in fs && q < LabelPath(directory, k) ensures fs[q].Dir? {
      if |q| <= |root| {
        PrefixesOrdered(q, root, LabelPath(directory, k));
      } else {
        PrefixesOrdered(root, q, LabelPath(directory, k));
      }
    }
  }

  /** Moving one key from the pending labels to the attempted ones. */
  lemma MoveKey(all: set<string>, pending: set<string>, done: set<string>, key: string)
    requires pending <= all && done == all - pending && key in pending
    ensures done + {key} == all - (pending - {key})
  {
  }

  /** The program's state: its configuration and the tree it manages. */
  class NodeLabelsToFiles {
    const config: Config
    var fs: Tree

    ghost predicate Valid()
      reads this
    {
      CleanRoot(config.directory) && TreeShaped(fs)
    }

    constructor (config: Config, fs: Tree)
      requires CleanRoot(config.directory) && TreeShaped(fs)
      ensures Valid() && this.config == config && this.fs == fs
    {
      this.config := config;
      this.fs := fs;
    }

    /**
      The first half of `filesToDelete`: the map from every required path
      (each label's file and each directory between the root and it) to the
      label's value, or "" for a directory.
     */
    method RequiredPaths(labels: map<string, string>) returns (labelsToPaths: map<Path, string>)
      requires CleanRoot(config.directory) && ValidKeys(labels.Keys)
      ensures forall q :: q in labelsToPaths <==> Required(config.directory, labels.Keys, q)
    {
      var directory := config.directory;
      // strings.TrimSuffix(n.config.directory, "/"), where the ancestor loop stops
      var root := RootPath(directory);
      labelsToPaths := map[];
      var pending := labels.Keys;
      ghost var done: set<string> := {};
      while pending != {}
        invariant pending <= labels.Keys && done == labels.Keys - pending
        invariant labelsToPaths.Keys == RequiredSet(directory, done)
      {
        var key :| key in pending;
        var labelWithPath := LabelPath(directory, key);
        labelsToPaths := labelsToPaths[labelWithPath := labels[key]];
        labelsToPaths := RecordAncestors(labelsToPaths, labelWithPath, root);
        RequiredSetAdd(directory, done, key);
        MoveKey(labels.Keys, pending, done, key);
        pending := pending - {key};
        done := done + {key};
      }
      RequiredSetExact(directory, labels.Keys);
    }

    /**
      The inner loop of `filesToDelete`: record every directory from the
      parent of `labelWithPath` up to, but excluding, `root`.
     */
    method RecordAncestors(labelsToPaths: map<Path, string>, labelWithPath: Path, root: Path)
      returns (r: map<Path, string>)
      requires root < labelWithPath && labelWithPath in labelsToPaths
      ensures r.Keys == labelsToPaths.Keys + Chain(labelWithPath, root)
    {
      r := labelsToPaths;
      var dir := Parent(labelWithPath);
      while dir != root
        invariant root <= dir && |dir| < |labelWithPath|
        invariant r.Keys + Chain(dir, root) == labelsToPaths.Keys + Chain(labelWithPath, root)
        decreases |dir|
      {
        r := r[dir := ""];
        dir := Parent(dir);
      }
    }

    /**
      `filesToDelete`: the entries below the root that are neither the
      root, nor a label's file, nor a directory between the root and one.
      Its walk callback never returns an error, so neither does the walk.
     */
    method FilesToDelete(labels: map<string, string>) returns (files: seq<Path>)
      requires Valid() && ValidKeys(labels.Keys)
      ensures forall q :: q in files <==> IsStale(config.directory, labels.Keys, fs, q)
      ensures forall i, j :: 0 <= i < j < |files| ==> files[i] != files[j]
    {
      var labelsToPaths := RequiredPaths(labels);
      var root := RootPath(config.directory);
      // filepath.Walk visits the root and everything below it
      var walked := set q | q in fs && root <= q;
      var unvisited := walked;
      files := [];
      while unvisited != {}
        invariant unvisited <= walked
        invariant forall q :: q in files <==> q in walked - unvisited && q != root && q !in labelsToPaths
        invariant forall i :: 0 <= i < |files| ==> files[i] !in unvisited
        invariant forall i, j :: 0 <= i < j < |files| ==> files[i] != files[j]
      {
        var path :| path in unvisited;
        if path != root && path !in labelsToPaths {
          files := files + [path];
        }
        unvisited := unvisited - {path};
      }
    }

    /**
      `writeToFile(p, content)`: create the parent directory (and any missing
      one above it) unless it is already a directory, then create or
      truncate `p` and write `content`.  It succeeds exactly when `p` is
      writable, and then leaves `Written(fs, p, content)`; on failure the
      tree is unchanged.
     */
    method WriteToFile(p: Path, content: string) returns (err: Option<FsError>)
      requires Valid() && |p| > 1
      modifies this
      ensures Valid()
      ensures err == None <==> Writable(old(fs), p)
      ensures err == None ==> fs == Written(old(fs), p, content)
      ensures err != None ==> fs == old(fs)
    {
      WritableIff(fs, p);
      var dir := Parent(p);
      if !(dir in fs && fs[dir].Dir?) {
        var made := MkdirAll(fs, dir);
        if made.Err? {
          return Some(made.error);
        }
        fs := made.value;
      } else {
        MkdirAllExisting(fs, dir);
      }
      assert fs == MkdirAll(old(fs), dir).value;
      if p in fs && fs[p].Dir? {
        return Some(IsADirectory(p));
      }
      fs := fs[p := File("")];        // os.Create truncates
      fs := fs[p := File(content)];   // f.Write
      OverwriteTwice(MkdirAll(old(fs), dir).value, p, File(""), File(content));
      err := None;
    }
    /**
      `createFileFromLabels`: attempt `writeToFile` for every label, in any
      order, and carry on past a failure.  The failures (logged by the
      source) are returned: exactly the labels whose file cannot be written
      in the final tree.  Only the labels that did not fail change the
      tree.  Without nested label paths and with every file writable up
      front, nothing fails; if every label that can be written already holds
      its value, nothing changes.
     */
    method CreateFileFromLabels(labels: map<string, string>) returns (failed: set<string>)
      requires Valid() && ValidKeys(labels.Keys)
      modifies this
      ensures Valid()
      ensures FailedExactly(config.directory, fs, labels.Keys, failed)
      ensures FilesWritten(config.directory, labels, fs, labels.Keys, failed)
      ensures WritesOnly(old(fs), fs, config.directory, labels.Keys - failed)
      ensures NoNesting(config.directory, labels.Keys) && AllWritable(config.directory, labels.Keys, old(fs)) ==>
                failed == {}
      ensures Applied(config.directory, labels, old(fs)) ==> fs == old(fs)
      ensures Present(config.directory, labels, old(fs)) ==> fs == old(fs) && failed == {}
    {
      var directory := config.directory;
      ghost var before := fs;
      ghost var clean := NoNesting(directory, labels.Keys) && AllWritable(directory, labels.Keys, fs);
      var pending := labels.Keys;
      ghost var done: set<string> := {};
      failed := {};
      while pending != {}
        invariant Valid()
        invariant pending <= labels.Keys && done == labels.Keys - pending
        invariant FailedExactly(directory, fs, done, failed)
        invariant FilesWritten(directory, labels, fs, done, failed)
        invariant WritesOnly(before, fs, directory, done - failed)
        invariant clean ==> failed == {} && AllWritable(directory, pending, fs)
        invariant Applied(directory, labels, before) ==> fs == before
        invariant Present(directory, labels, before) ==> failed == {}
      {
        var key :| key in pending;
        var p := LabelPath(directory, key);
        ghost var prev := fs;
        var err := WriteToFile(p, labels[key]);
        if err != None {
          if Present(directory, labels, before) {
            FileWritable(prev, p);
          }
          FailedKeeps(directory, labels, prev, done, failed, key);
          FailureKeepsWritten(done, failed, key);
          failed := failed + {key};
        } else {
          WrittenKeepsFiles(directory, labels, prev, done, failed, key);
          WrittenKeepsFailed(directory, labels, prev, done, failed, key);
          WrittenOnly(before, prev, directory, done - failed, key, labels[key]);
          SuccessAddsWritten(done, failed, key);
          if clean {
            WrittenKeepsWritable(directory, pending, prev, key, labels[key]);
          }
          if Applied(directory, labels, before) {
            WrittenSame(prev, p, labels[key]);
          }
        }
        MoveKey(labels.Keys, pending, done, key);
        pending := pending - {key};
        done := done + {key};
      }
    }
    /**
      `deleteStaleFiles`: list the stale entries, then `os.RemoveAll` each
      of them.  The result is the tree without its stale entries; the
      listing never fails, so neither does this.
     */
    method DeleteStaleFiles(labels: map<string, string>)
      requires Valid() && ValidKeys(labels.Keys)
      modifies this
      ensures Valid()
      ensures fs == Pruned(old(fs), config.directory, labels.Keys)
    {
      var files := FilesToDelete(labels);
      ghost var before := fs;
      var i := 0;
      while i < |files|
        invariant 0 <= i <= |files| && Valid()
        invariant fs.Keys <= before.Keys && forall q :: q in fs ==> fs[q] == before[q]
        invariant forall q :: q in before ==> (q in fs <==> forall j :: 0 <= j < i ==> !(files[j] <= q))
      {
        fs := RemoveAll(fs, files[i]);
        i := i + 1;
      }
      RemovedStaleIsPruned(before, fs, config.directory, labels.Keys, files);
    }
    /**
      `processOnce`: write every label's file, then, only when configured
      to, delete the stale entries.  `written` is the tree between the two
      phases.  With deletion on, a run in which no label failed leaves the
      tree converged, and a run on a converged tree changes nothing.  Every
      run leaves the tree settled, and a run on a settled tree changes
      nothing.
     */
    method ProcessOnce(labels: map<string, string>) returns (failed: set<string>, ghost written: Tree)
      requires Valid() && ValidKeys(labels.Keys)
      modifies this
      ensures Valid()
      ensures FailedExactly(config.directory, fs, labels.Keys, failed)
      ensures FilesWritten(config.directory, labels, fs, labels.Keys, failed)
      ensures NoNesting(config.directory, labels.Keys) && AllWritable(config.directory, labels.Keys, old(fs)) ==>
                failed == {}
      ensures WritesOnly(old(fs), written, config.directory, labels.Keys - failed)
      ensures !config.deleteStaleFiles ==> fs == written
      ensures config.deleteStaleFiles ==> fs == Pruned(written, config.directory, labels.Keys)
      ensures config.deleteStaleFiles ==>
                forall q :: q in old(fs) && !IsStale(config.directory, labels.Keys, old(fs), q) ==> q in fs
      ensures config.deleteStaleFiles && failed == {} ==> Converged(config.directory, labels, fs)
      ensures config.deleteStaleFiles && Converged(config.directory, labels, old(fs)) ==>
                fs == old(fs) && failed == {}
      ensures !config.deleteStaleFiles && Present(config.directory, labels, old(fs)) ==>
                fs == old(fs) && failed == {}
      ensures Settled(config.directory, labels, config.deleteStaleFiles, fs)
      ensures Settled(config.directory, labels, config.deleteStaleFiles, old(fs)) ==> fs == old(fs)
    {
      failed := CreateFileFromLabels(labels);
      written := fs;
      if config.deleteStaleFiles {
        DeleteStaleFiles(labels);
        PrunedKeepsOutcome(config.directory, labels, written, failed);
        forall q | q in old(fs) && !IsStale(config.directory, labels.Keys, old(fs), q) ensures q in fs {
          WritesKeepNonStale(old(fs), written, config.directory, labels, labels.Keys - failed, q);
        }
      }
      OutcomeApplied(config.directory, labels, fs, failed);
    }

    /**
      Two passes over the same labels, as when `process` hears from the
      watch again about a node whose labels did not change: the second pass
      leaves the tree as the first one left it and fails on exactly the
      same labels.
     */
    method ProcessTwice(labels: map<string, string>) returns (first: set<string>, second: set<string>, ghost between: Tree)
      requires Valid() && ValidKeys(labels.Keys)
      modifies this
      ensures Valid()
      ensures FailedExactly(config.directory, between, labels.Keys, first)
      ensures fs == between && second == first
    {
      ghost var written: Tree;
      first, written := ProcessOnce(labels);
      between := fs;
      second, written := ProcessOnce(labels);
      FailedUnique(config.directory, fs, labels.Keys, first, second);
    }
  }
}
