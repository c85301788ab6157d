/**
  The fixtures of the repository's own tests, stated against the model:
  the directory `test` holds the directory `resources`, which holds the
  files `foo` and `bar`.
 */
module Examples {
  import opened Paths
  import opened FileSystem
  import opened Reconciler

  const Fixture: Tree := map[
    ["test"] := Dir,
    ["test", "resources"] := Dir,
    ["test", "resources", "foo"] := File(""),
    ["test", "resources", "bar"] := File("")]

  /** The entries of the fixture, one by one. */
  lemma FixtureEntries(q: Path)
    ensures q in Fixture <==>
              q == ["test"] || q == ["test", "resources"] ||
              q == ["test", "resources", "foo"] || q == ["test", "resources", "bar"]
  {
  }

  /** A string without '/' is one segment, and has no trailing '/' to trim. */
  lemma Segment(s: string)
    requires |s| > 0 && '/' !in s
    ensures TrimSuffix(s, "/") == s && Split(s) == [s]
  {
    assert s[|s| - 1] != '/';
    assert s[|s| - 1..] != "/" by { assert s[|s| - 1..][0] == s[|s| - 1]; }
    NoSlashSplit(s);
  }

  /** Two such strings joined by '/' are two segments. */
  lemma TwoSegments(a: string, b: string)
    requires |b| > 0 && '/' !in a && '/' !in b
    ensures TrimSuffix(a + "/" + b, "/") == a + "/" + b
    ensures Split(a + "/" + b) == [a, b]
  {
    var s := a + "/" + b;
    assert s[|s| - 1] == b[|b| - 1] != '/';
    assert s[|s| - 1..] != "/" by { assert s[|s| - 1..][0] == s[|s| - 1]; }
    SplitAroundSlash(a, b);
    NoSlashSplit(a);
    NoSlashSplit(b);
  }

  /** The root `test` and its label paths. */
  lemma UnderTest(directory: string, k: string)
    requires directory == "test"
    ensures RootPath(directory) == ["test"]
    ensures k == "baz" ==> LabelPath(directory, k) == ["test", "baz"]
    ensures k == "resources/bar" ==> LabelPath(directory, k) == ["test", "resources", "bar"]
  {
    Segment(directory);
    if k == "baz" {
      Segment(k);
    } else if k == "resources/bar" {
      var a, b := "resources", "bar";
      assert k == a + "/" + b;
      TwoSegments(a, b);
    }
  }

  /** The root `test/resources` and its label paths. */
  lemma UnderResources(directory: string, k: string)
    requires directory == "test/resources"
    ensures RootPath(directory) == ["test", "resources"]
    ensures k == "bar" || k == "baz" ==> LabelPath(directory, k) == ["test", "resources", k]
  {
    var a, b := "test", "resources";
    assert directory == a + "/" + b;
    TwoSegments(a, b);
    if k == "bar" || k == "baz" {
      Segment(k);
    }
  }

  /** Labels `bar` and `baz` under `test/resources`: only `foo` is stale. */
  lemma StaleFooOnly(directory: string, keys: set<string>, q: Path)
    requires directory == "test/resources" && keys == {"bar", "baz"}
    ensures IsStale(directory, keys, Fixture, q) <==> q == ["test", "resources", "foo"]
  {
    UnderResources(directory, "");
    if q == ["test", "resources", "foo"] {
      forall k | k in keys ensures !(q <= LabelPath(directory, k)) {
        UnderResources(directory, k);
        assert LabelPath(directory, k)[2] != "foo";
      }
    } else if q == ["test", "resources", "bar"] {
      UnderResources(directory, "bar");
      assert q <= LabelPath(directory, "bar");
    }
  }

  /** Label `baz` under `test/resources`: both files are stale. */
  lemma StaleBothFiles(directory: string, keys: set<string>, q: Path)
    requires directory == "test/resources" && keys == {"baz"}
    ensures IsStale(directory, keys, Fixture, q) <==>
              q == ["test", "resources", "foo"] || q == ["test", "resources", "bar"]
  {
    UnderResources(directory, "baz");
    if q == ["test", "resources", "foo"] || q == ["test", "resources", "bar"] {
      assert !(q <= LabelPath(directory, "baz")) by {
        assert LabelPath(directory, "baz")[2] != q[2];
      }
    }
  }

  /** Label `baz` under `test`: the directory `resources` and both files in it are stale. */
  lemma StaleDirectory(directory: string, keys: set<string>, q: Path)
    requires directory == "test" && keys == {"baz"}
    ensures IsStale(directory, keys, Fixture, q) <==> q in Fixture && |q| > 1
  {
    UnderTest(directory, "baz");
    if q in Fixture && |q| > 1 {
      assert q[1] == "resources" by { FixtureEntries(q); }
    }
  }

  lemma FooBesideNestedLabel(directory: string, keys: set<string>)
    requires directory == "test" && keys == {"baz", "resources/bar"}
    ensures IsStale(directory, keys, Fixture, ["test", "resources", "foo"])
  {
    var q := ["test", "resources", "foo"];
    assert RootPath(directory) < q by { UnderTest(directory, ""); }
    forall k | k in keys ensures !(q <= LabelPath(directory, k)) {
      UnderTest(directory, k);
      if k == "resources/bar" {
        assert LabelPath(directory, k)[2] != "foo";
      }
    }
  }

  lemma NestedLabelKeeps(directory: string, keys: set<string>, q: Path)
    requires directory == "test" && keys == {"baz", "resources/bar"}
    requires q == ["test", "resources"] || q == ["test", "resources", "bar"]
    ensures Required(directory, keys, q)
  {
    UnderTest(directory, "resources/bar");
    assert q <= LabelPath(directory, "resources/bar");
  }

  /**
    Labels `baz` and `resources/bar` under `test`: the directory
    `resources` stays, as it leads to a label's file; only `foo` is stale.
   */
  lemma StaleBesideNestedLabel(directory: string, keys: set<string>, q: Path)
    requires directory == "test" && keys == {"baz", "resources/bar"}
    ensures IsStale(directory, keys, Fixture, q) <==> q == ["test", "resources", "foo"]
  {
    if q == ["test", "resources", "foo"] {
      FooBesideNestedLabel(directory, keys);
    } else if q == ["test", "resources"] || q == ["test", "resources", "bar"] {
      NestedLabelKeeps(directory, keys, q);
    } else {
      UnderTest(directory, "");
    }
  }

  /** The same labels under `test/`: the trailing '/' changes nothing. */
  lemma StaleBesideNestedLabelTrailingSlash(directory: string, keys: set<string>, q: Path)
    requires directory == "test/" && keys == {"baz", "resources/bar"}
    ensures IsStale(directory, keys, Fixture, q) <==> q == ["test", "resources", "foo"]
  {
    var test := "test";
    assert CleanRoot(test) && !HasSuffix(test, "/") by { UnderTest(test, ""); Segment(test); }
    StaleBesideNestedLabel(test, keys, q);
    StaleIgnoresTrailingSlash(test, keys, Fixture, q);
    assert test + "/" == directory;
  }
}
