/** The program's settings and their validation (`config.Validate`). */
module Config {
  import opened Wrappers

  const Once := "once"
  const Always := "always"

  const DirectoryMissing := "directory is not configured"
  const NodeNameMissing := "nodename is not configured"
  const ModeMissing := "mode is not configured"
  /** `fmt.Errorf("mode should be one of %s or %s", Once, Always)` */
  const ModeInvalid := "mode should be one of " + Once + " or " + Always

  datatype Config = Config(
    directory: string,
    mode: string,          // Once | Always
    nodeName: string,
    kubeconfig: string,
    deleteStaleFiles: bool)

  /** The settings the program can run with. */
  predicate Acceptable(c: Config)
  {
    c.directory != "" && c.nodeName != "" && (c.mode == Once || c.mode == Always)
  }

  /**
    The first missing or invalid setting, checked in the order directory,
    node name, empty mode, unknown mode; `None` when there is none.
   */
  function Validate(c: Config): (err: Option<string>)
    ensures err == None <==> Acceptable(c)
    ensures c.directory == "" ==> err == Some(DirectoryMissing)
    ensures c.directory != "" && c.nodeName == "" ==> err == Some(NodeNameMissing)
    ensures c.directory != "" && c.nodeName != "" && c.mode == "" ==> err == Some(ModeMissing)
    ensures c.directory != "" && c.nodeName != "" && c.mode != "" && !Acceptable(c) ==> err == Some(ModeInvalid)
  {
    if c.directory == "" then Some(DirectoryMissing)
    // the source tests the directory a second time here; that test can never fire
    else if c.directory == "" then Some(DirectoryMissing)
    else if c.nodeName == "" then Some(NodeNameMissing)
    else if c.mode == "" then Some(ModeMissing)
    else if c.mode != Once && c.mode != Always then Some(ModeInvalid)
    else None
  }

  /** Each way of failing has a message of its own. */
  lemma ValidateMessagesDistinct(c: Config, c': Config)
    requires Validate(c).Some? && Validate(c').Some?
    requires Validate(c) == Validate(c')
    ensures c.directory == "" <==> c'.directory == ""
    ensures c.directory != "" ==> (c.nodeName == "" <==> c'.nodeName == "")
    ensures c.directory != "" && c.nodeName != "" ==> (c.mode == "" <==> c'.mode == "")
  {
    assert ModeInvalid == "mode should be one of once or always";
  }

  /** The five validation cases exercised by the repository's tests. */
  lemma ValidateExamples()
    ensures Validate(Config("test", Always, "aRealNode", "", false)) == None
    ensures Validate(Config("", Always, "aRealNode", "", false)) == Some("directory is not configured")
    ensures Validate(Config("test", Always, "", "", false)) == Some("nodename is not configured")
    ensures Validate(Config("test", "", "foo", "", false)) == Some("mode is not configured")
    ensures Validate(Config("test", "Wrong", "foo", "", false)) == Some("mode should be one of once or always")
  {
    assert ModeInvalid == "mode should be one of once or always";
  }
}
