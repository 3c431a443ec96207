/**
 * file_organizer.rs: `organize_file` and `organize_file_to_destination`.
 * The file system is a map from directory path to that directory's
 * entries (name -> file). Moving a file creates the destination directory
 * when it is missing, probes for a free name there, and renames the file.
 */
module Organizer {
  import opened Wrappers
  import opened Strings
  import opened Paths
  import opened Glob
  import opened Configuration
  import opened Collision

  /** The identity of a file, which a rename carries along. */
  type FileId = nat

  /** Directory path -> (entry name -> file). */
  type Tree = map<string, map<string, FileId>>

  /** The `Err` strings of the two operations. */
  datatype OrganizeError =
    | NoMatchingRule(fileName: string) // the rule lookup gave no destination for this file name
    | InvalidFileName                  // the path has no final component
    | MoveFailed                       // the rename failed

  /** What is at `dir`/`name`, if anything. */
  function Entry(tree: Tree, dir: string, name: string): Option<FileId>
  {
    if dir in tree && name in tree[dir] then Some(tree[dir][name]) else None
  }

  /** The file system after creating `dir` when it is missing; an existing directory is left as it is. */
  function WithDir(tree: Tree, dir: string): (t: Tree)
    ensures dir in t && t.Keys == tree.Keys + {dir}
    ensures forall d, n :: d != dir || dir in tree ==> Entry(t, d, n) == Entry(tree, d, n)
    ensures dir !in tree ==> t[dir] == map[]
  {
    if dir in tree then tree else tree[dir := map[]]
  }

  /** `fs::rename(src, destination/target)` once the source is known to exist. */
  function Renamed(tree: Tree, src: FilePath, destination: string, target: string): (t: Tree)
    requires Entry(tree, src.dir, src.name).Some? && destination in tree
    ensures t.Keys == tree.Keys
    ensures Entry(t, destination, target) == Entry(tree, src.dir, src.name)
    ensures (src.dir, src.name) != (destination, target) ==> Entry(t, src.dir, src.name).None?
    ensures forall d, n :: (d, n) != (src.dir, src.name) && (d, n) != (destination, target) ==>
      Entry(t, d, n) == Entry(tree, d, n)
  {
    var id := tree[src.dir][src.name];
    var removed := tree[src.dir := tree[src.dir] - {src.name}];
    removed[destination := removed[destination][target := id]]
  }

  /** The name the file at `src` gets in `destination` (a directory of `tree`). */
  function TargetName(tree: Tree, src: FilePath, destination: string): string
    requires destination in tree
  {
    ChosenName(tree[destination].Keys, src.name)
  }

  /** `organize_file_to_destination(src, destination)`: the result and the new file system. */
  function ToDestination(tree: Tree, src: FilePath, destination: string): (out: (Result<string, OrganizeError>, Tree))
    ensures destination in out.1
    ensures out.0.Ok? <==> FileName(src).Some? && Entry(tree, src.dir, src.name).Some?
    ensures out.0.Ok? ==>
      out.0.value == Join(destination, ChosenName(WithDir(tree, destination)[destination].Keys, src.name))
    ensures out.0.Err? ==> out.1 == WithDir(tree, destination)
  {
    var t := WithDir(tree, destination);
    if FileName(src).None? then (Err(InvalidFileName), t)
    else
      var target := TargetName(t, src, destination);
      if Entry(t, src.dir, src.name).Some? then
        (Ok(Join(destination, target)), Renamed(t, src, destination, target))
      else
        (Err(MoveFailed), t)
  }

  /** The extension `organize_file` looks rules up with: lower-cased, or "other" when there is none. */
  function LookupExtension(name: string): (r: string)
    ensures Extension(name).None? ==> r == "other"
    ensures Extension(name).Some? ==> Lower(r) == r && r == Lower(Extension(name).value)
  {
    match Extension(name)
    case Some(e) => LowerIdempotent(e); Lower(e)
    case None => "other"
  }

  /** The file name `organize_file` looks rules up with: "" when the path has none. */
  function LookupName(src: FilePath): (r: string)
    ensures FileName(src).Some? ==> r == src.name
    ensures src.name == "." || src.name == ".." ==> r == ""
    ensures r == "" || FileName(src) == Some(r)
  {
    match FileName(src)
    case Some(n) => n
    case None => ""
  }

  /** What `organize_file` asks the rule lookup about `src`. */
  function LookupInfo(src: FilePath, created: Option<Time>): (r: FileInfo)
    ensures Lower(r.extension) == r.extension
    ensures Extension(src.name).None? ==> r.extension == "other"
    ensures Extension(src.name).Some? ==> r.extension == Lower(Extension(src.name).value)
    ensures r.name == "" || r.name == src.name
    ensures |r.path| >= |src.name| && r.path[|r.path| - |src.name|..] == src.name
    ensures r.created == created
  {
    FileInfo(Join(src.dir, src.name), LookupExtension(src.name), LookupName(src), created)
  }

  /** `organize_file(src, config)`: the result and the new file system. */
  function Organize(tree: Tree, src: FilePath, config: Config, created: Option<Time>, regex: RegexOracle)
    : (out: (Result<string, OrganizeError>, Tree))
    ensures DestinationFolder(config, LookupInfo(src, created), regex).None? ==>
      out == (Err(NoMatchingRule(LookupName(src))), tree)
    ensures out.0.Ok? ==> DestinationFolder(config, LookupInfo(src, created), regex).Some?
  {
    match DestinationFolder(config, LookupInfo(src, created), regex)
    case None => (Err(NoMatchingRule(LookupName(src))), tree)
    case Some(destination) => ToDestination(tree, src, destination)
  }

  /**
   * A successful move takes the file out of its source entry and puts it,
   * under the chosen name, into the destination directory; that name was
   * free before, the returned path is destination/name, and every other
   * entry of every directory is as it was.
   */
  lemma ToDestinationMoves(tree: Tree, src: FilePath, destination: string)
    requires ToDestination(tree, src, destination).0.Ok?
    ensures var (r, t) := ToDestination(tree, src, destination);
      var target := ChosenName(WithDir(tree, destination)[destination].Keys, src.name);
      && r.value == Join(destination, target)
      && Entry(tree, destination, target).None?
      && Entry(t, src.dir, src.name).None?
      && Entry(tree, src.dir, src.name).Some?
      && Entry(t, destination, target) == Entry(tree, src.dir, src.name)
      && t.Keys == tree.Keys + {destination}
      && forall d, n :: (d, n) != (src.dir, src.name) && (d, n) != (destination, target) ==>
           Entry(t, d, n) == Entry(tree, d, n)
  {
    var w := WithDir(tree, destination);
    var target := TargetName(w, src, destination);
    assert Entry(w, destination, target).None?;
    if src.dir == destination {
      assert target != src.name;
    }
  }

  /** Moving never overwrites: everything that was in the destination, other than the moved file itself, is still there. */
  lemma ToDestinationNeverOverwrites(tree: Tree, src: FilePath, destination: string, n: string)
    requires Entry(tree, destination, n).Some? && (destination, n) != (src.dir, src.name)
    ensures Entry(ToDestination(tree, src, destination).1, destination, n) == Entry(tree, destination, n)
  {
    if ToDestination(tree, src, destination).0.Ok? {
      ToDestinationMoves(tree, src, destination);
    }
  }

  /** The moved file keeps its name exactly when that name is free in the destination. */
  lemma ToDestinationKeepsFreeName(tree: Tree, src: FilePath, destination: string)
    requires ToDestination(tree, src, destination).0.Ok?
    ensures ToDestination(tree, src, destination).0.value == Join(destination, src.name)
            <==> Entry(tree, destination, src.name).None?
  {
    var w := WithDir(tree, destination);
    var target := ChosenName(w[destination].Keys, src.name);
    if Join(destination, src.name) == Join(destination, target) {
      JoinCancel(destination, src.name, target);
    }
  }

  lemma JoinCancel(dir: string, a: string, b: string)
    requires Join(dir, a) == Join(dir, b)
    ensures a == b
  {
  }

  /**
   * The failures: an invalid file name, or a source that is gone. Either
   * way the destination directory has been created and nothing else changed.
   */
  lemma ToDestinationErrors(tree: Tree, src: FilePath, destination: string)
    ensures var (r, t) := ToDestination(tree, src, destination);
      && (r == Err(InvalidFileName) <==> FileName(src).None?)
      && (r == Err(MoveFailed) <==> FileName(src).Some? && Entry(tree, src.dir, src.name).None?)
      && (r.Err? ==> t == WithDir(tree, destination))
      && (r.Ok? <==> FileName(src).Some? && Entry(tree, src.dir, src.name).Some?)
  {
    var w := WithDir(tree, destination);
    assert Entry(w, src.dir, src.name) == Entry(tree, src.dir, src.name) by {
      if src.dir == destination && destination !in tree {
        assert w[destination] == map[];
      }
    }
  }

  /** With no destination from the rules or the mappings, `organize_file` fails and changes nothing. */
  lemma OrganizeWithoutRule(tree: Tree, src: FilePath, config: Config, created: Option<Time>, regex: RegexOracle)
    requires DestinationFolder(config, LookupInfo(src, created), regex).None?
    ensures Organize(tree, src, config, created, regex) == (Err(NoMatchingRule(LookupName(src))), tree)
  {
  }

  /** A file `organize_file` moves goes into the folder the rule lookup chose, under a name that was free there. */
  lemma OrganizeUsesLookup(tree: Tree, src: FilePath, config: Config, created: Option<Time>, regex: RegexOracle)
    requires Organize(tree, src, config, created, regex).0.Ok?
    ensures var folder := DestinationFolder(config, LookupInfo(src, created), regex);
      && folder.Some?
      && var target := ChosenName(WithDir(tree, folder.value)[folder.value].Keys, src.name);
         && Organize(tree, src, config, created, regex).0.value == Join(folder.value, target)
         && Entry(tree, folder.value, target).None?
         && Entry(Organize(tree, src, config, created, regex).1, folder.value, target) == Entry(tree, src.dir, src.name)
  {
    var folder := DestinationFolder(config, LookupInfo(src, created), regex);
    ToDestinationMoves(tree, src, folder.value);
  }

  /** The lookup extension is lower-cased; a dotfile or a name without '.' looks up "other"; "foo." looks up "". */
  lemma LookupExtensionExamples()
    ensures LookupExtension("Photo.JPG") == "jpg"
    ensures LookupExtension(".bashrc") == "other"
    ensures LookupExtension("README") == "other"
    ensures LookupExtension("foo.") == ""
  {
    ExtensionExamples();
    assert LastDot("Photo.JPG") == Some(5) by {
      assert "Photo.JPG"[..8] == "Photo.JP";
      assert "Photo.JP"[..7] == "Photo.J";
      assert "Photo.J"[..6] == "Photo.";
    }
    assert "Photo.JPG"[6..] == "JPG";
    assert Lower("JPG") == "jpg";
  }

  /** A file without an extension is looked up as "other", so a `FileType` rule whose value is "other" in any case matches it. */
  lemma NoExtensionMatchesOtherType(src: FilePath, created: Option<Time>, regex: RegexOracle, name: Option<string>, value: string, destination: string)
    requires Extension(src.name).None? && Lower(value) == "other"
    ensures Matches(Rule(name, FileType(value), destination), LookupInfo(src, created), regex)
  {
    assert Lower("other") == "other";
  }

  /** "a.pdf" is looked up with extension "pdf", so a "pdf" rule names "/docs". */
  lemma PdfRuleLookup(regex: RegexOracle)
    ensures DestinationFolder(Config(None, [Rule(None, FileType("pdf"), "/docs")], map[]),
                              LookupInfo(FilePath("/in", "a.pdf"), None), regex) == Some("/docs")
  {
    assert LastDot("a.pdf") == Some(1) by {
      assert "a.pdf"[..4] == "a.pd";
      assert "a.pd"[..3] == "a.p";
      assert "a.p"[..2] == "a.";
    }
    assert "a.pdf"[2..] == "pdf";
    assert Extension("a.pdf") == Some("pdf");
    assert LookupExtension("a.pdf") == "pdf" by {
      assert Lower("pdf") == "pdf";
    }
    var info := LookupInfo(FilePath("/in", "a.pdf"), None);
    assert info.extension == "pdf";
    var rule := Rule(None, FileType("pdf"), "/docs");
    assert FileTypeMatches("pdf", info.extension);
    assert Yields(rule, info, regex);
    assert FirstRuleDestination([rule], info, regex) == Some("/docs");
  }

  /** Moving "/in/a.pdf" into a missing "/docs" creates it and keeps the name. */
  lemma PdfMove()
    ensures ToDestination(map["/in" := map["a.pdf" := 7]], FilePath("/in", "a.pdf"), "/docs")
            == (Ok("/docs/a.pdf"), map["/in" := map[], "/docs" := map["a.pdf" := 7]])
  {
    var tree := map["/in" := map["a.pdf" := 7]];
    var w := WithDir(tree, "/docs");
    assert w == tree["/docs" := map[]];
    assert ChosenName(w["/docs"].Keys, "a.pdf") == "a.pdf";
    assert Join("/docs", "a.pdf") == "/docs/a.pdf";
    assert FileName(FilePath("/in", "a.pdf")).Some?;
    assert Entry(w, "/in", "a.pdf") == Some(7);
    var removed := w["/in" := map["a.pdf" := 7] - {"a.pdf"}];
    assert map["a.pdf" := 7] - {"a.pdf"} == map[];
    assert removed == map["/in" := map[], "/docs" := map[]];
    assert Renamed(w, FilePath("/in", "a.pdf"), "/docs", "a.pdf") == removed["/docs" := map["a.pdf" := 7]];
    assert removed["/docs" := map["a.pdf" := 7]] == map["/in" := map[], "/docs" := map["a.pdf" := 7]];
  }

  /** A "pdf" rule sends "/in/a.pdf" to "/docs/a.pdf", creating "/docs". */
  lemma ScenarioPdfRule(regex: RegexOracle)
    ensures Organize(map["/in" := map["a.pdf" := 7]], FilePath("/in", "a.pdf"),
                     Config(None, [Rule(None, FileType("pdf"), "/docs")], map[]), None, regex)
            == (Ok("/docs/a.pdf"), map["/in" := map[], "/docs" := map["a.pdf" := 7]])
  {
    PdfRuleLookup(regex);
    PdfMove();
  }

  /** The file system of the collision scenario: "/out" already holds a "report.txt". */
  function ReportTree(): Tree
  {
    map["/in" := map["report.txt" := 2], "/out" := map["report.txt" := 1]]
  }

  /** Renaming "/in/report.txt" to "/out/report (1).txt" in the scenario's file system. */
  lemma ReportRenamed()
    ensures Renamed(ReportTree(), FilePath("/in", "report.txt"), "/out", "report (1).txt")
            == map["/in" := map[], "/out" := map["report.txt" := 1, "report (1).txt" := 2]]
  {
    var tree := ReportTree();
    var removed := tree["/in" := map["report.txt" := 2] - {"report.txt"}];
    assert map["report.txt" := 2] - {"report.txt"} == map[];
    assert removed == map["/in" := map[], "/out" := map["report.txt" := 1]];
  }

  /** In the scenario, "/out" exists and the incoming "report.txt" is named "report (1).txt" there. */
  lemma ReportTarget()
    ensures WithDir(ReportTree(), "/out") == ReportTree()
    ensures TargetName(ReportTree(), FilePath("/in", "report.txt"), "/out") == "report (1).txt"
  {
    assert ReportTree()["/out"].Keys == {"report.txt"};
    ReportExample();
  }

  /** The path returned in the scenario. */
  lemma ReportJoin()
    ensures Join("/out", "report (1).txt") == "/out/report (1).txt"
  {
    assert "/out"[3] == 't';
    assert "/out" + "/" + "report (1).txt" == "/out/report (1).txt";
  }

  /** "/out" already holds "report.txt": the incoming "report.txt" becomes "/out/report (1).txt". */
  lemma ScenarioReportCollision()
    ensures ToDestination(ReportTree(), FilePath("/in", "report.txt"), "/out")
            == (Ok("/out/report (1).txt"), map["/in" := map[], "/out" := map["report.txt" := 1, "report (1).txt" := 2]])
  {
    var tree := ReportTree();
    var src := FilePath("/in", "report.txt");
    ReportTarget();
    ReportJoin();
    ReportRenamed();
    assert FileName(src).Some?;
    assert Entry(tree, "/in", "report.txt") == Some(2);
  }

  /** The file system on which the two operations act. */
  class FileSystem {
    var tree: Tree

    constructor (tree: Tree)
      ensures this.tree == tree
    {
      this.tree := tree;
    }

    /** `path.exists()` for `dir`/`name`. */
    function Exists(dir: string, name: string): (b: bool)
      reads this
      ensures b <==> Entry(tree, dir, name).Some?
    {
      dir in tree && name in tree[dir]
    }

    /** Creates the destination directory when it does not exist yet; an existing one is left alone. */
    method EnsureDir(dir: string)
      modifies this
      ensures tree == WithDir(old(tree), dir)
    {
      if dir !in tree {
        tree := tree[dir := map[]];
      }
    }

    /**
     * The probe loop: try the file's own name, then "stem (1).ext",
     * "stem (2).ext", … until one does not exist in `destination`.
     */
    method FreeName(destination: string, name: string) returns (target: string)
      requires destination in tree
      ensures target == ChosenName(tree[destination].Keys, name)
    {
      ghost var taken := tree[destination].Keys;
      var destFile := name;
      var counter: nat := 1;
      while Exists(destination, destFile)
        invariant counter >= 1
        invariant destFile == Probe(name, counter - 1)
        invariant forall j :: 0 <= j < counter - 1 ==> Probe(name, j) in taken
        decreases |taken| + 1 - counter
      {
        ProbesTakenBound(taken, name, counter);
        var stem := FileStem(name);
        var ext := ExtOrEmpty(name);
        destFile := if ext == "" then stem + " (" + Decimal(counter) + ")"
                    else stem + " (" + Decimal(counter) + ")." + ext;
        counter := counter + 1;
      }
      FreeIndexUnique(taken, name, counter - 1);
      target := destFile;
    }

    /** `fs::rename(src, destination/target)`: fails, changing nothing, when the source is gone. */
    method Rename(src: FilePath, destination: string, target: string) returns (ok: bool)
      requires destination in tree
      modifies this
      ensures ok <==> Entry(old(tree), src.dir, src.name).Some?
      ensures tree == if ok then Renamed(old(tree), src, destination, target) else old(tree)
    {
      ok := Exists(src.dir, src.name);
      if ok {
        var id := tree[src.dir][src.name];
        tree := tree[src.dir := tree[src.dir] - {src.name}];
        tree := tree[destination := tree[destination][target := id]];
      }
    }

    /** `organize_file_to_destination`: move the file at `src` into `destination` without overwriting. */
    method OrganizeFileToDestination(src: FilePath, destination: string) returns (r: Result<string, OrganizeError>)
      modifies this
      ensures (r, tree) == ToDestination(old(tree), src, destination)
    {
      EnsureDir(destination);
      if FileName(src).None? {
        return Err(InvalidFileName);
      }
      var target := FreeName(destination, src.name);
      var ok := Rename(src, destination, target);
      if !ok {
        return Err(MoveFailed);
      }
      r := Ok(Join(destination, target));
    }

    /** `organize_file`: look the destination up in `config`, then move the file there. */
    method OrganizeFile(src: FilePath, config: Config, created: Option<Time>, regex: RegexOracle)
      returns (r: Result<string, OrganizeError>)
      modifies this
      ensures (r, tree) == Organize(old(tree), src, config, created, regex)
    {
      var destination := DestinationFolder(config, LookupInfo(src, created), regex);
      if destination.None? {
        return Err(NoMatchingRule(LookupName(src)));
      }
      r := OrganizeFileToDestination(src, destination.value);
    }
  }
}
