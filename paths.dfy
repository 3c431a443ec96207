/**
 * The parts of Rust's `std::path::Path` that the organizer uses, on Unix
 * paths: `file_name`, `file_stem`, `extension` and `join`. A file's path
 * is given as its parent directory and its final component.
 */
module Paths {
  import opened Wrappers

  /** A path split into its parent directory and its final component. */
  datatype FilePath = FilePath(dir: string, name: string)

  /** `Path::file_name`: the final component, absent for "", "." and "..". */
  function FileName(p: FilePath): (r: Option<string>)
    ensures r.Some? ==> r.value == p.name
    ensures r.None? <==> p.name == "" || p.name == "." || p.name == ".."
  {
    if p.name == "" || p.name == "." || p.name == ".." then None else Some(p.name)
  }

  /** The index of the last '.' in `s`, if there is one. */
  function LastDot(s: string): (r: Option<nat>)
    ensures r.Some? ==> r.value < |s| && s[r.value] == '.'
    ensures r.Some? ==> forall j :: r.value < j < |s| ==> s[j] != '.'
    ensures r.None? ==> forall j :: 0 <= j < |s| ==> s[j] != '.'
  {
    if s == [] then None
    else if s[|s| - 1] == '.' then Some(|s| - 1)
    else LastDot(s[..|s| - 1])
  }

  /**
   * `Path::file_stem`: the name up to its last '.', except that a name whose
   * only '.' is the leading one (".bashrc"), a name without a '.', and ".."
   * are their own stem.
   */
  function FileStem(name: string): (r: string)
    ensures |r| <= |name| && r == name[..|r|]
  {
    if name == ".." then name
    else match LastDot(name)
      case None => name
      case Some(i) => if i == 0 then name else name[..i]
  }

  /** Cutting `name` around a '.' at `i` and putting it back together gives `name`. */
  lemma SplitAtDot(name: string, i: nat)
    requires i < |name| && name[i] == '.'
    ensures name == name[..i] + "." + name[i + 1..]
  {
  }

  /**
   * `Path::extension`: what follows the last '.', under the same exceptions
   * as `FileStem`, which have no extension; "foo." has the empty extension.
   */
  function Extension(name: string): (r: Option<string>)
    ensures r.None? ==> FileStem(name) == name
    ensures r.Some? ==> name == FileStem(name) + "." + r.value && FileStem(name) != []
    ensures r.Some? ==> forall j :: 0 <= j < |r.value| ==> r.value[j] != '.'
  {
    if name == ".." then None
    else match LastDot(name)
      case None => None
      case Some(i) =>
        if i == 0 then None
        else
          SplitAtDot(name, i);
          Some(name[i + 1..])
  }

  /** A name has no extension exactly when it is "..", or no '.' follows its first character. */
  lemma ExtensionAbsentIff(name: string)
    ensures Extension(name).None? <==> (name == ".." || forall j :: 0 < j < |name| ==> name[j] != '.')
  {
  }

  /** The examples that fix the split: a dotfile, a trailing dot, a double extension. */
  lemma ExtensionExamples()
    ensures Extension(".bashrc") == None && FileStem(".bashrc") == ".bashrc"
    ensures Extension("foo.") == Some("") && FileStem("foo.") == "foo"
    ensures Extension("a.tar.gz") == Some("gz") && FileStem("a.tar.gz") == "a.tar"
    ensures Extension("README") == None && FileStem("README") == "README"
  {
    assert LastDot(".bashrc") == Some(0) by {
      assert ".bashrc"[..6] == ".bashr";
      assert ".bashr"[..5] == ".bash";
      assert ".bash"[..4] == ".bas";
      assert ".bas"[..3] == ".ba";
      assert ".ba"[..2] == ".b";
      assert ".b"[..1] == ".";
    }
    assert LastDot("foo.") == Some(3);
    assert "foo."[..3] == "foo" && "foo."[4..] == "";
    assert LastDot("a.tar.gz") == Some(5) by {
      assert "a.tar.gz"[..7] == "a.tar.g";
      assert "a.tar.g"[..6] == "a.tar.";
    }
    assert LastDot("README") == None by {
      assert "README"[..5] == "READM";
      assert "READM"[..4] == "READ";
      assert "READ"[..3] == "REA";
      assert "REA"[..2] == "RE";
      assert "RE"[..1] == "R";
      assert "R"[..0] == "";
    }
  }

  /**
   * `dir.join(name)` for a relative `name` on Unix: a separator is inserted
   * unless `dir` is empty or already ends with '/'.
   */
  function Join(dir: string, name: string): (r: string)
    ensures |r| == |dir| + |name| + (if dir == [] || dir[|dir| - 1] == '/' then 0 else 1)
    ensures r[|r| - |name|..] == name && r[..|dir|] == dir
    ensures |r| > |dir| + |name| ==> r[|dir|] == '/'
  {
    if dir == [] then name
    else if dir[|dir| - 1] == '/' then dir + name
    else dir + "/" + name
  }
}
