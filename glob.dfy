/**
 * The `Name` rule condition of config.rs: a pattern without '*' is a
 * substring test; a pattern with '*' is rewritten into a regular
 * expression (first every "*" becomes ".*", then every "." becomes "\."),
 * anchored with "^…$" and matched against the whole file name; if that
 * regular expression does not compile, the substring test is used.
 *
 * Because the dots are escaped after the stars were rewritten, every '*'
 * ends up as "\.*". In a pattern without '\' or other regex syntax
 * (`MetaFree`) that matches only a run of literal dots; after a '\' the
 * escape is taken by the backslash and ".*" matches any sequence.
 */
module Glob {
  import opened Wrappers
  import opened Strings

  /** `s.replace(c, repl)` for a one-character pattern: every `c` becomes `repl`. */
  function ReplaceChar(s: string, c: char, repl: string): (r: string)
    ensures c !in repl ==> c !in r
    ensures c !in s ==> r == s
  {
    if s == [] then []
    else (if s[0] == c then repl else [s[0]]) + ReplaceChar(s[1..], c, repl)
  }

  /** The regular-expression text built from a name pattern, before anchoring. */
  function GlobToRegex(pattern: string): (r: string)
    ensures r == Rewrite(pattern)
  {
    GlobToRegexCharwise(pattern);
    ReplaceChar(ReplaceChar(pattern, '*', ".*"), '.', "\\.")
  }

  /** What the two rewrites make of one pattern character. */
  function RewriteChar(c: char): string
  {
    if c == '*' then "\\.*" else if c == '.' then "\\." else [c]
  }

  /** The rewrites applied character by character. */
  function Rewrite(pattern: string): string
  {
    if pattern == [] then [] else RewriteChar(pattern[0]) + Rewrite(pattern[1..])
  }

  lemma {:induction false} ReplaceCharAppend(a: string, b: string, c: char, repl: string)
    ensures ReplaceChar(a + b, c, repl) == ReplaceChar(a, c, repl) + ReplaceChar(b, c, repl)
  {
    if a == [] {
      assert a + b == b;
    } else {
      assert (a + b)[1..] == a[1..] + b;
      ReplaceCharAppend(a[1..], b, c, repl);
    }
  }

  /**
   * The two whole-string rewrites act on each pattern character alone:
   * '*' becomes "\.*", '.' becomes "\.", every other character stays.
   */
  lemma {:induction false} GlobToRegexCharwise(pattern: string)
    ensures ReplaceChar(ReplaceChar(pattern, '*', ".*"), '.', "\\.") == Rewrite(pattern)
  {
    if pattern != [] {
      var c := pattern[0];
      var starred := if c == '*' then ".*" else [c];
      assert ReplaceChar(pattern, '*', ".*") == starred + ReplaceChar(pattern[1..], '*', ".*");
      ReplaceCharAppend(starred, ReplaceChar(pattern[1..], '*', ".*"), '.', "\\.");
      assert ReplaceChar(".*", '.', "\\.") == "\\." + ReplaceChar("*", '.', "\\.");
      assert ReplaceChar(starred, '.', "\\.") == RewriteChar(c);
      GlobToRegexCharwise(pattern[1..]);
    }
  }

  /** Characters the regex crate treats as syntax, besides '.' and '*'. */
  predicate RegexSpecial(c: char)
  {
    c in "\\+?()|[]{}^$"
  }

  /** A pattern whose characters other than '*' and '.' are all plain. */
  ghost predicate MetaFree(pattern: string)
  {
    forall i :: 0 <= i < |pattern| ==> !RegexSpecial(pattern[i])
  }

  /** One element of a regular expression in the modelled fragment. */
  datatype Atom =
    | Lit(c: char)  // one literal character: a plain character or "\."
    | DotRun        // "\.*": zero or more literal dots

  /** The regular-expression text of one atom. */
  function AtomText(a: Atom): string
  {
    match a
    case Lit(c) => if c == '.' then "\\." else [c]
    case DotRun => "\\.*"
  }

  /** The regular-expression text of a sequence of atoms. */
  function Render(atoms: seq<Atom>): string
  {
    if atoms == [] then [] else AtomText(atoms[0]) + Render(atoms[1..])
  }

  /**
   * Parses regular-expression text made only of plain characters, "\." and
   * "\.*"; any other text is outside the fragment (None), and the regex
   * crate's own behaviour on it is not modelled here.
   */
  function ParseRegex(t: string): (r: Option<seq<Atom>>)
    ensures r.Some? ==> Render(r.value) == t && Renderable(r.value)
  {
    if t == [] then Some([])
    else if |t| >= 2 && t[0] == '\\' && t[1] == '.' then
      if |t| >= 3 && t[2] == '*' then
        match ParseRegex(t[3..])
        case Some(rest) => Some([DotRun] + rest)
        case None => None
      else
        match ParseRegex(t[2..])
        case Some(rest) => Some([Lit('.')] + rest)
        case None => None
    else if RegexSpecial(t[0]) || t[0] == '.' || t[0] == '*' then None
    else
      match ParseRegex(t[1..])
      case Some(rest) => Some([Lit(t[0])] + rest)
      case None => None
  }

  /** Atoms that `Render` writes back as text of the fragment: no literal regex syntax or '*'. */
  predicate Renderable(atoms: seq<Atom>)
  {
    forall i :: 0 <= i < |atoms| && atoms[i].Lit? ==> !RegexSpecial(atoms[i].c) && atoms[i].c != '*'
  }

  /** Rendered text never starts with '*'. */
  lemma RenderHead(atoms: seq<Atom>)
    requires Renderable(atoms)
    ensures Render(atoms) == [] || Render(atoms)[0] != '*'
  {
  }

  /** Parsing the rendered text of atoms gives the atoms back. */
  lemma {:induction false} RenderParses(atoms: seq<Atom>)
    requires Renderable(atoms)
    ensures ParseRegex(Render(atoms)) == Some(atoms)
  {
    if atoms != [] {
      var rest := atoms[1..];
      assert Renderable(rest) by {
        assert forall i :: 0 <= i < |rest| ==> rest[i] == atoms[i + 1];
      }
      RenderParses(rest);
      RenderHead(rest);
      var t := Render(atoms);
      assert atoms == [atoms[0]] + rest;
      match atoms[0]
      case DotRun =>
        assert t[3..] == Render(rest);
      case Lit(c) =>
        if c == '.' {
          assert t[2..] == Render(rest);
        } else {
          assert t[1..] == Render(rest);
        }
    }
  }

  /** The atoms a pattern stands for: '*' is a run of dots, anything else itself. */
  function PatternAtoms(pattern: string): (r: seq<Atom>)
    ensures |r| == |pattern|
  {
    if pattern == [] then []
    else [if pattern[0] == '*' then DotRun else Lit(pattern[0])] + PatternAtoms(pattern[1..])
  }

  /** For a pattern without other regex syntax the rewritten text always parses, to the pattern's atoms. */
  lemma {:induction false} MetaFreeParses(pattern: string)
    requires MetaFree(pattern)
    ensures ParseRegex(GlobToRegex(pattern)) == Some(PatternAtoms(pattern))
  {
    GlobToRegexCharwise(pattern);
    RewriteParses(pattern);
  }

  lemma {:induction false} RewriteParses(pattern: string)
    requires MetaFree(pattern)
    ensures ParseRegex(Rewrite(pattern)) == Some(PatternAtoms(pattern))
  {
    if pattern != [] {
      var c := pattern[0];
      var tail := Rewrite(pattern[1..]);
      assert MetaFree(pattern[1..]) by {
        assert forall i :: 0 <= i < |pattern[1..]| ==> pattern[1..][i] == pattern[i + 1];
      }
      RewriteParses(pattern[1..]);
      assert !RegexSpecial(c) by { assert c == pattern[0]; }
      if c == '*' {
        assert Rewrite(pattern)[3..] == tail;
      } else if c == '.' {
        assert Rewrite(pattern)[2..] == tail;
      } else {
        assert Rewrite(pattern)[1..] == tail;
      }
    }
  }

  /** Does the anchored regular expression `atoms` match all of `s`. */
  function FullMatch(atoms: seq<Atom>, s: string): (b: bool)
    ensures b ==> forall i :: 0 <= i < |s| && s[i] != '.' ==> Lit(s[i]) in atoms
    ensures b && DotRun !in atoms ==> |s| == |atoms|
    decreases |s|, |atoms|
  {
    if atoms == [] then s == []
    else match atoms[0]
      case Lit(c) => s != [] && s[0] == c && FullMatch(atoms[1..], s[1..])
      case DotRun =>
        FullMatch(atoms[1..], s) || (s != [] && s[0] == '.' && FullMatch(atoms, s[1..]))
  }

  /**
   * The regex crate on regular-expression text outside the modelled
   * fragment: whether `Regex::new` compiles the text (anchored with "^…$"),
   * and, when it does, whether the compiled expression matches a name.
   */
  datatype RegexOracle = RegexOracle(compiles: string -> bool, matches: (string, string) -> bool)

  /**
   * A '*' right after a '\\' is not in the fragment: in "a\\*.txt" the
   * backslash escapes the backslash the rewrite put before ".*", so the
   * regex crate decides, and there ".*" matches any sequence.
   */
  lemma BackslashStarLeavesFragment()
    ensures GlobToRegex("a\\*.txt") == "a\\\\.*\\.txt"
    ensures ParseRegex(GlobToRegex("a\\*.txt")).None?
  {
    BackslashStarRewrite();
    var t := "a\\\\.*\\.txt";
    assert t[0] == 'a' && t[1..] == "\\\\.*\\.txt";
    assert ParseRegex(t[1..]).None? by {
      var u := t[1..];
      assert u[0] == '\\' && u[1] == '\\' && RegexSpecial(u[0]);
    }
  }

  /** The rewrite of "a\\*.txt", character by character. */
  lemma BackslashStarRewrite()
    ensures Rewrite("a\\*.txt") == "a\\\\.*\\.txt"
  {
    var p := "a\\*.txt";
    assert p[1..] == "\\*.txt" && p[1..][1..] == "*.txt" && "*.txt"[1..] == ".txt";
    assert ".txt"[1..] == "txt" && "txt"[1..] == "xt" && "xt"[1..] == "t" && "t"[1..] == [];
    assert Rewrite("t") == "t";
    assert Rewrite("xt") == "xt";
    assert Rewrite("txt") == "txt";
    assert Rewrite(".txt") == "\\.txt";
    assert Rewrite("*.txt") == "\\.*\\.txt";
    assert Rewrite("\\*.txt") == "\\\\.*\\.txt";
  }

  /** `Rule::matches` for `RuleCondition::Name { pattern }`. */
  function NameMatches(pattern: string, fileName: string, regex: RegexOracle): (b: bool)
    ensures '*' !in pattern ==> (b <==> exists i :: OccursAt(fileName, pattern, i))
    ensures pattern == "" ==> b
    ensures '*' in pattern && ParseRegex(GlobToRegex(pattern)).Some? ==>
      b == FullMatch(ParseRegex(GlobToRegex(pattern)).value, fileName)
    ensures '*' in pattern && ParseRegex(GlobToRegex(pattern)).None? && regex.compiles(GlobToRegex(pattern)) ==>
      b == regex.matches(GlobToRegex(pattern), fileName)
    ensures '*' in pattern && ParseRegex(GlobToRegex(pattern)).None? && !regex.compiles(GlobToRegex(pattern)) ==>
      (b <==> exists i :: OccursAt(fileName, pattern, i))
  {
    ContainsEmpty(fileName);
    if '*' in pattern then
      var text := GlobToRegex(pattern);
      match ParseRegex(text)
      case Some(atoms) => FullMatch(atoms, fileName)
      case None =>
        if regex.compiles(text) then regex.matches(text, fileName)
        else Contains(fileName, pattern)
    else
      Contains(fileName, pattern)
  }

  /** With '*' and no other regex syntax, a name pattern is a whole-name match of its atoms, whatever the regex crate does elsewhere. */
  lemma StarPatternIsFullMatch(pattern: string, fileName: string, regex: RegexOracle)
    requires '*' in pattern && MetaFree(pattern)
    ensures NameMatches(pattern, fileName, regex) == FullMatch(PatternAtoms(pattern), fileName)
  {
    MetaFreeParses(pattern);
  }

  /** `k` literal dots. */
  function Dots(k: nat): (r: string)
    ensures |r| == k && forall i :: 0 <= i < k ==> r[i] == '.'
  {
    if k == 0 then [] else Dots(k - 1) + "."
  }

  /**
   * The name obtained from `pattern` by replacing its i-th '*' with
   * `runs[i]` dots (missing entries count as zero).
   */
  function Expand(pattern: string, runs: seq<nat>): string
  {
    if pattern == [] then []
    else if pattern[0] == '*' then
      Dots(if runs == [] then 0 else runs[0]) + Expand(pattern[1..], if runs == [] then [] else runs[1..])
    else [pattern[0]] + Expand(pattern[1..], runs)
  }

  /** A pattern without '*' expands to itself. */
  lemma {:induction false} ExpandStarFree(pattern: string, runs: seq<nat>)
    requires '*' !in pattern
    ensures Expand(pattern, runs) == pattern
  {
    if pattern != [] {
      assert pattern == [pattern[0]] + pattern[1..];
      ExpandStarFree(pattern[1..], runs);
    }
  }

  lemma {:induction false} DotRunAbsorbs(rest: seq<Atom>, k: nat, s: string)
    requires FullMatch(rest, s)
    ensures FullMatch([DotRun] + rest, Dots(k) + s)
    decreases k
  {
    if k == 0 {
      assert ([DotRun] + rest)[1..] == rest;
      assert Dots(k) + s == s;
    } else {
      var t := Dots(k - 1) + s;
      assert Dots(k) + s == "." + t;
      assert ("." + t)[1..] == t;
      DotRunAbsorbs(rest, k - 1, s);
      assert Dots(k - 1) == Dots(k)[..k - 1];
      DotsShift(k, s);
    }
  }

  lemma DotsShift(k: nat, s: string)
    requires k > 0
    ensures Dots(k) + s == "." + (Dots(k - 1) + s)
  {
    assert forall i :: 0 <= i < k ==> (Dots(k) + s)[i] == '.';
  }

  /** Every expansion of a pattern matches the pattern. */
  lemma {:induction false} ExpansionMatches(pattern: string, runs: seq<nat>)
    ensures FullMatch(PatternAtoms(pattern), Expand(pattern, runs))
  {
    if pattern != [] {
      var atoms := PatternAtoms(pattern);
      assert atoms[1..] == PatternAtoms(pattern[1..]);
      if pattern[0] == '*' {
        var k := if runs == [] then 0 else runs[0];
        var more := if runs == [] then [] else runs[1..];
        ExpansionMatches(pattern[1..], more);
        DotRunAbsorbs(atoms[1..], k, Expand(pattern[1..], more));
        assert atoms == [DotRun] + atoms[1..];
      } else {
        var s := Expand(pattern, runs);
        ExpansionMatches(pattern[1..], runs);
        assert s[1..] == Expand(pattern[1..], runs);
      }
    }
  }

  /** A match of a leading dot run consumes some dots and matches the rest. */
  lemma {:induction false} DotRunSplits(rest: seq<Atom>, s: string) returns (k: nat)
    requires FullMatch([DotRun] + rest, s)
    ensures k <= |s| && s[..k] == Dots(k) && FullMatch(rest, s[k..])
    decreases |s|
  {
    assert ([DotRun] + rest)[1..] == rest;
    if FullMatch(rest, s) {
      k := 0;
    } else {
      var j := DotRunSplits(rest, s[1..]);
      k := j + 1;
      assert s[..k] == [s[0]] + s[1..][..j];
      DotsShift(k, []);
      assert Dots(k) == "." + Dots(j) by {
        assert Dots(k) + [] == Dots(k);
        assert Dots(j) + [] == Dots(j);
      }
      assert s[k..] == s[1..][j..];
    }
  }

  /** Every match of a pattern is an expansion of it. */
  lemma {:induction false} MatchIsExpansion(pattern: string, s: string) returns (runs: seq<nat>)
    requires FullMatch(PatternAtoms(pattern), s)
    ensures Expand(pattern, runs) == s
  {
    var atoms := PatternAtoms(pattern);
    if pattern == [] {
      runs := [];
    } else {
      assert atoms[1..] == PatternAtoms(pattern[1..]);
      if pattern[0] == '*' {
        assert atoms == [DotRun] + atoms[1..];
        var k := DotRunSplits(atoms[1..], s);
        var more := MatchIsExpansion(pattern[1..], s[k..]);
        runs := [k] + more;
        assert runs[1..] == more;
        assert s == s[..k] + s[k..];
      } else {
        var more := MatchIsExpansion(pattern[1..], s[1..]);
        runs := more;
        assert s == [s[0]] + s[1..];
      }
    }
  }

  /** A star pattern without other regex syntax matches exactly the names obtained by replacing each '*' with a run of dots. */
  lemma StarPatternLanguage(pattern: string, fileName: string, regex: RegexOracle)
    requires '*' in pattern && MetaFree(pattern)
    ensures NameMatches(pattern, fileName, regex) <==> exists runs :: Expand(pattern, runs) == fileName
  {
    StarPatternIsFullMatch(pattern, fileName, regex);
    if NameMatches(pattern, fileName, regex) {
      var runs := MatchIsExpansion(pattern, fileName);
    }
    if exists runs :: Expand(pattern, runs) == fileName {
      var runs :| Expand(pattern, runs) == fileName;
      ExpansionMatches(pattern, runs);
    }
  }

  /** The atoms of "*.pdf": a run of dots, then the literal ".pdf". */
  lemma StarDotPdfAtoms()
    ensures MetaFree("*.pdf")
    ensures PatternAtoms("*.pdf") == [DotRun, Lit('.'), Lit('p'), Lit('d'), Lit('f')]
  {
    var p := "*.pdf";
    assert p[1..] == ".pdf" && ".pdf"[1..] == "pdf" && "pdf"[1..] == "df" && "df"[1..] == "f" && "f"[1..] == [];
  }

  /** "*.pdf" matches ".pdf" and "..pdf": each '*' stands for dots only. */
  lemma StarDotPdfMatchesDots(regex: RegexOracle)
    ensures NameMatches("*.pdf", ".pdf", regex)
    ensures NameMatches("*.pdf", "..pdf", regex)
  {
    var p := "*.pdf";
    StarDotPdfAtoms();
    assert p[0] == '*';
    var atoms := PatternAtoms(p);
    assert '*' !in ".pdf";
    ExpandStarFree(".pdf", []);
    assert p[1..] == ".pdf" && [0][1..] == [] && [1][1..] == [];
    assert Expand(p, [0]) == ".pdf" by {
      assert Dots(0) == [];
    }
    assert Expand(p, [1]) == "..pdf" by {
      assert Dots(1) == ".";
    }
    ExpansionMatches(p, [0]);
    ExpansionMatches(p, [1]);
    assert FullMatch(atoms, ".pdf") && FullMatch(atoms, "..pdf");
    StarPatternIsFullMatch(p, ".pdf", regex);
    StarPatternIsFullMatch(p, "..pdf", regex);
  }

  /** "*.pdf" does not match "a.pdf" or "report.pdf": a '*' never stands for letters. */
  lemma StarDotPdfRejectsLetters(regex: RegexOracle)
    ensures !NameMatches("*.pdf", "a.pdf", regex)
    ensures !NameMatches("*.pdf", "report.pdf", regex)
  {
    var p := "*.pdf";
    StarDotPdfAtoms();
    assert p[0] == '*';
    StarPatternIsFullMatch(p, "a.pdf", regex);
    StarPatternIsFullMatch(p, "report.pdf", regex);
    var atoms := [DotRun, Lit('.'), Lit('p'), Lit('d'), Lit('f')];
    assert atoms[1..] == [Lit('.'), Lit('p'), Lit('d'), Lit('f')];
    assert !FullMatch(atoms, "a.pdf");
    assert !FullMatch(atoms, "report.pdf");
  }
}
