/**
 * The names file_organizer.rs tries, in order, when moving a file into a
 * folder: first the file's own name, then "stem (1).ext", "stem (2).ext",
 * … (or "stem (n)" when the extension is empty), always built from the
 * moved file's stem and extension. The first one not yet present is used.
 */
module Collision {
  import opened Wrappers
  import opened Strings
  import opened Paths

  /** The extension as the probe loop uses it: absent reads as "". */
  function ExtOrEmpty(name: string): (r: string)
    ensures Extension(name).None? ==> r == ""
    ensures Extension(name).Some? ==> name == FileStem(name) + "." + r
    ensures forall j :: 0 <= j < |r| ==> r[j] != '.'
  {
    match Extension(name)
    case Some(e) => e
    case None => ""
  }

  /** Candidate number `n`: the stem, a space and `n` in parentheses, then a dot and the extension unless that is empty. */
  function Candidate(stem: string, ext: string, n: nat): (r: string)
    ensures |r| == |stem| + |Decimal(n)| + 3 + (if ext == "" then 0 else 1 + |ext|)
    ensures r[..|stem|] == stem
  {
    if ext == "" then stem + " (" + Decimal(n) + ")"
    else stem + " (" + Decimal(n) + ")." + ext
  }

  /** The `k`-th name tried for `name`: the name itself, then candidates 1, 2, … */
  function Probe(name: string, k: nat): (r: string)
    ensures k == 0 ==> r == name
    ensures k > 0 ==> |r| > |name|
  {
    if k == 0 then name
    else
      CandidateLonger(name, k);
      Candidate(FileStem(name), ExtOrEmpty(name), k)
  }

  /** A candidate reads: the stem, " (", the counter's digits, ")", and "." with the extension unless it is empty. */
  lemma CandidateShape(stem: string, ext: string, n: nat)
    ensures var r, d := Candidate(stem, ext, n), Decimal(n);
      && r[..|stem| + 2] == stem + " ("
      && r[|stem| + 2..|stem| + 2 + |d|] == d
      && r[|stem| + 2 + |d|] == ')'
      && (ext != "" ==> r[|stem| + 3 + |d|..] == "." + ext)
  {
  }

  /** Distinct counters give distinct candidates. */
  lemma CandidateInjective(stem: string, ext: string, a: nat, b: nat)
    requires Candidate(stem, ext, a) == Candidate(stem, ext, b)
    ensures a == b
  {
    var prefix := stem + " (";
    var suffix := if ext == "" then ")" else ")." + ext;
    var da, db := Decimal(a), Decimal(b);
    assert Candidate(stem, ext, a) == prefix + da + suffix;
    assert Candidate(stem, ext, b) == prefix + db + suffix;
    var c := Candidate(stem, ext, a);
    assert |da| == |db|;
    assert da == c[|prefix|..|prefix| + |da|];
    assert db == c[|prefix|..|prefix| + |db|];
    DecimalInjective(a, b);
  }

  /** Every candidate is longer than the name it was made from, so it is never that name. */
  lemma CandidateLonger(name: string, n: nat)
    ensures |Candidate(FileStem(name), ExtOrEmpty(name), n)| > |name|
  {
  }

  /** The names tried are pairwise distinct. */
  lemma ProbeInjective(name: string, j: nat, k: nat)
    requires j != k
    ensures Probe(name, j) != Probe(name, k)
  {
    if j == 0 {
      CandidateLonger(name, k);
    } else if k == 0 {
      CandidateLonger(name, j);
    } else if Probe(name, j) == Probe(name, k) {
      CandidateInjective(FileStem(name), ExtOrEmpty(name), j, k);
    }
  }

  /** Pigeonhole: if the first `k` names tried are all taken, at least `k` names are taken. */
  lemma {:induction false} ProbesTakenBound(taken: set<string>, name: string, k: nat)
    requires forall j :: 0 <= j < k ==> Probe(name, j) in taken
    ensures k <= |taken|
  {
    if k > 0 {
      var last := Probe(name, k - 1);
      var rest := taken - {last};
      forall j | 0 <= j < k - 1
        ensures Probe(name, j) in rest
      {
        ProbeInjective(name, j, k - 1);
      }
      ProbesTakenBound(rest, name, k - 1);
    }
  }

  /** The first free probe at or after `from`, given that those before it are taken. */
  function FirstFreeProbe(taken: set<string>, name: string, from: nat): (k: nat)
    requires forall j :: 0 <= j < from ==> Probe(name, j) in taken
    ensures from <= k && Probe(name, k) !in taken
    ensures forall j :: 0 <= j < k ==> Probe(name, j) in taken
    decreases |taken| - from
  {
    ProbesTakenBound(taken, name, from);
    if Probe(name, from) !in taken then from
    else
      ProbesTakenBound(taken, name, from + 1);
      FirstFreeProbe(taken, name, from + 1)
  }

  /** The index of the name the organizer settles on: the first one not taken. */
  function FreeIndex(taken: set<string>, name: string): (k: nat)
    ensures Probe(name, k) !in taken
    ensures forall j :: 0 <= j < k ==> Probe(name, j) in taken
  {
    FirstFreeProbe(taken, name, 0)
  }

  /** Being free with every earlier probe taken determines the index. */
  lemma FreeIndexUnique(taken: set<string>, name: string, k: nat)
    requires Probe(name, k) !in taken
    requires forall j :: 0 <= j < k ==> Probe(name, j) in taken
    ensures k == FreeIndex(taken, name)
  {
  }

  /**
   * The name a file called `name` gets in a folder whose entries are
   * `taken`: never one of them, and the file's own name exactly when that
   * is free.
   */
  function ChosenName(taken: set<string>, name: string): (r: string)
    ensures r !in taken
    ensures r == name <==> name !in taken
  {
    Probe(name, FreeIndex(taken, name))
  }

  /** When the name is taken, the result is the candidate with the smallest free counter n >= 1. */
  lemma ChosenNameSmallestCounter(taken: set<string>, name: string)
    requires name in taken
    ensures var n := FreeIndex(taken, name);
      && n >= 1
      && ChosenName(taken, name) == Candidate(FileStem(name), ExtOrEmpty(name), n)
      && Candidate(FileStem(name), ExtOrEmpty(name), n) !in taken
      && forall j :: 1 <= j < n ==> Candidate(FileStem(name), ExtOrEmpty(name), j) in taken
  {
    var n := FreeIndex(taken, name);
    assert Probe(name, 0) == name;
    forall j | 1 <= j < n
      ensures Candidate(FileStem(name), ExtOrEmpty(name), j) in taken
    {
      assert Probe(name, j) in taken;
    }
  }

  /**
   * Moving files of one name into a folder one after another: when the
   * first `k` names tried are taken (and nothing else is), the next file
   * gets the `k`-th, so the files receive "stem.ext", "stem (1).ext", … in turn.
   */
  lemma SuccessiveCollisions(name: string, k: nat)
    ensures ChosenName(set j | 0 <= j < k :: Probe(name, j), name) == Probe(name, k)
  {
    var taken := set j | 0 <= j < k :: Probe(name, j);
    assert Probe(name, k) !in taken by {
      forall j | 0 <= j < k
        ensures Probe(name, j) != Probe(name, k)
      {
        ProbeInjective(name, j, k);
      }
    }
    FreeIndexUnique(taken, name, k);
  }

  /** An existing "report.txt" sends the next "report.txt" to "report (1).txt". */
  lemma ReportExample()
    ensures ChosenName({"report.txt"}, "report.txt") == "report (1).txt"
  {
    var name := "report.txt";
    assert LastDot(name) == Some(6) by {
      assert name[..9] == "report.tx";
      assert "report.tx"[..8] == "report.t";
      assert "report.t"[..7] == "report.";
    }
    assert FileStem(name) == "report";
    assert Extension(name) == Some("txt");
    assert Decimal(1) == "1";
    assert Probe(name, 1) == "report (1).txt";
    assert Probe(name, 0) in {"report.txt"};
    FreeIndexUnique({"report.txt"}, name, 1);
  }
}
