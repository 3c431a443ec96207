/**
 * config.rs: the rule set and the lookup of a file's destination folder.
 * `get_destination_folder` scans the rules in order for the first one that
 * matches the file and has a non-empty destination; when none does, it
 * falls back to the legacy extension-to-folder `mappings`, first under the
 * lower-cased extension, then under "other".
 */
module Configuration {
  import opened Wrappers
  import opened Strings
  import opened Glob

  /** A creation time; the rule conditions never inspect its value. */
  type Time = int

  datatype RuleCondition =
    | FileType(value: string)                      // an extension, or "*"
    | Name(pattern: string)                        // a substring, or a glob with '*'
    | CreatedDate(operator: string, value: string) // "before" | "after" | "on"; never matches

  datatype Rule = Rule(name: Option<string>, condition: RuleCondition, destination: string)

  datatype Config = Config(
    watchedFolder: Option<string>,
    rules: seq<Rule>,               // in priority order
    mappings: map<string, string>   // legacy extension -> folder table
  )

  /** What `get_destination_folder` is told about a file. */
  datatype FileInfo = FileInfo(path: string, extension: string, name: string, created: Option<Time>)

  /** `Config::default()`: no watched folder, no rules, no mappings. */
  function DefaultConfig(): (c: Config)
    ensures c.watchedFolder.None?
    ensures forall file: FileInfo, regex: RegexOracle :: DestinationFolder(c, file, regex).None?
  {
    Config(None, [], map[])
  }

  /** The `FileType` condition: the extensions agree ignoring case, or the value is the wildcard. */
  function FileTypeMatches(value: string, extension: string): (b: bool)
    ensures b <==> Lower(value) == Lower(extension) || value == "*"
  {
    LowerIsStarIff(value);
    Lower(value) == Lower(extension) || Lower(value) == "*"
  }

  /** The `CreatedDate` condition, a stub: every operator, with or without a creation time, is false. */
  function CreatedDateMatches(operator: string, value: string, created: Option<Time>): (b: bool)
    ensures !b
  {
    match created
    case Some(_) =>
      if operator == "before" || operator == "after" || operator == "on" then false else false
    case None => false
  }

  /** `Rule::matches`. */
  function Matches(rule: Rule, file: FileInfo, regex: RegexOracle): (b: bool)
    ensures rule.condition.FileType? ==>
      (b <==> Lower(rule.condition.value) == Lower(file.extension) || rule.condition.value == "*")
    ensures rule.condition.Name? && '*' !in rule.condition.pattern ==>
      (b <==> exists i :: OccursAt(file.name, rule.condition.pattern, i))
    ensures rule.condition.Name? && rule.condition.pattern == "" ==> b
    ensures rule.condition.CreatedDate? ==> !b
  {
    match rule.condition
    case FileType(value) => FileTypeMatches(value, file.extension)
    case Name(pattern) => NameMatches(pattern, file.name, regex)
    case CreatedDate(operator, value) => CreatedDateMatches(operator, value, file.created)
  }

  /** A rule ends the scan when it matches and names a destination. */
  predicate Yields(rule: Rule, file: FileInfo, regex: RegexOracle): (b: bool)
    ensures rule.destination == "" ==> !b
    ensures rule.condition.CreatedDate? ==> !b
    ensures rule.condition.FileType? && rule.condition.value == "*" ==> (b <==> rule.destination != "")
    ensures b ==> Matches(rule, file, regex)
  {
    Matches(rule, file, regex) && rule.destination != ""
  }

  /** The rule-based part of `get_destination_folder`: the scan of `rules` in order. */
  function FirstRuleDestination(rules: seq<Rule>, file: FileInfo, regex: RegexOracle): (r: Option<string>)
    ensures r.Some? ==> r.value != "" && exists i :: 0 <= i < |rules| && rules[i].destination == r.value
    ensures r.None? ==> forall i :: 0 <= i < |rules| ==> !Yields(rules[i], file, regex)
  {
    if rules == [] then None
    else if Yields(rules[0], file, regex) then
      Some(rules[0].destination)
    else
      var r := FirstRuleDestination(rules[1..], file, regex);
      assert forall i :: 1 <= i < |rules| ==> rules[i] == rules[1..][i - 1];
      r
  }

  /** The legacy fallback: the folder for the lower-cased extension, else the one for "other"; empty folders do not count. */
  function MappingFallback(mappings: map<string, string>, extension: string): (r: Option<string>)
    ensures r.Some? ==> r.value != "" && r.value in mappings.Values
  {
    var ext := Lower(extension);
    if ext in mappings && mappings[ext] != "" then Some(mappings[ext])
    else if "other" in mappings && mappings["other"] != "" then Some(mappings["other"])
    else None
  }

  /** `Config::get_destination_folder`. */
  function DestinationFolder(config: Config, file: FileInfo, regex: RegexOracle): (r: Option<string>)
    ensures r.Some? ==> r.value != ""
  {
    match FirstRuleDestination(config.rules, file, regex)
    case Some(folder) => Some(folder)
    case None => MappingFallback(config.mappings, file.extension)
  }

  /** The first rule that yields decides the result. */
  lemma {:induction false} FirstYieldWins(rules: seq<Rule>, file: FileInfo, regex: RegexOracle, i: nat)
    requires i < |rules| && Yields(rules[i], file, regex)
    requires forall j :: 0 <= j < i ==> !Yields(rules[j], file, regex)
    ensures FirstRuleDestination(rules, file, regex) == Some(rules[i].destination)
  {
    if i > 0 {
      assert !Yields(rules[0], file, regex);
      assert forall j :: 0 <= j < i - 1 ==> rules[1..][j] == rules[j + 1];
      FirstYieldWins(rules[1..], file, regex, i - 1);
    }
  }

  /** A result from the rules is the destination of the first rule that yields. */
  lemma {:induction false} ResultIsFirstYield(rules: seq<Rule>, file: FileInfo, regex: RegexOracle) returns (i: nat)
    requires FirstRuleDestination(rules, file, regex).Some?
    ensures i < |rules| && Yields(rules[i], file, regex)
    ensures forall j :: 0 <= j < i ==> !Yields(rules[j], file, regex)
    ensures FirstRuleDestination(rules, file, regex) == Some(rules[i].destination)
  {
    if Yields(rules[0], file, regex) {
      i := 0;
    } else {
      var k := ResultIsFirstYield(rules[1..], file, regex);
      i := k + 1;
      assert forall j :: 1 <= j < i ==> rules[j] == rules[1..][j - 1];
    }
  }

  /** Once a prefix of the rules yields, the rules after it are never consulted. */
  lemma {:induction false} LaterRulesIgnored(first: seq<Rule>, later: seq<Rule>, file: FileInfo, regex: RegexOracle)
    requires FirstRuleDestination(first, file, regex).Some?
    ensures FirstRuleDestination(first + later, file, regex) == FirstRuleDestination(first, file, regex)
  {
    var i := ResultIsFirstYield(first, file, regex);
    var all := first + later;
    assert forall j :: 0 <= j <= i ==> all[j] == first[j];
    FirstYieldWins(all, file, regex, i);
  }

  /** A rule with an empty destination never changes the result, wherever it stands, even when it matches. */
  lemma {:induction false} EmptyDestinationSkipped(before: seq<Rule>, rule: Rule, after: seq<Rule>, file: FileInfo, regex: RegexOracle)
    requires rule.destination == ""
    ensures FirstRuleDestination(before + [rule] + after, file, regex) == FirstRuleDestination(before + after, file, regex)
  {
    if before == [] {
      assert before + [rule] + after == [rule] + after;
      assert ([rule] + after)[1..] == after;
      assert before + after == after;
    } else {
      assert (before + [rule] + after)[0] == before[0] && (before + after)[0] == before[0];
      assert (before + [rule] + after)[1..] == before[1..] + [rule] + after;
      assert (before + after)[1..] == before[1..] + after;
      EmptyDestinationSkipped(before[1..], rule, after, file, regex);
    }
  }

  /** With no yielding rule the result is the legacy mapping: the extension's folder first, then "other", else none. */
  lemma FallbackWhenNoRuleYields(config: Config, file: FileInfo, regex: RegexOracle)
    requires forall i :: 0 <= i < |config.rules| ==> !Yields(config.rules[i], file, regex)
    ensures var ext := Lower(file.extension);
      DestinationFolder(config, file, regex) ==
        if ext in config.mappings && config.mappings[ext] != "" then Some(config.mappings[ext])
        else if "other" in config.mappings && config.mappings["other"] != "" then Some(config.mappings["other"])
        else None
  {
    if FirstRuleDestination(config.rules, file, regex).Some? {
      var i := ResultIsFirstYield(config.rules, file, regex);
    }
  }

  /** A yielding rule takes precedence over every legacy mapping. */
  lemma RulesBeforeMappings(config: Config, file: FileInfo, regex: RegexOracle, i: nat)
    requires i < |config.rules| && Yields(config.rules[i], file, regex)
    requires forall j :: 0 <= j < i ==> !Yields(config.rules[j], file, regex)
    ensures DestinationFolder(config, file, regex) == Some(config.rules[i].destination)
  {
    FirstYieldWins(config.rules, file, regex, i);
  }

  /** `FileType` is insensitive to the case of both the value and the extension. */
  lemma FileTypeIgnoresCase(value: string, value': string, extension: string, extension': string)
    requires Lower(value) == Lower(value') && Lower(extension) == Lower(extension')
    ensures FileTypeMatches(value, extension) == FileTypeMatches(value', extension')
    ensures FileTypeMatches(value, extension) == FileTypeMatches(Lower(value), Lower(extension))
  {
    LowerIdempotent(value);
    LowerIdempotent(extension);
  }

  /** Rule order decides between two rules that both yield for a file: the earlier one wins, in either order. */
  lemma OverlappingRulesOrder(r1: Rule, r2: Rule, file: FileInfo, regex: RegexOracle)
    requires Yields(r1, file, regex) && Yields(r2, file, regex)
    ensures FirstRuleDestination([r1, r2], file, regex) == Some(r1.destination)
    ensures FirstRuleDestination([r2, r1], file, regex) == Some(r2.destination)
  {
    FirstYieldWins([r1, r2], file, regex, 0);
    FirstYieldWins([r2, r1], file, regex, 0);
  }

  /** "report.pdf" is matched by both a `FileType("PDF")` and a `Name("report")` rule, so their order decides. */
  lemma OverlappingRulesExample(regex: RegexOracle)
    ensures var file := FileInfo("/in/report.pdf", "pdf", "report.pdf", None);
      var byType := Rule(None, FileType("PDF"), "/docs");
      var byName := Rule(None, Name("report"), "/reports");
      && FirstRuleDestination([byType, byName], file, regex) == Some("/docs")
      && FirstRuleDestination([byName, byType], file, regex) == Some("/reports")
  {
    var file := FileInfo("/in/report.pdf", "pdf", "report.pdf", None);
    assert Lower("PDF") == "pdf";
    assert Lower("pdf") == "pdf";
    assert '*' !in "report";
    assert OccursAt("report.pdf", "report", 0);
  }
}
