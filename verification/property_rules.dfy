/**
 * Property protections (glance/common/property_utils.py): an ordered list
 * of rules, each a property-name pattern with the roles allowed to create,
 * read, update and delete matching properties, and the check that decides
 * whether a caller holding some roles may perform an operation on a
 * property.
 *
 * Regular expressions are not modelled: whether a pattern compiles and
 * whether it matches somewhere in a property name are parameters.
 */
module PropertyRules {
  import opened Wrappers
  import opened RoleLists

  /** The operations a rule grants. */
  datatype Operation = Create | Read | Update | Delete

  /** The position of an operation in the order the options are read. */
  function ReadOrder(op: Operation): nat {
    match op
    case Create => 0
    case Read => 1
    case Update => 2
    case Delete => 3
  }

  /** The option name, and action name, of an operation. */
  function OperationName(op: Operation): string {
    match op
    case Create => "create"
    case Read => "read"
    case Update => "update"
    case Delete => "delete"
  }

  /** The operation an action names, if it names one of the four. */
  function ParseOperation(action: string): (r: Option<Operation>)
    ensures r.Some? <==> action in {"create", "read", "update", "delete"}
    ensures r.Some? ==> OperationName(r.value) == action
  {
    match action
    case "create" => Some(Create)
    case "read" => Some(Read)
    case "update" => Some(Update)
    case "delete" => Some(Delete)
    case _ => None
  }

  /** Naming an operation and reading the name back gives the operation. */
  lemma ParseOperationName(op: Operation)
    ensures ParseOperation(OperationName(op)) == Some(op)
  {
  }

  /** The role that lets every caller perform an operation. */
  const AnyRole := "@"
  /** The role that lets no caller perform an operation. */
  const NoRole := "!"

  /** Protection is on exactly when a protection file is configured and its name is not empty. */
  function IsPropertyProtectionEnabled(protectionFile: Option<string>): (enabled: bool)
    ensures enabled <==> protectionFile.Some? && protectionFile.value != ""
  {
    match protectionFile
    case None => false
    case Some(path) => |path| > 0
  }

  /**
   * One configuration section: its name is the pattern, and the values of
   * the options named after the operations are the role lists.
   */
  datatype Section = Section(name: string, options: map<Operation, string>)

  /** A loaded rule: the pattern and the permitted roles of each operation. */
  datatype Rule = Rule(pattern: string, create: seq<string>, read: seq<string>, update: seq<string>, delete: seq<string>)

  /** The permitted roles of `rule` for one of the four operations. */
  function PermittedRoles(rule: Rule, op: Operation): seq<string> {
    match op
    case Create => rule.create
    case Read => rule.read
    case Update => rule.update
    case Delete => rule.delete
  }

  /** Why loading the rules fails. */
  datatype LoadError =
    | ProtectionFileNotFound
    | MalformedPattern(pattern: string)
    | MissingOperation(pattern: string, operation: Operation)

  /** A section that loads: its pattern compiles and every operation has an option. */
  predicate Loadable(section: Section, compiles: string -> bool) {
    compiles(section.name) && HasAllOperations(section)
  }

  /** Every operation has an option in the section. */
  predicate HasAllOperations(section: Section) {
    Create in section.options && Read in section.options && Update in section.options && Delete in section.options
  }

  /** The rule a loadable section gives: every operation's option parsed as a role list. */
  function RuleOf(section: Section): (rule: Rule)
    requires HasAllOperations(section)
    ensures rule.pattern == section.name
    ensures forall op: Operation :: op in section.options ==> PermittedRoles(rule, op) == ParseRoles(section.options[op])
  {
    var rule := Rule(section.name,
         ParseRoles(section.options[Create]),
         ParseRoles(section.options[Read]),
         ParseRoles(section.options[Update]),
         ParseRoles(section.options[Delete]));
    assert forall op: Operation :: op in section.options ==> PermittedRoles(rule, op) == ParseRoles(section.options[op]) by {
      forall op: Operation ensures op in section.options ==> PermittedRoles(rule, op) == ParseRoles(section.options[op]) {
        assert op == Create || op == Read || op == Update || op == Delete;
      }
    }
    rule
  }

  /** Why one section does not load: the pattern first, then the operations in order. */
  function SectionError(section: Section, compiles: string -> bool): (e: LoadError)
    requires !Loadable(section, compiles)
    ensures e.MalformedPattern? <==> !compiles(section.name)
    ensures e.MissingOperation? ==> e.operation !in section.options
    ensures e.MissingOperation? ==> forall op: Operation :: ReadOrder(op) < ReadOrder(e.operation) ==> op in section.options
    ensures e != ProtectionFileNotFound && e.pattern == section.name
  {
    if !compiles(section.name) then MalformedPattern(section.name)
    else if Create !in section.options then MissingOperation(section.name, Create)
    else if Read !in section.options then MissingOperation(section.name, Read)
    else if Update !in section.options then MissingOperation(section.name, Update)
    else MissingOperation(section.name, Delete)
  }

  /** Section `i` is the first that does not load. */
  ghost predicate FirstUnloadable(sections: seq<Section>, compiles: string -> bool, i: int) {
    && 0 <= i < |sections|
    && !Loadable(sections[i], compiles)
    && forall j :: 0 <= j < i ==> Loadable(sections[j], compiles)
  }

  /** The first section from index `from` on that does not load, if any. */
  function FindUnloadable(sections: seq<Section>, compiles: string -> bool, from: nat): (r: Option<nat>)
    requires from <= |sections|
    ensures r.None? ==> forall i :: from <= i < |sections| ==> Loadable(sections[i], compiles)
    ensures r.Some? ==> && from <= r.value < |sections|
                        && !Loadable(sections[r.value], compiles)
                        && forall j :: from <= j < r.value ==> Loadable(sections[j], compiles)
    decreases |sections| - from
  {
    if from == |sections| then None
    else if !Loadable(sections[from], compiles) then Some(from)
    else FindUnloadable(sections, compiles, from + 1)
  }

  /**
   * The sections in order, each read as a rule, or the error of the first
   * section that does not load: the pattern is compiled and the four
   * options read section by section, and the first failure ends loading.
   */
  function LoadSections(sections: seq<Section>, compiles: string -> bool): (r: Result<seq<Rule>, LoadError>)
    ensures r.Ok? <==> forall i :: 0 <= i < |sections| ==> Loadable(sections[i], compiles)
    ensures r.Ok? ==> |r.value| == |sections|
                      && forall i :: 0 <= i < |sections| ==> r.value[i] == RuleOf(sections[i])
    ensures forall i :: FirstUnloadable(sections, compiles, i) ==> r == Err(SectionError(sections[i], compiles))
  {
    match FindUnloadable(sections, compiles, 0)
    case Some(i) =>
      assert forall k :: FirstUnloadable(sections, compiles, k) ==> k == i;
      Err(SectionError(sections[i], compiles))
    case None => Ok(seq(|sections|, i requires 0 <= i < |sections| && Loadable(sections[i], compiles) => RuleOf(sections[i])))
  }

  /**
   * `_load_rules`: the protection file, when it can be found, gives one
   * rule per section.
   */
  function LoadRules(file: Option<seq<Section>>, compiles: string -> bool): (r: Result<seq<Rule>, LoadError>)
    ensures file.None? ==> r == Err(ProtectionFileNotFound)
    ensures file.Some? ==> r == LoadSections(file.value, compiles)
  {
    match file
    case None => Err(ProtectionFileNotFound)
    case Some(sections) => LoadSections(sections, compiles)
  }

  /** The answer of the check: allowed, denied, or a rule naming both '@' and '!'. */
  datatype Decision = Allowed | Denied | MalformedRule

  /** Some role of the caller is among the permitted ones. */
  predicate SharesRole(roles: seq<string>, permitted: seq<string>) {
    exists role :: role in roles && role in permitted
  }

  /**
   * What a matching rule says about an operation, or `None` when it says
   * nothing and the next rule is consulted.
   */
  function RuleVerdict(permitted: seq<string>, roles: seq<string>): Option<Decision> {
    if AnyRole in permitted && NoRole in permitted then Some(MalformedRule)
    else if AnyRole in permitted then Some(Allowed)
    else if NoRole in permitted then Some(Denied)
    else if SharesRole(roles, permitted) then Some(Allowed)
    else None
  }

  /** What one rule says about the property and operation at hand, if anything. */
  type Judge = Rule -> Option<Decision>

  /** The judge of `check_property_rules`: a rule speaks only when its pattern matches the name. */
  function JudgeFor(matches: (string, string) -> bool, name: string, op: Operation, roles: seq<string>): Judge {
    (rule: Rule) => if matches(rule.pattern, name) then RuleVerdict(PermittedRoles(rule, op), roles) else None
  }

  /** Rule `j` decides. */
  ghost predicate Decisive(rules: seq<Rule>, judge: Judge, j: int) {
    0 <= j < |rules| && judge(rules[j]).Some?
  }

  /** Rule `j` is the first rule at or after `from` that decides. */
  ghost predicate FirstDecisiveFrom(rules: seq<Rule>, judge: Judge, from: int, j: int) {
    && from <= j
    && Decisive(rules, judge, j)
    && forall k :: from <= k < j ==> !Decisive(rules, judge, k)
  }

  /**
   * The rules from index `from` on, in order: the verdict of the first
   * that decides, or `Denied` when none does.
   */
  function ScanFrom(rules: seq<Rule>, judge: Judge, from: nat): (d: Decision)
    requires from <= |rules|
    ensures forall j :: FirstDecisiveFrom(rules, judge, from, j) ==> d == judge(rules[j]).value
    decreases |rules| - from
  {
    if from == |rules| then Denied
    else
      var verdict := judge(rules[from]);
      if verdict.Some? then
        assert Decisive(rules, judge, from);
        verdict.value
      else
        assert !Decisive(rules, judge, from);
        ScanFrom(rules, judge, from + 1)
  }

  /**
   * `check_property_rules`: with no rules everything is allowed; an action
   * other than the four operations is denied; otherwise the first matching
   * rule that decides, decides, and a property no rule decides is denied.
   */
  function CheckPropertyRules(rules: seq<Rule>, matches: (string, string) -> bool, name: string,
                              action: string, roles: seq<string>): (d: Decision)
    ensures |rules| == 0 ==> d == Allowed
    ensures |rules| > 0 && ParseOperation(action).None? ==> d == Denied
    ensures |rules| > 0 && ParseOperation(action).Some? ==>
              var judge := JudgeFor(matches, name, ParseOperation(action).value, roles);
              forall j :: FirstDecisiveFrom(rules, judge, 0, j) ==> d == judge(rules[j]).value
  {
    if |rules| == 0 then Allowed
    else
      match ParseOperation(action)
      case None => Denied
      case Some(op) => ScanFrom(rules, JudgeFor(matches, name, op, roles), 0)
  }

  /** When no rule from `from` on decides, the scan denies. */
  lemma {:induction false} ScanFromNoneDecisive(rules: seq<Rule>, judge: Judge, from: nat)
    requires from <= |rules|
    requires forall k :: from <= k < |rules| ==> !Decisive(rules, judge, k)
    ensures ScanFrom(rules, judge, from) == Denied
    decreases |rules| - from
  {
    if from < |rules| {
      assert !Decisive(rules, judge, from);
      ScanFromNoneDecisive(rules, judge, from + 1);
    }
  }

  /**
   * A property that no matching rule decides for an operation is denied
   * whenever there are rules at all.
   */
  lemma UndecidedIsDenied(rules: seq<Rule>, matches: (string, string) -> bool, name: string,
                          op: Operation, roles: seq<string>)
    requires |rules| > 0
    requires forall k :: 0 <= k < |rules| ==> !Decisive(rules, JudgeFor(matches, name, op, roles), k)
    ensures CheckPropertyRules(rules, matches, name, OperationName(op), roles) == Denied
  {
    ParseOperationName(op);
    ScanFromNoneDecisive(rules, JudgeFor(matches, name, op, roles), 0);
  }

  /**
   * The verdict of one matching rule, case by case: both markers are an
   * error, '@' allows whatever the roles, '!' denies whatever the roles,
   * otherwise the rule allows exactly the callers sharing a role with it
   * and passes the others on.
   */
  lemma RuleVerdictCases(permitted: seq<string>, roles: seq<string>)
    ensures RuleVerdict(permitted, roles) == Some(MalformedRule) <==> AnyRole in permitted && NoRole in permitted
    ensures RuleVerdict(permitted, roles) == Some(Allowed) <==>
            (AnyRole in permitted && NoRole !in permitted) ||
            (AnyRole !in permitted && NoRole !in permitted && SharesRole(roles, permitted))
    ensures RuleVerdict(permitted, roles) == Some(Denied) <==> NoRole in permitted && AnyRole !in permitted
    ensures RuleVerdict(permitted, roles) == None <==>
            AnyRole !in permitted && NoRole !in permitted && !SharesRole(roles, permitted)
  {
  }

  /** A rule whose option for the operation is empty never decides it. */
  lemma EmptyRoleListNeverDecides(roles: seq<string>)
    ensures RuleVerdict(ParseRoles(""), roles) == None
  {
  }

  /** Scanning a list with one rule in front, from index `from + 1`, is scanning the list from `from`. */
  lemma {:induction false} ScanFromShift(r: Rule, rules: seq<Rule>, judge: Judge, from: nat)
    requires from <= |rules|
    ensures ScanFrom([r] + rules, judge, from + 1) == ScanFrom(rules, judge, from)
    decreases |rules| - from
  {
    if from < |rules| {
      assert ([r] + rules)[from + 1] == rules[from];
      ScanFromShift(r, rules, judge, from + 1);
    }
  }

  /** Two judges that agree on every rule from `from` on give the same answer. */
  lemma {:induction false} ScanFromAgreeingJudges(rules: seq<Rule>, judge1: Judge, judge2: Judge, from: nat)
    requires from <= |rules|
    requires forall k :: from <= k < |rules| ==> judge1(rules[k]) == judge2(rules[k])
    ensures ScanFrom(rules, judge1, from) == ScanFrom(rules, judge2, from)
    decreases |rules| - from
  {
    if from < |rules| {
      ScanFromAgreeingJudges(rules, judge1, judge2, from + 1);
    }
  }

  /**
   * A rule that does not match the property, or matches but says nothing
   * for these roles, can be removed from the front of a non-empty list
   * without changing any answer.
   */
  lemma InertRuleIsSkipped(r: Rule, rules: seq<Rule>, matches: (string, string) -> bool, name: string,
                           action: string, roles: seq<string>)
    requires |rules| > 0
    requires ParseOperation(action).Some? ==>
               !matches(r.pattern, name) || RuleVerdict(PermittedRoles(r, ParseOperation(action).value), roles).None?
    ensures CheckPropertyRules([r] + rules, matches, name, action, roles)
            == CheckPropertyRules(rules, matches, name, action, roles)
  {
    if ParseOperation(action).Some? {
      var judge := JudgeFor(matches, name, ParseOperation(action).value, roles);
      assert ([r] + rules)[0] == r;
      assert judge(r).None?;
      ScanFromShift(r, rules, judge, 0);
    }
  }

  /** A matching rule that decides answers whatever rules follow it. */
  lemma FirstMatchDecides(r: Rule, rules: seq<Rule>, matches: (string, string) -> bool, name: string,
                          op: Operation, roles: seq<string>)
    requires matches(r.pattern, name)
    requires RuleVerdict(PermittedRoles(r, op), roles).Some?
    ensures CheckPropertyRules([r] + rules, matches, name, OperationName(op), roles)
            == RuleVerdict(PermittedRoles(r, op), roles).value
  {
    ParseOperationName(op);
    assert FirstDecisiveFrom([r] + rules, JudgeFor(matches, name, op, roles), 0, 0);
  }

  /**
   * A rule with an empty option does not forbid the operation: the answer
   * is left to the rules after it, so a later matching rule that decides
   * still decides.
   */
  lemma EmptyOptionDefersToLaterRule(r: Rule, later: Rule, matches: (string, string) -> bool, name: string,
                                     op: Operation, roles: seq<string>)
    requires PermittedRoles(r, op) == []
    requires matches(later.pattern, name)
    requires RuleVerdict(PermittedRoles(later, op), roles).Some?
    ensures CheckPropertyRules([r, later], matches, name, OperationName(op), roles)
            == RuleVerdict(PermittedRoles(later, op), roles).value
  {
    ParseOperationName(op);
    EmptyRoleListNeverDecides(roles);
    assert [r, later] == [r] + [later];
    InertRuleIsSkipped(r, [later], matches, name, OperationName(op), roles);
    assert [later] == [later] + [];
    FirstMatchDecides(later, [], matches, name, op, roles);
  }

  /**
   * Only the caller's roles that the rules name matter: the answer does not
   * change when a caller also holds a role no rule lists for the operation.
   */
  lemma UnlistedRoleIrrelevant(rules: seq<Rule>, matches: (string, string) -> bool, name: string,
                               op: Operation, roles: seq<string>, extra: string)
    requires forall k :: 0 <= k < |rules| ==> extra !in PermittedRoles(rules[k], op)
    ensures CheckPropertyRules(rules, matches, name, OperationName(op), roles + [extra])
            == CheckPropertyRules(rules, matches, name, OperationName(op), roles)
  {
    ParseOperationName(op);
    var judge1, judge2 := JudgeFor(matches, name, op, roles + [extra]), JudgeFor(matches, name, op, roles);
    forall k | 0 <= k < |rules| ensures judge1(rules[k]) == judge2(rules[k]) {
      var permitted := PermittedRoles(rules[k], op);
      assert SharesRole(roles + [extra], permitted) == SharesRole(roles, permitted) by {
        if SharesRole(roles + [extra], permitted) {
          var role :| role in roles + [extra] && role in permitted;
          assert role in roles;
        }
        if SharesRole(roles, permitted) {
          var role :| role in roles && role in permitted;
          assert role in roles + [extra];
        }
      }
      assert RuleVerdict(permitted, roles + [extra]) == RuleVerdict(permitted, roles);
      assert judge1(rules[k]) == if matches(rules[k].pattern, name) then RuleVerdict(permitted, roles + [extra]) else None;
      assert judge2(rules[k]) == if matches(rules[k].pattern, name) then RuleVerdict(permitted, roles) else None;
    }
    if |rules| > 0 {
      ScanFromAgreeingJudges(rules, judge1, judge2, 0);
    }
  }
}
