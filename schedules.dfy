/**
 * The schedule validator: every rule applied to every schedule, in file order,
 * with the problems accumulated rather than raised.
 *
 * `AllErrors` is the specification: the list of problems as a function of the
 * schedule list. `ValidateSchedules` is the validator as the program runs it,
 * a loop that appends messages to an accumulator and keeps a set of the names
 * it has seen; it is proved to return the rendering of `AllErrors`.
 */
module Schedules {
  import opened Wrappers
  import opened Text
  import opened Email

  /** One entry of the configuration; an absent field is `None`. */
  datatype Schedule = Schedule(
    name: Option<string>,
    cron: Option<string>,
    actions: Option<seq<string>>,   // options.actions
    emails: Option<seq<string>>)    // notification.emails

  /** A structured action name; only `name`, the bare component, is inspected here. */
  datatype Target = Target(database: string, schema: string, name: string)

  /** The compiled graph: the targets of its tables and assertions, and of its operations, which may lack one. */
  datatype Graph = Graph(tables: seq<Target>, assertions: seq<Target>, operations: seq<Option<Target>>)

  /**
   * The collaborators whose code is not part of this model: whether the cron
   * parser accepts a cron field, and the canonical readable rendering of a
   * (possibly missing) target. Nothing is assumed about either.
   */
  datatype Externals = Externals(cronParses: Option<string> -> bool, readable: Option<Target> -> string)

  /** JavaScript truthiness of an optional string: present and non-empty. */
  predicate Truthy(s: Option<string>) {
    s.Some? && s.value != ""
  }

  /** The problems the validator reports; `schedule` is the name of the schedule concerned. */
  datatype ValidationError =
    | NameRequired
    | NameBlank
    | NameNotUnique(schedule: Option<string>)
    | CronRequired(schedule: Option<string>)
    | CronInvalid(schedule: Option<string>, cron: Option<string>)
    | ActionMissing(action: string, schedule: Option<string>)
    | EmailInvalid(schedule: Option<string>, email: string)

  /** How a template literal renders an optional string. */
  function Show(s: Option<string>): string {
    match s
    case None => "undefined"
    case Some(v) => v
  }

  /** The human-readable message of each problem. */
  function Message(e: ValidationError): string {
    match e
    case NameRequired => "Schedule name is required."
    case NameBlank => "Schedule name must not be empty."
    case NameNotUnique(n) =>
      "Schedule name \"" + Show(n) + "\" is not unique. All schedule names must be unique."
    case CronRequired(n) => "Cron expression is required on " + Show(n) + "."
    case CronInvalid(n, c) =>
      "Schedule \"" + Show(n) + "\" contains an invalid cron expression \"" + Show(c) + "\"."
    case ActionMissing(a, n) =>
      "Action \"" + a + "\" included in schedule " + Show(n) + " doesn't exist in the project."
    case EmailInvalid(n, m) =>
      "Schedule \"" + Show(n) + "\" contains an invalid email address \"" + m + "\"."
  }

  /** The messages of a list of problems, one per problem, in order. */
  function Render(es: seq<ValidationError>): (r: seq<string>)
    ensures |r| == |es|
    ensures forall i :: 0 <= i < |es| ==> r[i] == Message(es[i])
  {
    if es == [] then [] else Render(es[..|es| - 1]) + [Message(es[|es| - 1])]
  }

  // ---- the reference set ----

  /** The readable strings of a list of targets, in order. */
  function ReadableStrings(ts: seq<Target>, readable: Option<Target> -> string): (r: seq<string>)
    ensures forall x :: x in r <==> exists t :: t in ts && readable(Some(t)) == x
  {
    if ts == [] then []
    else
      var t := ts[|ts| - 1];
      assert forall p :: p in ts <==> p in ts[..|ts| - 1] || p == t;
      ReadableStrings(ts[..|ts| - 1], readable) + [readable(Some(t))]
  }

  /** The readable strings of a list of operation targets, missing ones included, in order. */
  function OperationStrings(ops: seq<Option<Target>>, readable: Option<Target> -> string): (r: seq<string>)
    ensures forall x :: x in r <==> exists o :: o in ops && readable(o) == x
  {
    if ops == [] then []
    else
      var o := ops[|ops| - 1];
      assert forall p :: p in ops <==> p in ops[..|ops| - 1] || p == o;
      OperationStrings(ops[..|ops| - 1], readable) + [readable(o)]
  }

  /** The bare names of a list of targets, in order. */
  function BareNames(ts: seq<Target>): (r: seq<string>)
    ensures forall x :: x in r <==> exists t :: t in ts && t.name == x
  {
    if ts == [] then []
    else
      var t := ts[|ts| - 1];
      assert forall p :: p in ts <==> p in ts[..|ts| - 1] || p == t;
      BareNames(ts[..|ts| - 1]) + [t.name]
  }

  /** The bare names of the operations that have a target, in order. */
  function PresentNames(ops: seq<Option<Target>>): (r: seq<string>)
    ensures forall x :: x in r <==> exists o :: o in ops && o.Some? && o.value.name == x
  {
    if ops == [] then []
    else
      var o := ops[|ops| - 1];
      assert forall p :: p in ops <==> p in ops[..|ops| - 1] || p == o;
      PresentNames(ops[..|ops| - 1]) + (if o.Some? then [o.value.name] else [])
  }

  /** `x` is the readable string of some action of the graph, or the bare name of a table, an assertion or an operation with a target. */
  predicate IsReference(g: Graph, readable: Option<Target> -> string, x: string) {
    (exists t :: t in g.tables && readable(Some(t)) == x)
    || (exists t :: t in g.assertions && readable(Some(t)) == x)
    || (exists o :: o in g.operations && readable(o) == x)
    || (exists t :: t in g.tables && t.name == x)
    || (exists t :: t in g.assertions && t.name == x)
    || (exists o :: o in g.operations && o.Some? && o.value.name == x)
  }

  /**
   * The strings a schedule may name an action by: the readable strings of all
   * tables, assertions and operations, then the bare names of all tables and
   * assertions and of the operations that have a target.
   */
  function References(g: Graph, readable: Option<Target> -> string): (r: seq<string>)
    ensures forall x :: x in r <==> IsReference(g, readable, x)
  {
    ReadableStrings(g.tables, readable) + ReadableStrings(g.assertions, readable)
    + OperationStrings(g.operations, readable)
    + BareNames(g.tables) + BareNames(g.assertions) + PresentNames(g.operations)
  }

  /** The action name looked up: `<prefix>_<action>` when the prefix is truthy, the action itself otherwise. */
  function PrefixedName(prefix: Option<string>, action: string): string {
    if Truthy(prefix) then prefix.value + "_" + action else action
  }

  /** The looked-up name splits back into the prefix, an underscore and the action; without a truthy prefix it is the action. */
  lemma PrefixedNameParts(prefix: Option<string>, action: string)
    ensures !Truthy(prefix) ==> PrefixedName(prefix, action) == action
    ensures Truthy(prefix) ==>
      var r, p := PrefixedName(prefix, action), prefix.value;
      && |r| == |p| + 1 + |action|
      && r[..|p|] == p && r[|p|] == '_' && r[|p| + 1..] == action
  {
  }

  // ---- the rules of one schedule ----

  /** The name rules: a missing or empty name is required; a non-empty name must not trim to nothing. */
  function NameErrors(name: Option<string>): seq<ValidationError> {
    (if !Truthy(name) then [NameRequired] else [])
    + (if Truthy(name) && |Trim(name.value)| == 0 then [NameBlank] else [])
  }

  /** The cron rules, each applied on its own: the field is required, and the parser must accept it. */
  function CronErrors(name: Option<string>, cron: Option<string>, cronParses: Option<string> -> bool): seq<ValidationError> {
    (if !Truthy(cron) then [CronRequired(name)] else [])
    + (if !cronParses(cron) then [CronInvalid(name, cron)] else [])
  }

  /** One error per listed action whose prefixed name is not a reference, in list order. */
  function ActionErrors(actions: seq<string>, refs: seq<string>, prefix: Option<string>, name: Option<string>): seq<ValidationError> {
    if actions == [] then []
    else
      var a := actions[|actions| - 1];
      ActionErrors(actions[..|actions| - 1], refs, prefix, name)
      + (if PrefixedName(prefix, a) in refs then [] else [ActionMissing(PrefixedName(prefix, a), name)])
  }

  /** One error per listed address the pattern refuses, in list order. */
  function EmailErrors(emails: seq<string>, name: Option<string>): seq<ValidationError> {
    if emails == [] then []
    else
      var m := emails[|emails| - 1];
      EmailErrors(emails[..|emails| - 1], name) + (if ValidEmail(m) then [] else [EmailInvalid(name, m)])
  }

  /** The not-unique problem, present when an earlier schedule has the same name. */
  function DuplicateErrors(name: Option<string>, duplicate: bool): seq<ValidationError> {
    if duplicate then [NameNotUnique(name)] else []
  }

  /** The action problems of a schedule that lists actions, checked against every reference of the graph. */
  function ActionPart(s: Schedule, g: Graph, prefix: Option<string>, ext: Externals): seq<ValidationError> {
    if s.actions.Some? then ActionErrors(s.actions.value, References(g, ext.readable), prefix, s.name) else []
  }

  /** The email problems of a schedule that lists notification emails. */
  function EmailPart(s: Schedule): seq<ValidationError> {
    if s.emails.Some? then EmailErrors(s.emails.value, s.name) else []
  }

  /**
   * The problems of one schedule, given whether an earlier schedule has the same
   * name: name rules, then uniqueness, then cron rules, then actions, then emails.
   */
  function ScheduleErrors(s: Schedule, duplicate: bool, g: Graph, prefix: Option<string>, ext: Externals): seq<ValidationError> {
    NameErrors(s.name)
    + DuplicateErrors(s.name, duplicate)
    + CronErrors(s.name, s.cron, ext.cronParses)
    + ActionPart(s, g, prefix, ext)
    + EmailPart(s)
  }

  lemma ConcatAssoc6<T>(a: seq<T>, b: seq<T>, c: seq<T>, d: seq<T>, e: seq<T>, f: seq<T>)
    ensures a + b + c + d + e + f == a + (b + c + d + e + f)
  {
  }

  /** Schedule `i` has the name of some earlier schedule. */
  predicate IsDuplicateAt(ss: seq<Schedule>, i: int)
    requires 0 <= i < |ss|
  {
    exists j :: 0 <= j < i && ss[j].name == ss[i].name
  }

  /** The problems of a schedule list: those of each schedule, in file order. */
  function AllErrors(ss: seq<Schedule>, g: Graph, prefix: Option<string>, ext: Externals): seq<ValidationError> {
    if ss == [] then []
    else AllErrors(ss[..|ss| - 1], g, prefix, ext) + ScheduleErrors(ss[|ss| - 1], IsDuplicateAt(ss, |ss| - 1), g, prefix, ext)
  }

  /** The names of a schedule list, absent ones included. */
  function NamesOf(ss: seq<Schedule>): set<Option<string>> {
    set i | 0 <= i < |ss| :: ss[i].name
  }

  lemma NamesOfSnoc(ss: seq<Schedule>, k: int)
    requires 0 <= k < |ss|
    ensures NamesOf(ss[..k + 1]) == NamesOf(ss[..k]) + {ss[k].name}
    ensures ss[k].name in NamesOf(ss[..k]) <==> IsDuplicateAt(ss, k)
  {
    var a, b := ss[..k + 1], ss[..k];
    assert a[k] == ss[k];
    forall n | n in NamesOf(a) ensures n in NamesOf(b) + {ss[k].name} {
      var i :| 0 <= i < |a| && a[i].name == n;
      if i < k { assert b[i] == a[i]; }
    }
    forall n | n in NamesOf(b) ensures n in NamesOf(a) {
      var i :| 0 <= i < |b| && b[i].name == n;
      assert a[i] == b[i];
    }
    if ss[k].name in NamesOf(b) {
      var i :| 0 <= i < |b| && b[i].name == ss[k].name;
      assert ss[i] == b[i];
    }
    if IsDuplicateAt(ss, k) {
      var j :| 0 <= j < k && ss[j].name == ss[k].name;
      assert b[j] == ss[j];
    }
  }

  lemma AllErrorsSnoc(ss: seq<Schedule>, k: int, g: Graph, prefix: Option<string>, ext: Externals)
    requires 0 <= k < |ss|
    ensures AllErrors(ss[..k + 1], g, prefix, ext)
         == AllErrors(ss[..k], g, prefix, ext) + ScheduleErrors(ss[k], IsDuplicateAt(ss, k), g, prefix, ext)
  {
    var a := ss[..k + 1];
    assert a[..k] == ss[..k];
    assert IsDuplicateAt(a, k) <==> IsDuplicateAt(ss, k) by {
      if IsDuplicateAt(ss, k) {
        var j :| 0 <= j < k && ss[j].name == ss[k].name;
        assert a[j] == ss[j];
      }
    }
  }

  /** The `forEach` over `options.actions`: appends one error per action whose prefixed name is not in `refs`. */
  method CheckActions(actions: seq<string>, refs: seq<string>, prefix: Option<string>, name: Option<string>,
                      found: seq<ValidationError>)
    returns (found': seq<ValidationError>)
    ensures found' == found + ActionErrors(actions, refs, prefix, name)
  {
    found' := found;
    for j := 0 to |actions|
      invariant found' == found + ActionErrors(actions[..j], refs, prefix, name)
    {
      assert actions[..j + 1][..j] == actions[..j];
      var prefixedActionName := PrefixedName(prefix, actions[j]);
      if prefixedActionName !in refs {
        found' := found' + [ActionMissing(prefixedActionName, name)];
      }
    }
    assert actions[..|actions|] == actions;
  }

  /** The `forEach` over `notification.emails`: appends one error per address the pattern refuses. */
  method CheckEmails(emails: seq<string>, name: Option<string>, found: seq<ValidationError>)
    returns (found': seq<ValidationError>)
    ensures found' == found + EmailErrors(emails, name)
  {
    found' := found;
    for j := 0 to |emails|
      invariant found' == found + EmailErrors(emails[..j], name)
    {
      assert emails[..j + 1][..j] == emails[..j];
      if !ValidEmail(emails[j]) {
        found' := found' + [EmailInvalid(name, emails[j])];
      }
    }
    assert emails[..|emails|] == emails;
  }

  /**
   * The name rules and the uniqueness check of one schedule: appends their
   * problems to `found`, and adds the name to the names seen so far whatever
   * the checks found.
   */
  method CheckName(name: Option<string>, uniqueNames: set<Option<string>>, found: seq<ValidationError>)
    returns (names': set<Option<string>>, found': seq<ValidationError>)
    ensures names' == uniqueNames + {name}
    ensures found' == found + NameErrors(name) + DuplicateErrors(name, name in uniqueNames)
  {
    found' := found;
    if !Truthy(name) {
      found' := found' + [NameRequired];
    }
    if Truthy(name) && |Trim(name.value)| == 0 {
      found' := found' + [NameBlank];
    }
    if name in uniqueNames {
      found' := found' + [NameNotUnique(name)];
    }
    names' := uniqueNames + {name};
  }

  /** The two cron rules of one schedule, each applied on its own: appends their problems to `found`. */
  method CheckCron(name: Option<string>, cron: Option<string>, cronParses: Option<string> -> bool, found: seq<ValidationError>)
    returns (found': seq<ValidationError>)
    ensures found' == found + CronErrors(name, cron, cronParses)
  {
    found' := found;
    if !Truthy(cron) {
      found' := found' + [CronRequired(name)];
    }
    if !cronParses(cron) {
      found' := found' + [CronInvalid(name, cron)];
    }
  }

  /**
   * The callback `validateSchedules` runs for each schedule: it appends the
   * problems of `schedule` to `found`, checking uniqueness against the names
   * seen so far, and adds the schedule's name to them.
   */
  method CheckSchedule(schedule: Schedule, uniqueNames: set<Option<string>>, found: seq<ValidationError>,
                       g: Graph, prefix: Option<string>, ext: Externals)
    returns (names': set<Option<string>>, found': seq<ValidationError>)
    ensures names' == uniqueNames + {schedule.name}
    ensures found' == found + ScheduleErrors(schedule, schedule.name in uniqueNames, g, prefix, ext)
  {
    names', found' := CheckName(schedule.name, uniqueNames, found);
    ghost var named := found';
    found' := CheckCron(schedule.name, schedule.cron, ext.cronParses, found');
    ghost var timed := found';
    if schedule.actions.Some? {
      var allReadableTargetNames := References(g, ext.readable);
      found' := CheckActions(schedule.actions.value, allReadableTargetNames, prefix, schedule.name, found');
    }
    ghost var acted := found';
    if schedule.emails.Some? {
      found' := CheckEmails(schedule.emails.value, schedule.name, found');
    }
    ConcatAssoc6(found, NameErrors(schedule.name), DuplicateErrors(schedule.name, schedule.name in uniqueNames),
                 CronErrors(schedule.name, schedule.cron, ext.cronParses),
                 ActionPart(schedule, g, prefix, ext), EmailPart(schedule));
  }

  /**
   * `validateSchedules`: the messages of every rule, for every schedule, in file
   * order. `found` accumulates the problems (their messages are rendered once, at
   * the end); the set `uniqueNames` holds the names of the schedules processed so far.
   */
  method ValidateSchedules(schedules: seq<Schedule>, g: Graph, prefix: Option<string>, ext: Externals)
    returns (errors: seq<string>)
    ensures errors == Render(AllErrors(schedules, g, prefix, ext))
  {
    var found: seq<ValidationError> := [];
    var uniqueNames: set<Option<string>> := {};
    for k := 0 to |schedules|
      invariant uniqueNames == NamesOf(schedules[..k])
      invariant found == AllErrors(schedules[..k], g, prefix, ext)
    {
      NamesOfSnoc(schedules, k);
      AllErrorsSnoc(schedules, k, g, prefix, ext);
      uniqueNames, found := CheckSchedule(schedules[k], uniqueNames, found, g, prefix, ext);
    }
    assert schedules[..|schedules|] == schedules;
    errors := Render(found);
  }
}
