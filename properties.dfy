/**
 * What the validator promises, stated about the specification `AllErrors` and
 * its parts: which rule fires when, how duplicates are reported, that the
 * problems come in file order and, within a schedule, in rule order, and when a
 * schedule list is reported clean.
 */
module ScheduleProperties {
  import opened Wrappers
  import opened Text
  import opened Email
  import opened Schedules

  // ---- the rules of one schedule ----

  /** The name messages: "required" for a missing or empty name, "must not be empty" for a non-empty blank one, never both. */
  lemma NameRules(name: Option<string>)
    ensures |NameErrors(name)| <= 1
    ensures NameRequired in NameErrors(name) <==> name == None || name == Some("")
    ensures NameBlank in NameErrors(name) <==> name.Some? && name.value != "" && AllWhitespace(name.value)
    ensures forall e :: e in NameErrors(name) ==> e == NameRequired || e == NameBlank
  {
    if name.Some? {
      TrimEmptyIffAllWhitespace(name.value);
    }
  }

  /** The cron messages, evaluated independently: "required" for a missing or empty field, "invalid" when the parser refuses it. */
  lemma CronRules(name: Option<string>, cron: Option<string>, cronParses: Option<string> -> bool)
    ensures CronRequired(name) in CronErrors(name, cron, cronParses) <==> cron == None || cron == Some("")
    ensures CronInvalid(name, cron) in CronErrors(name, cron, cronParses) <==> !cronParses(cron)
    ensures forall e :: e in CronErrors(name, cron, cronParses) ==> e == CronRequired(name) || e == CronInvalid(name, cron)
  {
  }

  /** An action error names the prefixed form of a listed action exactly when that form is not a reference. */
  lemma {:induction false} ActionErrorsMembership(actions: seq<string>, refs: seq<string>, prefix: Option<string>, name: Option<string>)
    ensures forall e :: e in ActionErrors(actions, refs, prefix, name) <==>
      exists a :: a in actions && PrefixedName(prefix, a) !in refs && e == ActionMissing(PrefixedName(prefix, a), name)
  {
    if actions != [] {
      var init, a := actions[..|actions| - 1], actions[|actions| - 1];
      ActionErrorsMembership(init, refs, prefix, name);
      assert actions == init + [a];
      assert forall b :: b in actions <==> b in init || b == a;
    }
  }

  /** Action errors come in list order: those of a concatenation are those of its halves, concatenated. */
  lemma {:induction false} ActionErrorsAppend(xs: seq<string>, ys: seq<string>, refs: seq<string>, prefix: Option<string>, name: Option<string>)
    ensures ActionErrors(xs + ys, refs, prefix, name) == ActionErrors(xs, refs, prefix, name) + ActionErrors(ys, refs, prefix, name)
    decreases |ys|
  {
    if ys == [] {
      assert xs + ys == xs;
    } else {
      var init := ys[..|ys| - 1];
      ActionErrorsAppend(xs, init, refs, prefix, name);
      assert (xs + ys)[..|xs + ys| - 1] == xs + init;
    }
  }

  /** An email error names a listed address exactly when the pattern refuses it. */
  lemma {:induction false} EmailErrorsMembership(emails: seq<string>, name: Option<string>)
    ensures forall e :: e in EmailErrors(emails, name) <==>
      exists m :: m in emails && !ValidEmail(m) && e == EmailInvalid(name, m)
  {
    if emails != [] {
      var init, m := emails[..|emails| - 1], emails[|emails| - 1];
      EmailErrorsMembership(init, name);
      assert emails == init + [m];
      assert forall b :: b in emails <==> b in init || b == m;
    }
  }

  /** Email errors come in list order. */
  lemma {:induction false} EmailErrorsAppend(xs: seq<string>, ys: seq<string>, name: Option<string>)
    ensures EmailErrors(xs + ys, name) == EmailErrors(xs, name) + EmailErrors(ys, name)
    decreases |ys|
  {
    if ys == [] {
      assert xs + ys == xs;
    } else {
      var init := ys[..|ys| - 1];
      EmailErrorsAppend(xs, init, name);
      assert (xs + ys)[..|xs + ys| - 1] == xs + init;
    }
  }

  /** An action named by a table's bare name is accepted, even when the table's readable string differs. */
  lemma BareTableNameAccepted(g: Graph, readable: Option<Target> -> string, i: int, prefix: Option<string>, action: string, name: Option<string>)
    requires 0 <= i < |g.tables|
    requires PrefixedName(prefix, action) == g.tables[i].name
    ensures ActionErrors([action], References(g, readable), prefix, name) == []
  {
    assert g.tables[i] in g.tables;
    assert IsReference(g, readable, PrefixedName(prefix, action));
    assert [action][..0] == [];
  }

  /** An action that names no action of the graph, under the prefix in force, is reported once, by its prefixed name. */
  lemma MissingActionReported(g: Graph, readable: Option<Target> -> string, prefix: Option<string>, action: string, name: Option<string>)
    requires !IsReference(g, readable, PrefixedName(prefix, action))
    ensures ActionErrors([action], References(g, readable), prefix, name) == [ActionMissing(PrefixedName(prefix, action), name)]
  {
    assert [action][..0] == [];
  }

  /** The rank of a problem in the order the rules of one schedule run. */
  function Rank(e: ValidationError): nat {
    match e
    case NameRequired => 0
    case NameBlank => 1
    case NameNotUnique(_) => 2
    case CronRequired(_) => 3
    case CronInvalid(_, _) => 4
    case ActionMissing(_, _) => 5
    case EmailInvalid(_, _) => 6
  }

  predicate RankOrdered(es: seq<ValidationError>) {
    forall i, j :: 0 <= i < j < |es| ==> Rank(es[i]) <= Rank(es[j])
  }

  lemma OrderedConcat(a: seq<ValidationError>, b: seq<ValidationError>, k: nat)
    requires RankOrdered(a) && RankOrdered(b)
    requires forall e :: e in a ==> Rank(e) <= k
    requires forall e :: e in b ==> k <= Rank(e)
    ensures RankOrdered(a + b)
  {
    var c := a + b;
    forall i, j | 0 <= i < j < |c| ensures Rank(c[i]) <= Rank(c[j]) {
      if i < |a| && j >= |a| {
        assert c[i] in a && c[j] in b;
      }
    }
  }

  /**
   * Within one schedule the problems come in rule order: name required, name
   * blank, not unique, cron required, cron invalid, actions, then emails.
   */
  lemma ScheduleErrorsInRuleOrder(s: Schedule, duplicate: bool, g: Graph, prefix: Option<string>, ext: Externals)
    ensures RankOrdered(ScheduleErrors(s, duplicate, g, prefix, ext))
  {
    var n := NameErrors(s.name);
    var d := DuplicateErrors(s.name, duplicate);
    var c := CronErrors(s.name, s.cron, ext.cronParses);
    var a := ActionPart(s, g, prefix, ext);
    var m := EmailPart(s);
    assert ScheduleErrors(s, duplicate, g, prefix, ext) == n + d + c + a + m;
    PartRanks(s, duplicate, g, prefix, ext);
    NameRules(s.name);
    assert RankOrdered(n);
    assert RankOrdered(c) by {
      if |c| == 2 { assert c[0] in c && c[1] in c; }
    }
    SameRankOrdered(d, 2);
    SameRankOrdered(a, 5);
    SameRankOrdered(m, 6);
    OrderedConcat5(n, d, c, a, m);
  }

  lemma SameRankOrdered(es: seq<ValidationError>, k: nat)
    requires forall e :: e in es ==> Rank(e) == k
    ensures RankOrdered(es)
  {
    forall i, j | 0 <= i < j < |es| ensures Rank(es[i]) <= Rank(es[j]) {
      assert es[i] in es && es[j] in es;
    }
  }

  /** Five lists, each ordered, whose ranks lie in consecutive bands, concatenate to an ordered list. */
  lemma OrderedConcat5(n: seq<ValidationError>, d: seq<ValidationError>, c: seq<ValidationError>, a: seq<ValidationError>, m: seq<ValidationError>)
    requires RankOrdered(n) && RankOrdered(d) && RankOrdered(c) && RankOrdered(a) && RankOrdered(m)
    requires forall e :: e in n ==> Rank(e) <= 1
    requires forall e :: e in d ==> Rank(e) == 2
    requires forall e :: e in c ==> 3 <= Rank(e) <= 4
    requires forall e :: e in a ==> Rank(e) == 5
    requires forall e :: e in m ==> Rank(e) == 6
    ensures RankOrdered(n + d + c + a + m)
  {
    OrderedConcat(n, d, 2);
    assert forall e :: e in n + d ==> Rank(e) <= 2;
    OrderedConcat(n + d, c, 3);
    assert forall e :: e in n + d + c ==> Rank(e) <= 4;
    OrderedConcat(n + d + c, a, 5);
    assert forall e :: e in n + d + c + a ==> Rank(e) <= 5;
    OrderedConcat(n + d + c + a, m, 6);
  }

  /** Membership in a five-part concatenation. */
  lemma InConcat5<T>(x: T, a: seq<T>, b: seq<T>, c: seq<T>, d: seq<T>, e: seq<T>)
    ensures x in a + b + c + d + e <==> x in a || x in b || x in c || x in d || x in e
  {
  }

  /** The ranks each rule group of one schedule produces. */
  lemma PartRanks(s: Schedule, duplicate: bool, g: Graph, prefix: Option<string>, ext: Externals)
    ensures forall e :: e in NameErrors(s.name) ==> Rank(e) <= 1
    ensures forall e :: e in DuplicateErrors(s.name, duplicate) ==> Rank(e) == 2
    ensures forall e :: e in CronErrors(s.name, s.cron, ext.cronParses) ==> 3 <= Rank(e) <= 4
    ensures forall e :: e in ActionPart(s, g, prefix, ext) ==> Rank(e) == 5
    ensures forall e :: e in EmailPart(s) ==> Rank(e) == 6
  {
    NameRules(s.name);
    CronRules(s.name, s.cron, ext.cronParses);
    if s.actions.Some? {
      ActionErrorsMembership(s.actions.value, References(g, ext.readable), prefix, s.name);
    }
    if s.emails.Some? {
      EmailErrorsMembership(s.emails.value, s.name);
    }
  }

  /** A schedule passes when every rule is satisfied. */
  predicate ScheduleIsClean(s: Schedule, duplicate: bool, g: Graph, prefix: Option<string>, ext: Externals) {
    && Truthy(s.name) && !AllWhitespace(s.name.value) && !duplicate
    && Truthy(s.cron) && ext.cronParses(s.cron)
    && (s.actions.Some? ==> forall a :: a in s.actions.value ==> IsReference(g, ext.readable, PrefixedName(prefix, a)))
    && (s.emails.Some? ==> forall m :: m in s.emails.value ==> ValidEmail(m))
  }

  /** A schedule's actions raise no problem exactly when every one, under the prefix, is a reference of the graph. */
  lemma ActionPartClean(s: Schedule, g: Graph, prefix: Option<string>, ext: Externals)
    ensures ActionPart(s, g, prefix, ext) == [] <==>
      (s.actions.Some? ==> forall a :: a in s.actions.value ==> IsReference(g, ext.readable, PrefixedName(prefix, a)))
  {
    if s.actions.Some? {
      var refs := References(g, ext.readable);
      ActionErrorsMembership(s.actions.value, refs, prefix, s.name);
      var r := ActionErrors(s.actions.value, refs, prefix, s.name);
      if r != [] {
        assert r[0] in r;
        var a :| a in s.actions.value && PrefixedName(prefix, a) !in refs && r[0] == ActionMissing(PrefixedName(prefix, a), s.name);
        assert !IsReference(g, ext.readable, PrefixedName(prefix, a));
      }
      forall a | a in s.actions.value
        ensures !IsReference(g, ext.readable, PrefixedName(prefix, a)) ==> ActionMissing(PrefixedName(prefix, a), s.name) in r
      {
      }
    }
  }

  /** A schedule's emails raise no problem exactly when the pattern accepts every one. */
  lemma EmailPartClean(s: Schedule)
    ensures EmailPart(s) == [] <==> (s.emails.Some? ==> forall m :: m in s.emails.value ==> ValidEmail(m))
  {
    if s.emails.Some? {
      EmailErrorsMembership(s.emails.value, s.name);
      var r := EmailErrors(s.emails.value, s.name);
      if r != [] {
        assert r[0] in r;
      }
      forall m | m in s.emails.value ensures !ValidEmail(m) ==> EmailInvalid(s.name, m) in r {
      }
    }
  }

  /** A schedule contributes no problem exactly when it satisfies every rule. */
  lemma ScheduleCleanIff(s: Schedule, duplicate: bool, g: Graph, prefix: Option<string>, ext: Externals)
    ensures ScheduleErrors(s, duplicate, g, prefix, ext) == [] <==> ScheduleIsClean(s, duplicate, g, prefix, ext)
  {
    var n := NameErrors(s.name);
    var d := DuplicateErrors(s.name, duplicate);
    var c := CronErrors(s.name, s.cron, ext.cronParses);
    var a := ActionPart(s, g, prefix, ext);
    var m := EmailPart(s);
    assert ScheduleErrors(s, duplicate, g, prefix, ext) == n + d + c + a + m;
    assert n + d + c + a + m == [] <==> n == [] && d == [] && c == [] && a == [] && m == [] by {
      if n + d + c + a + m == [] {
        assert |n + d + c + a + m| == |n| + |d| + |c| + |a| + |m|;
      }
    }
    NameRules(s.name);
    assert n == [] <==> Truthy(s.name) && !AllWhitespace(s.name.value) by {
      if n != [] { assert n[0] in n; }
    }
    CronRules(s.name, s.cron, ext.cronParses);
    assert c == [] <==> Truthy(s.cron) && ext.cronParses(s.cron) by {
      if c != [] { assert c[0] in c; }
    }
    ActionPartClean(s, g, prefix, ext);
    EmailPartClean(s);
  }

  // ---- the whole list ----

  /** Concatenation of a list of lists, in order. */
  function Flatten<T>(xss: seq<seq<T>>): seq<T> {
    if xss == [] then [] else Flatten(xss[..|xss| - 1]) + xss[|xss| - 1]
  }

  /** The problems of each schedule, in file order, each judged against the schedules before it. */
  function PerSchedule(ss: seq<Schedule>, g: Graph, prefix: Option<string>, ext: Externals): seq<seq<ValidationError>> {
    seq(|ss|, i requires 0 <= i < |ss| => ScheduleErrors(ss[i], IsDuplicateAt(ss, i), g, prefix, ext))
  }

  lemma IsDuplicateAtPrefix(ss: seq<Schedule>, m: int, i: int)
    requires 0 <= i < m <= |ss|
    ensures IsDuplicateAt(ss[..m], i) <==> IsDuplicateAt(ss, i)
  {
    var p := ss[..m];
    if IsDuplicateAt(ss, i) {
      var j :| 0 <= j < i && ss[j].name == ss[i].name;
      assert p[j] == ss[j];
    }
  }

  /** Each schedule's problems depend only on the schedules up to it. */
  lemma PerScheduleSnoc(ss: seq<Schedule>, g: Graph, prefix: Option<string>, ext: Externals)
    requires ss != []
    ensures PerSchedule(ss, g, prefix, ext)[..|ss| - 1] == PerSchedule(ss[..|ss| - 1], g, prefix, ext)
    ensures PerSchedule(ss, g, prefix, ext)[|ss| - 1] == ScheduleErrors(ss[|ss| - 1], IsDuplicateAt(ss, |ss| - 1), g, prefix, ext)
  {
    var m := |ss| - 1;
    var init := ss[..m];
    var p := PerSchedule(ss, g, prefix, ext);
    var q := PerSchedule(init, g, prefix, ext);
    forall i | 0 <= i < m ensures p[..m][i] == q[i] {
      IsDuplicateAtPrefix(ss, m, i);
      assert init[i] == ss[i];
    }
  }

  /** The output is the concatenation, in file order, of the problems of each schedule. */
  lemma {:induction false} AllErrorsInFileOrder(ss: seq<Schedule>, g: Graph, prefix: Option<string>, ext: Externals)
    ensures AllErrors(ss, g, prefix, ext) == Flatten(PerSchedule(ss, g, prefix, ext))
    decreases |ss|
  {
    if ss != [] {
      var m := |ss| - 1;
      var init := ss[..m];
      AllErrorsInFileOrder(init, g, prefix, ext);
      PerScheduleSnoc(ss, g, prefix, ext);
      var p := PerSchedule(ss, g, prefix, ext);
      assert Flatten(p) == Flatten(p[..m]) + p[m];
    }
  }

  /** Two schedules of the list carry name `n`. */
  predicate NameRepeated(ss: seq<Schedule>, n: Option<string>) {
    exists i, j :: 0 <= i < j < |ss| && ss[i].name == n && ss[j].name == n
  }

  lemma NameRepeatedSnoc(ss: seq<Schedule>, n: Option<string>)
    requires ss != []
    ensures NameRepeated(ss, n) <==>
      NameRepeated(ss[..|ss| - 1], n) || (IsDuplicateAt(ss, |ss| - 1) && ss[|ss| - 1].name == n)
  {
    var m := |ss| - 1;
    var init := ss[..m];
    if NameRepeated(init, n) {
      var i, j :| 0 <= i < j < |init| && init[i].name == n && init[j].name == n;
      assert ss[i] == init[i] && ss[j] == init[j];
    }
    if NameRepeated(ss, n) {
      var i, j :| 0 <= i < j < |ss| && ss[i].name == n && ss[j].name == n;
      if j < m {
        assert init[i] == ss[i] && init[j] == ss[j];
      } else {
        assert IsDuplicateAt(ss, m);
      }
    }
    if IsDuplicateAt(ss, m) && ss[m].name == n {
      var j :| 0 <= j < m && ss[j].name == ss[m].name;
      assert 0 <= j < m < |ss| && ss[j].name == n && ss[m].name == n;
    }
  }

  /** A name is reported as not unique exactly when two schedules carry it. */
  lemma {:induction false} DuplicateReportedIff(ss: seq<Schedule>, g: Graph, prefix: Option<string>, ext: Externals, n: Option<string>)
    ensures NameNotUnique(n) in AllErrors(ss, g, prefix, ext) <==> NameRepeated(ss, n)
    decreases |ss|
  {
    if ss != [] {
      var m := |ss| - 1;
      var init := ss[..m];
      var dup := IsDuplicateAt(ss, m);
      var prev := AllErrors(init, g, prefix, ext);
      var last := ScheduleErrors(ss[m], dup, g, prefix, ext);
      assert AllErrors(ss, g, prefix, ext) == prev + last;
      DuplicateReportedIff(init, g, prefix, ext, n);
      ScheduleDuplicates(ss[m], dup, g, prefix, ext);
      NameRepeatedSnoc(ss, n);
    }
  }

  /** The number of not-unique problems in a list. */
  function CountNotUnique(es: seq<ValidationError>): nat {
    if es == [] then 0
    else CountNotUnique(es[..|es| - 1]) + (if es[|es| - 1].NameNotUnique? then 1 else 0)
  }

  lemma {:induction false} CountNotUniqueAppend(a: seq<ValidationError>, b: seq<ValidationError>)
    ensures CountNotUnique(a + b) == CountNotUnique(a) + CountNotUnique(b)
    decreases |b|
  {
    if b == [] {
      assert a + b == a;
    } else {
      CountNotUniqueAppend(a, b[..|b| - 1]);
      assert (a + b)[..|a + b| - 1] == a + b[..|b| - 1];
    }
  }

  lemma NoNotUnique(es: seq<ValidationError>)
    requires forall e :: e in es ==> !e.NameNotUnique?
    ensures CountNotUnique(es) == 0
  {
    if es != [] {
      assert es[|es| - 1] in es;
      assert forall e :: e in es[..|es| - 1] ==> e in es;
      NoNotUnique(es[..|es| - 1]);
    }
  }

  /** A schedule gets exactly one not-unique problem when an earlier schedule has its name, and none otherwise. */
  lemma ScheduleDuplicates(s: Schedule, duplicate: bool, g: Graph, prefix: Option<string>, ext: Externals)
    ensures CountNotUnique(ScheduleErrors(s, duplicate, g, prefix, ext)) == if duplicate then 1 else 0
    ensures forall x :: NameNotUnique(x) in ScheduleErrors(s, duplicate, g, prefix, ext) <==> duplicate && x == s.name
  {
    var n := NameErrors(s.name);
    var d := DuplicateErrors(s.name, duplicate);
    var c := CronErrors(s.name, s.cron, ext.cronParses);
    var a := ActionPart(s, g, prefix, ext);
    var m := EmailPart(s);
    assert ScheduleErrors(s, duplicate, g, prefix, ext) == n + d + c + a + m;
    PartRanks(s, duplicate, g, prefix, ext);
    NoNotUnique(n);
    NoNotUnique(c);
    NoNotUnique(a);
    NoNotUnique(m);
    CountNotUniqueAppend(n, d);
    CountNotUniqueAppend(n + d, c);
    CountNotUniqueAppend(n + d + c, a);
    CountNotUniqueAppend(n + d + c + a, m);
    assert CountNotUnique(d) == if duplicate then 1 else 0 by {
      if duplicate { assert d[..0] == []; }
    }
    forall x ensures NameNotUnique(x) in n + d + c + a + m <==> duplicate && x == s.name {
      InConcat5(NameNotUnique(x), n, d, c, a, m);
    }
  }

  /** The last schedule adds a new name exactly when it is not a duplicate. */
  lemma NamesOfGrowth(ss: seq<Schedule>)
    requires ss != []
    ensures |NamesOf(ss)| == |NamesOf(ss[..|ss| - 1])| + (if IsDuplicateAt(ss, |ss| - 1) then 0 else 1)
  {
    var m := |ss| - 1;
    var before := NamesOf(ss[..m]);
    var x := ss[m].name;
    NamesOfSnoc(ss, m);
    assert ss[..m + 1] == ss;
    if IsDuplicateAt(ss, m) {
      assert before + {x} == before;
    } else {
      assert |before + {x}| == |before| + |{x}|;
    }
  }

  /** Every schedule after the first with a given name is reported once: the not-unique problems number the schedules less the distinct names. */
  lemma {:induction false} DuplicateCount(ss: seq<Schedule>, g: Graph, prefix: Option<string>, ext: Externals)
    ensures CountNotUnique(AllErrors(ss, g, prefix, ext)) == |ss| - |NamesOf(ss)|
    decreases |ss|
  {
    if ss == [] {
      assert NamesOf(ss) == {};
    } else {
      var m := |ss| - 1;
      var init := ss[..m];
      var dup := IsDuplicateAt(ss, m);
      var prev := AllErrors(init, g, prefix, ext);
      var last := ScheduleErrors(ss[m], dup, g, prefix, ext);
      assert AllErrors(ss, g, prefix, ext) == prev + last;
      DuplicateCount(init, g, prefix, ext);
      ScheduleDuplicates(ss[m], dup, g, prefix, ext);
      CountNotUniqueAppend(prev, last);
      NamesOfGrowth(ss);
    }
  }

  /** Every schedule of the list satisfies every rule, judged against the schedules before it. */
  predicate EveryScheduleClean(ss: seq<Schedule>, g: Graph, prefix: Option<string>, ext: Externals) {
    forall i :: 0 <= i < |ss| ==> ScheduleIsClean(ss[i], IsDuplicateAt(ss, i), g, prefix, ext)
  }

  lemma EveryScheduleCleanSnoc(ss: seq<Schedule>, g: Graph, prefix: Option<string>, ext: Externals)
    requires ss != []
    ensures EveryScheduleClean(ss, g, prefix, ext) <==>
      EveryScheduleClean(ss[..|ss| - 1], g, prefix, ext)
      && ScheduleIsClean(ss[|ss| - 1], IsDuplicateAt(ss, |ss| - 1), g, prefix, ext)
  {
    var m := |ss| - 1;
    var init := ss[..m];
    forall i | 0 <= i < m
      ensures ScheduleIsClean(init[i], IsDuplicateAt(init, i), g, prefix, ext)
          <==> ScheduleIsClean(ss[i], IsDuplicateAt(ss, i), g, prefix, ext)
    {
      IsDuplicateAtPrefix(ss, m, i);
      assert init[i] == ss[i];
    }
  }

  /** A schedule list is reported clean exactly when each schedule satisfies every rule. */
  lemma {:induction false} NoErrorsIff(ss: seq<Schedule>, g: Graph, prefix: Option<string>, ext: Externals)
    ensures AllErrors(ss, g, prefix, ext) == [] <==>
      forall i :: 0 <= i < |ss| ==> ScheduleIsClean(ss[i], IsDuplicateAt(ss, i), g, prefix, ext)
    decreases |ss|
  {
    if ss != [] {
      var m := |ss| - 1;
      var init := ss[..m];
      var dup := IsDuplicateAt(ss, m);
      var prev := AllErrors(init, g, prefix, ext);
      var last := ScheduleErrors(ss[m], dup, g, prefix, ext);
      assert AllErrors(ss, g, prefix, ext) == prev + last;
      assert prev + last == [] <==> prev == [] && last == [] by {
        assert |prev + last| == |prev| + |last|;
      }
      NoErrorsIff(init, g, prefix, ext);
      ScheduleCleanIff(ss[m], dup, g, prefix, ext);
      EveryScheduleCleanSnoc(ss, g, prefix, ext);
      assert EveryScheduleClean(init, g, prefix, ext) <==> prev == [];
    }
  }

  /** Schedules with distinct, non-blank names, accepted cron fields and no actions or emails produce no problem; so does an empty list. */
  lemma DistinctMinimalSchedulesPass(ss: seq<Schedule>, g: Graph, prefix: Option<string>, ext: Externals)
    requires forall i, j :: 0 <= i < j < |ss| ==> ss[i].name != ss[j].name
    requires forall i :: 0 <= i < |ss| ==>
      Truthy(ss[i].name) && !AllWhitespace(ss[i].name.value) && Truthy(ss[i].cron) && ext.cronParses(ss[i].cron)
      && ss[i].actions == None && ss[i].emails == None
    ensures AllErrors(ss, g, prefix, ext) == []
  {
    NoErrorsIff(ss, g, prefix, ext);
  }

  // ---- examples ----

  /** Two otherwise valid schedules both named "daily": one not-unique problem, for the second. */
  lemma DuplicateDailyExample(g: Graph, prefix: Option<string>, ext: Externals)
    requires ext.cronParses(Some("0 4 * * *"))
    ensures var s := Schedule(Some("daily"), Some("0 4 * * *"), None, None);
      AllErrors([s, s], g, prefix, ext) == [NameNotUnique(Some("daily"))]
  {
    var s := Schedule(Some("daily"), Some("0 4 * * *"), None, None);
    var ss := [s, s];
    assert ss[0].name == ss[1].name;
    assert IsDuplicateAt(ss, 1);
    assert ss[..1] == [s] && [s][..0] == [];
    assert !AllWhitespace("daily") by { assert !IsWhitespace("daily"[0]); }
    TrimEmptyIffAllWhitespace("daily");
    assert NameErrors(s.name) == [];
    assert CronErrors(s.name, s.cron, ext.cronParses) == [];
    assert ScheduleErrors(s, false, g, prefix, ext) == [];
    assert ScheduleErrors(s, true, g, prefix, ext) == [NameNotUnique(Some("daily"))];
    assert AllErrors([s], g, prefix, ext) == [];
  }

  /** Two schedules with the empty name: "required" for each (not "must not be empty"), and a not-unique problem for the second. */
  lemma RepeatedEmptyNameExample(g: Graph, prefix: Option<string>, ext: Externals)
    requires ext.cronParses(Some("0 4 * * *"))
    ensures var s := Schedule(Some(""), Some("0 4 * * *"), None, None);
      AllErrors([s, s], g, prefix, ext) == [NameRequired, NameRequired, NameNotUnique(Some(""))]
  {
    var s := Schedule(Some(""), Some("0 4 * * *"), None, None);
    var ss := [s, s];
    assert ss[0].name == ss[1].name;
    assert IsDuplicateAt(ss, 1);
    assert ss[..1] == [s] && [s][..0] == [];
    assert NameErrors(s.name) == [NameRequired];
    assert CronErrors(s.name, s.cron, ext.cronParses) == [];
    assert ScheduleErrors(s, false, g, prefix, ext) == [NameRequired];
    assert ScheduleErrors(s, true, g, prefix, ext) == [NameRequired, NameNotUnique(Some(""))];
    assert AllErrors([s], g, prefix, ext) == [NameRequired];
  }
}
