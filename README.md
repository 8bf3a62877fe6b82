# Schedule validation, modelled in Dafny

This project models the validator that checks a Dataform project's
`schedules.json` before the schedules are deployed. The validator takes the
decoded schedule list, the compiled graph and an optional table prefix. It
returns a list of human-readable problems, and an empty list means the file is
valid. Each schedule is checked against these rules, in order:

- it must have a name;
- the name must not be blank;
- the name must not repeat an earlier schedule's name;
- it must have a cron expression;
- the cron expression must parse;
- every listed action must name a table, assertion or operation of the graph,
  under the table prefix when there is one;
- every notification email must match the address pattern.

The entry point in front of the validator refuses a missing graph. It turns a
file that cannot be decoded into one generic message.

Files:

- `wrappers.dfy`: `Option`.
- `text.dfy`: ECMAScript whitespace and `String.prototype.trim`.
- `email.dfy`: the email pattern as predicates shaped like the regular expression, plus a position-by-position restatement proved equal to it.
- `schedules.dfy`: the data model, the messages and the reference set.
  - `AllErrors` is the specification: the problems as a function of the schedule list.
  - `ValidateSchedules` is the validator as it runs: a loop over the schedules that keeps the set of names seen so far and appends to an accumulator. It is proved to return the messages of `AllErrors`.
- `properties.dfy`: what the validator promises, proved about `AllErrors`.
- `loader.dfy`: the entry point.

Modelling choices:

- An absent string field is `None`. A name or cron expression is "truthy" when it is present and non-empty, and `None` is rendered as `undefined` inside a message.
- The set of seen names holds `Option<string>`, so an absent name and the empty name are different entries, as they are in a JavaScript `Set`.
- The cron parser and `targetAsReadableString` are fields of `Externals`: a predicate and a function about which nothing is assumed.
- The accumulator holds `ValidationError` values. Each is rendered to its message by `Message`; the text is fixed and includes quotes and punctuation.

Three behaviours of the code worth knowing:

- An empty name gets only "Schedule name is required.": the blank check at `api/commands/validate.ts:52` runs only on a truthy name, so the two name messages never appear together (`NameRules`, `RepeatedEmptyNameExample`).
- Whether an absent or empty cron field also fails parsing is up to the external parser; the model assumes nothing about it, and each cron rule depends only on its own condition (`CronRules`).
- The email pattern has no `u` flag, so it counts UTF-16 code units: a final label made of one character outside the Basic Multilingual Plane is long enough (`AstralFinalLabelExample`).

## Model

| member | source | states |
|---|---|---|
| Schedules.ValidateSchedules | api/commands/validate.ts:40-106 | The loop returns the messages of `AllErrors`, in order. Its invariants are that the name set equals the set of names of the schedules processed so far, and that the accumulator equals `AllErrors` of that prefix. |
| Schedules.CheckSchedule | api/commands/validate.ts:48-103 | One iteration adds the schedule's name to the seen set, whatever the checks found. It appends exactly the schedule's problems, in rule order, judged against the names seen before it. |
| Schedules.CheckName | api/commands/validate.ts:49-60 | After the name rules and the uniqueness test, the name always enters the seen set. The not-unique problem is appended exactly when the name was already there. |
| Schedules.CheckCron | api/commands/validate.ts:62-72 | Appends the cron problems: "required" when the field is not truthy, "invalid" when the parser refuses it. |
| Schedules.CheckActions | api/commands/validate.ts:86-93 | Appends one missing-action problem per listed action, in list order, whose prefixed name is not in the reference list. |
| Schedules.CheckEmails | api/commands/validate.ts:96-102 | Appends one invalid-email problem per listed address, in list order, that the pattern refuses. |
| Schedules.AllErrors | api/commands/validate.ts:40-106 | The specification of the validator: the problems of each schedule, in file order, each schedule judged against the names of the schedules before it. Every property in `ScheduleProperties` is proved about it. |
| Schedules.Message | api/commands/validate.ts:50-99 | The text of each problem, as the source's string literals and templates give it, with an absent field rendered as `undefined`. |
| Schedules.PrefixedNameParts | api/commands/validate.ts:87 | With a truthy prefix the looked-up name is the prefix, an underscore, then the action; otherwise it is the action unchanged. |
| Schedules.References | api/commands/validate.ts:75-84 | A string is in the reference list exactly when it is one of these: the readable string of a table, an assertion or any operation (one without a target included); or the bare name of a table, an assertion or an operation that has a target. |
| Schedules.Render | api/commands/validate.ts:50-99 | One message per problem, in the same order, each the fixed text of its kind. |
| ScheduleProperties.NameRules | api/commands/validate.ts:49-54 | "Required" appears exactly when the name is absent or empty. "Must not be empty" appears exactly when the name is non-empty and all whitespace. The two never appear together. |
| ScheduleProperties.CronRules | api/commands/validate.ts:62-72 | The two cron rules each depend only on their own condition. |
| ScheduleProperties.ActionErrorsMembership | api/commands/validate.ts:86-93 | A missing-action problem is reported exactly for a listed action whose prefixed name is not a reference. The name reported is the prefixed one. |
| ScheduleProperties.ActionErrorsAppend | api/commands/validate.ts:86-93 | The action problems of concatenated lists are the concatenation of each list's problems, so they follow list order. |
| ScheduleProperties.EmailErrorsMembership | api/commands/validate.ts:96-102 | An invalid-email problem is reported exactly for a listed address the pattern refuses. |
| ScheduleProperties.EmailErrorsAppend | api/commands/validate.ts:96-102 | Email problems follow list order. |
| ScheduleProperties.BareTableNameAccepted | api/commands/validate.ts:79 | An action whose prefixed form equals a table's bare name is accepted, whatever that table's readable string is. The prefix goes on the action, never on graph names. |
| ScheduleProperties.MissingActionReported | api/commands/validate.ts:87-91 | An action whose prefixed form is not a reference gives exactly one problem, naming the prefixed form. |
| ScheduleProperties.ScheduleErrorsInRuleOrder | api/commands/validate.ts:48-103 | Within a schedule the problems come in this rule order: name required, name blank, not unique, cron required, cron invalid, actions, emails. |
| ScheduleProperties.ScheduleCleanIff | api/commands/validate.ts:48-103 | A schedule contributes no problem exactly when all of these hold: the name is truthy, not blank and new; the cron field is truthy and parses; every action, under the prefix, is a reference; every email matches. |
| ScheduleProperties.AllErrorsInFileOrder | api/commands/validate.ts:48 | The output is each schedule's problems concatenated in file order. Each schedule is judged only against the schedules before it. |
| ScheduleProperties.ScheduleDuplicates | api/commands/validate.ts:55-59 | A schedule has exactly one not-unique problem, for its own name, when an earlier schedule has that name, and none otherwise. |
| ScheduleProperties.DuplicateReportedIff | api/commands/validate.ts:55-60 | A name is reported as not unique exactly when two schedules of the list carry it. This holds for an empty or absent name too, because every name enters the seen set. |
| ScheduleProperties.DuplicateCount | api/commands/validate.ts:55-60 | The number of not-unique problems is the number of schedules minus the number of distinct names. |
| ScheduleProperties.NoErrorsIff | api/commands/validate.ts:40-106 | The list is reported valid exactly when every schedule passes every rule. The empty list is valid. |
| ScheduleProperties.DistinctMinimalSchedulesPass | api/commands/validate.ts:40-106 | Schedules with distinct non-blank names, accepted cron expressions and no actions or emails give no problem. |
| ScheduleProperties.DuplicateDailyExample | api/commands/validate.ts:55-59 | Two otherwise valid schedules named "daily" give one not-unique problem, for the second. |
| ScheduleProperties.RepeatedEmptyNameExample | api/commands/validate.ts:49-59 | Two schedules named "" give "required" twice and one not-unique problem for the second. They never give "must not be empty". |
| Text.TrimEmptyIffAllWhitespace | api/commands/validate.ts:52 | `trim()` yields the empty string exactly when every character is ECMAScript whitespace. |
| Text.TrimIsInfix | api/commands/validate.ts:52 | The trimmed string is a contiguous part of the original, with only whitespace removed at each end, and it does not begin or end with whitespace. |
| Text.TrimStartSpec | api/commands/validate.ts:52 | Trimming the start removes the longest whitespace prefix. |
| Text.TrimEndSpec | api/commands/validate.ts:52 | Trimming the end removes the longest whitespace suffix. |
| Email.ValidEmail | api/commands/validate.ts:10-14 | `validateEmail`: some `@` splits the whole address into a local part (dot-separated atoms, or a quoted string) and a domain (labels, a dot, and a final label of at least two UTF-16 code units). |
| Email.Utf16LengthAtLeastTwo | api/commands/validate.ts:10 | A string is at least two UTF-16 code units long exactly when it has two characters or one character outside the Basic Multilingual Plane; no string is shorter in code units than in characters. |
| Email.DotAtomIff | api/commands/validate.ts:10 | The unquoted local part matches exactly when it is non-empty runs of allowed characters separated by single dots. |
| Email.DomainPartIff | api/commands/validate.ts:10 | The domain matches exactly when it is dot-separated runs of allowed characters, with at least one dot and a final run of at least two UTF-16 code units: two characters, or one astral character. |
| Email.ValidEmailSplitsAtLastAt | api/commands/validate.ts:10-13 | In an accepted address the local part ends at the last `@`: the domain holds none. |
| Email.ValidEmailExample | api/commands/validate.ts:10-13 | `a@b.com` is accepted. |
| Email.InvalidEmailExample | api/commands/validate.ts:10-13 | `not-an-email` is refused. |
| Email.ShortTopLevelExample | api/commands/validate.ts:10-13 | `a@b.c` is refused, because the final label is too short. |
| Email.AstralFinalLabelExample | api/commands/validate.ts:10-13 | `a@b.😀` is accepted: the emoji is two code units, which meets `{2,}`. |
| Email.QuotedLocalExample | api/commands/validate.ts:10-13 | A quoted local part may hold a space: `"a b"@b.com` is accepted. |
| Loader.ValidateSchedulesFileIfExists | api/commands/validate.ts:16-38 | A missing graph gives exactly the one "not provided" message, before the file is looked at. A file that does not decode gives exactly the one generic message. Otherwise the result is the validator's result under the given prefix. Each structural message appears alone, exactly in its own case. |
| Loader.ProblemMessagesAreNotStructural | api/commands/validate.ts:21-37 | No problem message equals either structural message. |
| Loader.ValidatorNeverStructural | api/commands/validate.ts:21-37 | No validator result on its own is either one-message structural result. |

## Left out

- Reading `schedules.json` from the project directory and resolving its path. The loader takes the outcome of decoding as its parameter. A read failure propagates out of the source function rather than being caught, and it is not modelled.
- `JSON.parse` and the SchedulesJSON decoder. Their combined outcome is `ParseOutcome`: a schedule list, or a failure.
- Exceptions thrown inside the validator and caught by the loader, such as a table or assertion with no target, or a missing schedule list. The graph type gives every table and assertion a target, and the loader's collapse covers only `Malformed`.
- The cron parser: `Externals.cronParses` is an arbitrary predicate on the cron field.
- `targetAsReadableString`: `Externals.readable` is an arbitrary function. It is also applied to an operation's missing target, as in the source.
- The exact regular-expression engine. The pattern is modelled by the language it accepts, not by backtracking. `\s` and `trim` use the ECMAScript whitespace set, written out character by character. No Unicode normalisation is modelled. Strings are sequences of Unicode scalar values, so a JavaScript string holding a lone surrogate has no counterpart in the model.
- The `i` flag of the pattern: no character class of the pattern mentions a letter, so the flag does not change the language.
- A name or cron value that is `null` rather than absent would render as `null` in a message. Only absence (`undefined`) is modelled.
- Schedules.ValidateSchedules: it appends `ValidationError` values and renders them to strings once at the end, instead of pushing strings one by one. The result is the same list of strings.
- Loader.ValidateSchedulesFileIfExists: it is a method only because it calls the `ValidateSchedules` method. It has no state.
