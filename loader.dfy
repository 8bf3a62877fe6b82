/**
 * The entry point that validates the project's `schedules.json`: it refuses a
 * missing compiled graph, collapses any failure to read the file as a schedule
 * list into one generic message, and otherwise reports what the validator finds.
 *
 * Reading the file and decoding it (JSON, then the SchedulesJSON message type)
 * are not modelled; their outcome is the parameter `content`.
 */
module Loader {
  import opened Wrappers
  import opened Schedules

  /** What decoding the file's text yields: a schedule list, or a failure of either decoding step. */
  datatype ParseOutcome = Parsed(schedules: seq<Schedule>) | Malformed

  const SchedulesJsonPath: string := "schedules.json"
  const GraphMissingMessage: string := "Compiled graph not provided."
  const MalformedFileMessage: string :=
    SchedulesJsonPath + " does not contain valid JSON conforming to the SchedulesJSON schema."

  /** Every problem message begins "Sc", "Cr" or "Ac". */
  lemma MessageStart(e: ValidationError)
    ensures |Message(e)| >= 2
    ensures Message(e)[0] == 'S' || Message(e)[0] == 'A' || (Message(e)[0] == 'C' && Message(e)[1] == 'r')
  {
    var m := Message(e);
    match e
    case NameRequired =>
    case NameBlank =>
    case NameNotUnique(n) => assert m[0] == 'S';
    case CronRequired(n) => assert m[0] == 'C' && m[1] == 'r';
    case CronInvalid(n, c) => assert m[0] == 'S';
    case ActionMissing(a, n) => assert m[0] == 'A';
    case EmailInvalid(n, a) => assert m[0] == 'S';
  }

  /** No message of a schedule problem is one of the two structural messages, which begin "Co" and "sc". */
  lemma ProblemMessagesAreNotStructural(e: ValidationError)
    ensures Message(e) != GraphMissingMessage
    ensures Message(e) != MalformedFileMessage
  {
    MessageStart(e);
    assert GraphMissingMessage[0] == 'C' && GraphMissingMessage[1] == 'o';
    assert MalformedFileMessage[0] == 's';
  }

  /** A one-message result of the validator is never one of the structural messages. */
  lemma ValidatorNeverStructural(ss: seq<Schedule>, g: Graph, prefix: Option<string>, ext: Externals)
    ensures Render(AllErrors(ss, g, prefix, ext)) != [GraphMissingMessage]
    ensures Render(AllErrors(ss, g, prefix, ext)) != [MalformedFileMessage]
  {
    var es := AllErrors(ss, g, prefix, ext);
    if |es| == 1 {
      ProblemMessagesAreNotStructural(es[0]);
    }
  }

  /**
   * `validateSchedulesFileIfExists`: the graph guard comes first, then a
   * malformed file gives the single generic message, and a decoded list is
   * handed to the validator with the table prefix. The two structural messages
   * are told apart from every validator result.
   */
  method ValidateSchedulesFileIfExists(graph: Option<Graph>, content: ParseOutcome, prefix: Option<string>, ext: Externals)
    returns (errors: seq<string>)
    ensures graph.None? ==> errors == [GraphMissingMessage]
    ensures graph.Some? && content.Malformed? ==> errors == [MalformedFileMessage]
    ensures graph.Some? && content.Parsed? ==> errors == Render(AllErrors(content.schedules, graph.value, prefix, ext))
    ensures errors == [GraphMissingMessage] <==> graph.None?
    ensures errors == [MalformedFileMessage] <==> graph.Some? && content.Malformed?
  {
    assert GraphMissingMessage != MalformedFileMessage by {
      assert GraphMissingMessage[0] != MalformedFileMessage[0];
    }
    if graph.None? {
      return [GraphMissingMessage];
    }
    match content
    case Malformed =>
      errors := [MalformedFileMessage];
    case Parsed(ss) =>
      errors := ValidateSchedules(ss, graph.value, prefix, ext);
      ValidatorNeverStructural(ss, graph.value, prefix, ext);
  }
}
