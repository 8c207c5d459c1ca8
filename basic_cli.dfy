/**
 * The console version (creature_types_generator_basic.py): a catalog loaded
 * without dropping blank lines, and a prompt loop that on "yes" prints a
 * random type and appends it to generated_creatures.txt, on "no" deletes that
 * file and stops, and otherwise complains and asks again.
 */
module BasicCli {
  import opened Text
  import opened LineFile

  /** What the loop prints for an answer that is neither "yes" nor "no". */
  const InvalidInputMessage: string := "Invalid input. Please enter 'yes' or 'no'."

  /** The catalog loop: every line of creature_types.txt stripped, blank lines
      kept as empty entries, in file order. */
  method LoadCatalog(text: string) returns (creatureTypes: seq<string>)
    ensures creatureTypes == StripAll(Lines(text))
  {
    var lines := Lines(text);
    creatureTypes := [];
    for i := 0 to |lines|
      invariant |creatureTypes| == i
      invariant forall j :: 0 <= j < i ==> creatureTypes[j] == Strip(lines[j])
    {
      creatureTypes := creatureTypes + [Strip(lines[i])];
    }
  }

  /** The loaded catalog has one entry per line; a line that is all
      whitespace gives the empty entry and any other line a non-empty one. */
  lemma CatalogKeepsBlankLines(text: string, i: nat)
    requires i < |Lines(text)|
    ensures |StripAll(Lines(text))| == |Lines(text)|
    ensures StripAll(Lines(text))[i] == "" <==> AllSpace(Lines(text)[i])
  {
    StripSpec(Lines(text)[i]);
  }

  /** No catalog entry holds a '\n', so each "yes" logs exactly one line. */
  lemma CatalogEntriesNewlineFree(text: string)
    ensures forall e :: e in StripAll(Lines(text)) ==> '\n' !in e
  {
    var lines := Lines(text);
    LinesSpec(text);
    forall e | e in StripAll(lines) ensures '\n' !in e {
      var i :| 0 <= i < |lines| && StripAll(lines)[i] == e;
      StripLineHasNoNewline(lines[i]);
    }
  }

  /** How the loop reads an answer. */
  datatype Command = Yes | No | Invalid

  /** The answer `input(...).strip().lower()` compared with "yes" and "no". */
  function Classify(input: string): Command
  {
    var answer := Lower(Strip(input));
    if answer == "yes" then Yes else if answer == "no" then No else Invalid
  }

  /** The answers in `inputs`, each classified. */
  function Commands(inputs: seq<string>): (commands: seq<Command>)
    ensures |commands| == |inputs|
    ensures forall i :: 0 <= i < |inputs| ==> commands[i] == Classify(inputs[i])
  {
    seq(|inputs|, i requires 0 <= i < |inputs| => Classify(inputs[i]))
  }

  /** Normalising an answer that is already normalised changes nothing, so an
      answer is classified by its stripped, lowered form alone. */
  lemma ClassifyNormalised(input: string)
    ensures Classify(Lower(Strip(input))) == Classify(input)
  {
    var answer := Lower(Strip(input));
    LowerKeepsEdges(Strip(input));
    StripFixed(answer);
    LowerIdempotent(Strip(input));
  }

  /** Whitespace around an answer does not change how it is read. */
  lemma ClassifyPadded(pre: string, answer: string, post: string)
    requires AllSpace(pre) && AllSpace(post) && NoEdgeSpace(answer)
    ensures Classify(pre + answer + post) == Classify(answer)
  {
    StripPadded(pre, answer, post);
    StripFixed(answer);
  }

  /** Any whitespace around "YES" or "No" still reads as "yes" or "no". */
  lemma PaddedAnswers(pre: string, post: string)
    requires AllSpace(pre) && AllSpace(post)
    ensures Classify(pre + "YES" + post) == Yes
    ensures Classify(pre + "No" + post) == No
  {
    StripFixed("YES");
    StripFixed("No");
    ClassifyPadded(pre, "YES", post);
    ClassifyPadded(pre, "No", post);
  }

  /** The loop's variables: the `continue_generating` flag and
      generated_creatures.txt. */
  datatype CliState = CliState(continueGenerating: bool, log: File)

  /** The state after some answers, what was printed for them, and whether
      `random.choice` raised on an empty catalog (which ends the program). */
  datatype Outcome = Outcome(state: CliState, printed: seq<string>, crashed: bool)

  /** Every drawn index names a catalog entry (vacuous for an empty catalog,
      where `random.choice` draws nothing). */
  predicate PicksFit(creatureTypes: seq<string>, picks: seq<nat>)
  {
    creatureTypes != [] ==> forall i :: 0 <= i < |picks| ==> picks[i] < |creatureTypes|
  }

  /** One pass of the loop body for an answer read as `command`, with `pick`
      standing for the index `random.choice` draws. */
  function Step(creatureTypes: seq<string>, s: CliState, command: Command, pick: nat): (o: Outcome)
    requires creatureTypes != [] ==> pick < |creatureTypes|
    ensures o.crashed <==> command == Yes && creatureTypes == []
    ensures !o.crashed ==> o.state.continueGenerating == (s.continueGenerating && command != No)
    ensures command == No ==> o.state.log == Missing && o.printed == []
    ensures command == Invalid ==> o.state == s && o.printed == [InvalidInputMessage]
    ensures command == Yes && creatureTypes != [] ==>
      && o.printed == [creatureTypes[pick]]
      && TextOf(o.state.log) == TextOf(s.log) + creatureTypes[pick] + "\n"
  {
    match command
    case Yes =>
      if creatureTypes == [] then Outcome(s, [], true)
      else
        var chosen := creatureTypes[pick];
        Outcome(CliState(s.continueGenerating, Present(TextOf(s.log) + chosen + "\n")), [chosen], false)
    case No =>
      Outcome(CliState(false, Missing), [], false)
    case Invalid =>
      Outcome(s, [InvalidInputMessage], false)
  }

  /** The outcome of answering the prompt with `commands` in turn from
      `start`: answers after the loop has stopped, or after a crash, are never
      read. */
  function Replay(creatureTypes: seq<string>, start: CliState, commands: seq<Command>, picks: seq<nat>): Outcome
    requires |picks| == |commands| && PicksFit(creatureTypes, picks)
    decreases |commands|
  {
    if commands == [] then Outcome(start, [], false)
    else
      var n := |commands| - 1;
      var before := Replay(creatureTypes, start, commands[..n], picks[..n]);
      if before.crashed || !before.state.continueGenerating then before
      else
        var o := Step(creatureTypes, before.state, commands[n], picks[n]);
        Outcome(o.state, before.printed + o.printed, o.crashed)
  }

  /** Once the loop has stopped or crashed, further answers change nothing.
      (For `k` the number of answers the statement is trivial.) */
  lemma {:induction false} ReplayHalts(creatureTypes: seq<string>, start: CliState, commands: seq<Command>, picks: seq<nat>, k: nat)
    requires |picks| == |commands| && PicksFit(creatureTypes, picks)
    requires k <= |commands|
    requires k < |commands| ==>
      Replay(creatureTypes, start, commands[..k], picks[..k]).crashed ||
      !Replay(creatureTypes, start, commands[..k], picks[..k]).state.continueGenerating
    ensures Replay(creatureTypes, start, commands, picks) == Replay(creatureTypes, start, commands[..k], picks[..k])
    decreases |commands| - k
  {
    if k < |commands| {
      var n := |commands| - 1;
      assert commands[..n][..k] == commands[..k] && picks[..n][..k] == picks[..k];
      ReplayHalts(creatureTypes, start, commands[..n], picks[..n], k);
    } else {
      assert commands[..k] == commands && picks[..k] == picks;
    }
  }

  /** Reading one more answer while the loop runs is one more Step. */
  lemma ReplayNext(creatureTypes: seq<string>, start: CliState, commands: seq<Command>, picks: seq<nat>, i: nat)
    requires |picks| == |commands| && PicksFit(creatureTypes, picks)
    requires i < |commands|
    requires !Replay(creatureTypes, start, commands[..i], picks[..i]).crashed
    requires Replay(creatureTypes, start, commands[..i], picks[..i]).state.continueGenerating
    ensures
      var before := Replay(creatureTypes, start, commands[..i], picks[..i]);
      var o := Step(creatureTypes, before.state, commands[i], picks[i]);
      Replay(creatureTypes, start, commands[..i + 1], picks[..i + 1]) == Outcome(o.state, before.printed + o.printed, o.crashed)
  {
    assert commands[..i + 1][..i] == commands[..i] && picks[..i + 1][..i] == picks[..i];
  }

  /** The prompt loop over the answers `inputs` (the console), starting from
      the flag and log file in `start`. It returns the outcome and how many
      answers it read: all of them, unless it stopped or crashed first. */
  method Run(creatureTypes: seq<string>, start: CliState, inputs: seq<string>, picks: seq<nat>)
    returns (o: Outcome, consumed: nat)
    requires |picks| == |inputs| && PicksFit(creatureTypes, picks)
    ensures consumed <= |inputs|
    ensures o == Replay(creatureTypes, start, Commands(inputs), picks)
    ensures o == Replay(creatureTypes, start, Commands(inputs)[..consumed], picks[..consumed])
    ensures consumed < |inputs| ==> o.crashed || !o.state.continueGenerating
  {
    ghost var commands := Commands(inputs);
    var continueGenerating := start.continueGenerating;
    var log := start.log;
    var printed: seq<string> := [];
    var i := 0;
    assert commands[..0] == [] && picks[..0] == [];
    while continueGenerating && i < |inputs|
      invariant 0 <= i <= |inputs|
      invariant Replay(creatureTypes, start, commands[..i], picks[..i]) == Outcome(CliState(continueGenerating, log), printed, false)
    {
      ReplayNext(creatureTypes, start, commands, picks, i);
      var command := Classify(inputs[i]);
      if command == Yes {
        if creatureTypes == [] {
          o, consumed := Outcome(CliState(continueGenerating, log), printed, true), i + 1;
          ReplayHalts(creatureTypes, start, commands, picks, consumed);
          return;
        }
        var chosen := creatureTypes[picks[i]];
        printed := printed + [chosen];
        log := Present(TextOf(log) + chosen + "\n");
      } else if command == No {
        if log.Present? {
          log := Missing;
        }
        continueGenerating := false;
      } else {
        printed := printed + [InvalidInputMessage];
      }
      i := i + 1;
    }
    o, consumed := Outcome(CliState(continueGenerating, log), printed, false), i;
    ReplayHalts(creatureTypes, start, commands, picks, consumed);
  }

  /** The loop stops exactly when some answer is "no": with a non-empty
      catalog it never crashes, it has stopped iff one of the answers read as
      "no", and a stopped loop has deleted the log file. */
  lemma {:induction false} StopsOnlyOnNo(creatureTypes: seq<string>, start: CliState, commands: seq<Command>, picks: seq<nat>)
    requires |picks| == |commands| && PicksFit(creatureTypes, picks)
    requires creatureTypes != [] && start.continueGenerating
    ensures !Replay(creatureTypes, start, commands, picks).crashed
    ensures !Replay(creatureTypes, start, commands, picks).state.continueGenerating <==> No in commands
    ensures !Replay(creatureTypes, start, commands, picks).state.continueGenerating ==>
      Replay(creatureTypes, start, commands, picks).state.log == Missing
  {
    if commands != [] {
      var n := |commands| - 1;
      StopsOnlyOnNo(creatureTypes, start, commands[..n], picks[..n]);
      assert commands == commands[..n] + [commands[n]];
    }
  }

  /** With an empty catalog the loop crashes exactly when it reads "yes"
      before any "no". */
  lemma {:induction false} CrashesOnYesWithEmptyCatalog(start: CliState, commands: seq<Command>, picks: seq<nat>)
    requires |picks| == |commands| && start.continueGenerating
    requires No !in commands
    ensures Replay([], start, commands, picks).state.continueGenerating
    ensures Replay([], start, commands, picks).crashed <==> Yes in commands
  {
    if commands != [] {
      var n := |commands| - 1;
      assert commands == commands[..n] + [commands[n]];
      CrashesOnYesWithEmptyCatalog(start, commands[..n], picks[..n]);
    }
  }

  /** The types drawn for the "yes" answers among `commands`, in order. */
  function Chosen(creatureTypes: seq<string>, commands: seq<Command>, picks: seq<nat>): seq<string>
    requires |picks| == |commands| && PicksFit(creatureTypes, picks) && creatureTypes != []
  {
    if commands == [] then []
    else
      var n := |commands| - 1;
      var earlier := Chosen(creatureTypes, commands[..n], picks[..n]);
      if commands[n] == Yes then earlier + [creatureTypes[picks[n]]] else earlier
  }

  /** The log is append-only while the loop runs: without a "no", the log
      file ends up as its old text followed by one line per "yes", holding
      the drawn type, in the order drawn. */
  lemma {:induction false} LogAppendsChosen(creatureTypes: seq<string>, start: CliState, commands: seq<Command>, picks: seq<nat>)
    requires |picks| == |commands| && PicksFit(creatureTypes, picks)
    requires creatureTypes != [] && start.continueGenerating
    requires No !in commands
    ensures !Replay(creatureTypes, start, commands, picks).crashed
    ensures Replay(creatureTypes, start, commands, picks).state.continueGenerating
    ensures TextOf(Replay(creatureTypes, start, commands, picks).state.log) ==
      TextOf(start.log) + Serialized(Chosen(creatureTypes, commands, picks))
  {
    if commands != [] {
      var n := |commands| - 1;
      assert commands == commands[..n] + [commands[n]];
      LogAppendsChosen(creatureTypes, start, commands[..n], picks[..n]);
      if commands[n] == Yes {
        var earlier, chosen := Chosen(creatureTypes, commands[..n], picks[..n]), creatureTypes[picks[n]];
        SerializedSnoc(earlier, chosen);
        assert TextOf(start.log) + Serialized(earlier) + chosen + "\n" ==
          TextOf(start.log) + (Serialized(earlier) + chosen + "\n");
      }
    }
  }

  /** Each "yes" adds exactly one line to the log, the drawn type and its
      '\n', after the lines already there. */
  lemma LogGainsOneLine(creatureTypes: seq<string>, s: CliState, pick: nat)
    requires creatureTypes != [] && pick < |creatureTypes|
    requires '\n' !in creatureTypes[pick]
    requires Terminated(TextOf(s.log))
    ensures Lines(TextOf(Step(creatureTypes, s, Yes, pick).state.log)) ==
      Lines(TextOf(s.log)) + [creatureTypes[pick] + "\n"]
    ensures Terminated(TextOf(Step(creatureTypes, s, Yes, pick).state.log))
  {
    var chosen := creatureTypes[pick];
    var line := chosen + "\n";
    assert [chosen][1..] == [];
    assert Serialized([chosen]) == line;
    LinesOfSerialized([chosen]);
    LinesAppend(TextOf(s.log), line);
    assert TextOf(s.log) + chosen + "\n" == TextOf(s.log) + line;
  }
}
