/** The terminal's key handling: Enter runs the typed command and records it
    in the history, ArrowUp and ArrowDown walk the history. What the page
    shows for a command is returned as an `Action`. */
module Terminal {
  import opened Strings
  import opened Commands
  import Csv

  /** What the page does after Enter. `Print` types its text out; `Unknown`
      types `UnknownReply`. */
  datatype Action = Ignore | Clear | Reload | Print(text: string) | Unknown

  const UnknownReply := "Unknown command. Type 'help' for options.\n"

  /** Choosing the action for a lower-cased command: `clear` and `reload` are
      handled before the table is consulted, so table entries with those
      keys are never printed. A table response is printed trimmed, followed
      by a blank line. */
  function Dispatch(entries: map<string, string>, cmd: string): (a: Action)
    ensures a != Ignore
    ensures a == Clear <==> cmd == "clear"
    ensures a == Reload <==> cmd == "reload"
    ensures a.Print? <==> cmd != "clear" && cmd != "reload" && cmd in entries
    ensures a.Print? ==> a.text == Trim(entries[cmd]) + "\n\n"
  {
    if cmd == "clear" then Clear
    else if cmd == "reload" then Reload
    else if cmd in entries then Print(Trim(entries[cmd]) + "\n\n")
    else Unknown
  }

  /** The decision Enter makes for the typed text: blank input is ignored,
      anything else is trimmed, lower-cased and dispatched. */
  function Respond(entries: map<string, string>, value: string): (a: Action)
    ensures a == Ignore <==> AllWhitespace(value)
  {
    TrimIsSlice(value);
    var raw := Trim(value);
    if raw == "" then Ignore else Dispatch(entries, ToLower(raw))
  }

  /** Commands are case-insensitive: typing the lower-cased text gives the
      same action. */
  lemma RespondIgnoresCase(entries: map<string, string>, value: string)
    ensures Respond(entries, ToLower(value)) == Respond(entries, value)
  {
    LowerTrimCommute(value);
    LowerIdempotent(Trim(value));
  }

  /** Whatever the spreadsheet says, `help` prints a list of commands that
      ends with `clear` and `reload`; after a failed fetch it is exactly
      those two. */
  lemma HelpAlwaysAnswers(f: Fetch)
    ensures var a := Respond(Build(f).entries, "help");
            && a.Print?
            && (f.Failed? ==> a.text == FallbackHelp + "\n\n")
            && (f.Fetched? ==> a.text == HelpText(Collect(ParseRows(DataRows(f.text))).keys) + "\n\n")
  {
    HelpWord("help");
    if f.Failed? {
      assert IsTrimmed(FallbackHelp);
    } else {
      HelpTextTrimmed(Collect(ParseRows(DataRows(f.text))).keys);
    }
  }

  /** Every key loaded from the spreadsheet, other than the three the
      terminal handles itself, answers with its response when typed in any
      case with any surrounding whitespace; the key itself is such a text. */
  lemma LoadedKeyAnswers(text: string, k: string, typed: string)
    requires k in Collect(ParseRows(DataRows(text))).entries
    requires k != "clear" && k != "reload" && k != "help"
    requires ToLower(Trim(typed)) == k
    ensures Respond(Build(Fetched(text)).entries, typed)
            == Print(Trim(Collect(ParseRows(DataRows(text))).entries[k]) + "\n\n")
    ensures ToLower(Trim(k)) == k
  {
    var lines := DataRows(text);
    var rows := ParseRows(lines);
    CollectKeys(rows, k);
    var i :| 0 <= i < |rows| && rows[i].key == k;
    assert rows[i] == ParseRow(lines[i]);
    LowerKeepsLower(k);
    assert Trim(typed) != [];
  }

  /** A typed text that is already trimmed and whose lower-cased form is a
      table key other than `clear` and `reload` prints that key's response. */
  lemma TypedKeyAnswers(entries: map<string, string>, typed: string, key: string)
    requires key in entries && key != "clear" && key != "reload"
    requires typed != [] && Trim(typed) == typed && ToLower(typed) == key
    ensures Respond(entries, typed) == Print(Trim(entries[key]) + "\n\n")
  {
  }

  /** Typing `HELLO` after loading the example document prints the `hello`
      response. */
  lemma ExampleTypedHello(header: string, k1: string, v1: string, k2: string, v2: string, typed: string)
    requires header == "header,ignored" && k1 == "hello" && v1 == "Hi there!"
    requires k2 == "about" && v2 == "Line one\\nLine two"
    requires typed == "HELLO"
    ensures Respond(Build(Fetched(header + "\n" + (k1 + [','] + v1) + "\n" + (k2 + [','] + v2))).entries, typed)
            == Print("Hi there!\n\n")
  {
    var entries := Build(Fetched(header + "\n" + (k1 + [','] + v1) + "\n" + (k2 + [','] + v2))).entries;
    ExampleDocument(header, k1, v1, k2, v2);
    ExampleUpper(typed, v1);
    ExampleLookup(entries, k1, v1);
    TypedKeyAnswers(entries, typed, k1);
  }

  // Facts about the literal texts of the typed example, kept apart from the
  // general lemmas above.

  lemma ExampleUpper(typed: string, reply: string)
    requires typed == "HELLO" && reply == "Hi there!"
    ensures typed != [] && Trim(typed) == typed && ToLower(typed) == "hello"
    ensures Trim(reply) + "\n\n" == "Hi there!\n\n"
  {
    assert IsTrimmed(typed) && IsTrimmed(reply);
  }

  lemma ExampleLookup(entries: map<string, string>, key: string, reply: string)
    requires key == "hello" && reply == "Hi there!"
    requires entries == map["hello" := "Hi there!", "about" := "Line one\nLine two",
                            "help" := "Available commands: hello, about, clear, reload", "reload" := ReloadMessage]
    ensures key in entries && entries[key] == reply && key != "clear" && key != "reload"
  {
    assert key != "about" && key != "help" && key != "reload";
  }

  lemma HelpWord(help: string)
    requires help == "help"
    ensures help != [] && Trim(help) == help && ToLower(help) == help
  {
    assert IsTrimmed(help);
  }

  /** The terminal's state: the command table, the history of distinct
      commands in the order first entered, the history cursor (-1 before
      anything was entered) and the text in the input box. */
  class Session {
    var commands: Table
    var history: seq<string>
    var historyIndex: int
    var input: string

    ghost predicate Valid()
      reads this
    {
      && commands.Valid()
      && Distinct(history)
      && (forall k :: 0 <= k < |history| ==> history[k] != "" && IsTrimmed(history[k]))
      && (if history == [] then historyIndex == -1 else 0 <= historyIndex <= |history|)
    }

    /** The page before the table is loaded: nothing entered yet. */
    constructor ()
      ensures Valid()
      ensures commands == Empty && history == [] && historyIndex == -1 && input == ""
    {
      commands := Empty;
      history := [];
      historyIndex := -1;
      input := "";
    }

    /** Replacing the table with the one built from the fetch outcome: the
        data rows are parsed one by one, then `help` and `reload` are set. */
    method LoadCommands(fetch: Fetch)
      requires Valid()
      modifies this`commands
      ensures Valid()
      ensures commands == Build(fetch)
    {
      match fetch
      case Failed =>
        commands := Fallback;
      case Fetched(text) =>
        var lines := SplitOn(Trim(text), '\n');
        commands := Empty;
        var i := 1;
        while i < |lines|
          invariant 1 <= i <= |lines|
          invariant commands == Collect(ParseRows(lines[1..i]))
        {
          var values := Csv.ParseCsvLine(lines[i]);
          var cmd := ToLower(values[0]);
          var resp := Join(values[1..], "\n");
          if cmd != "" {
            commands := Put(commands, cmd, UnescapeNewlines(resp));
          }
          CollectStep(lines, i);
          i := i + 1;
        }
        assert lines[1..i] == DataRows(text);
        commands := Put(commands, "help", HelpText(commands.keys));
        commands := Put(commands, "reload", ReloadMessage);
        assert commands == Build(fetch);
    }

    /** Enter: blank input changes nothing. Otherwise the trimmed text joins
        the history unless it is already there, the cursor moves past the
        end, the input box is emptied and the command is dispatched. */
    method Enter() returns (a: Action)
      requires Valid()
      modifies this`history, this`historyIndex, this`input
      ensures Valid()
      ensures a == Respond(commands.entries, old(input))
      ensures AllWhitespace(old(input)) ==>
                history == old(history) && historyIndex == old(historyIndex) && input == old(input)
      ensures !AllWhitespace(old(input)) ==>
                && history == (if Trim(old(input)) in old(history) then old(history)
                               else old(history) + [Trim(old(input))])
                && historyIndex == |history|
                && input == ""
    {
      TrimIsSlice(input);
      var raw := Trim(input);
      if raw == "" {
        return Ignore;
      }
      var cmd := ToLower(raw);
      if raw !in history {
        history := history + [raw];
      }
      historyIndex := |history|;
      input := "";
      a := Dispatch(commands.entries, cmd);
    }

    /** ArrowUp: with a history, the cursor moves one entry back (stopping at
        the first) and that entry is put in the input box. */
    method ArrowUp()
      requires Valid()
      modifies this`historyIndex, this`input
      ensures Valid()
      ensures old(history) == [] ==> historyIndex == old(historyIndex) && input == old(input)
      ensures old(history) != [] ==>
                && historyIndex == (if old(historyIndex) > 0 then old(historyIndex) - 1 else 0)
                && 0 <= historyIndex < |history|
                && input == history[historyIndex]
    {
      if |history| == 0 {
        return;
      }
      historyIndex := if historyIndex - 1 > 0 then historyIndex - 1 else 0;
      input := history[historyIndex];
    }

    /** ArrowDown: with a history, the cursor moves one entry forward
        (stopping just past the last); past the last the input box is
        emptied, otherwise it shows that entry. */
    method ArrowDown()
      requires Valid()
      modifies this`historyIndex, this`input
      ensures Valid()
      ensures old(history) == [] ==> historyIndex == old(historyIndex) && input == old(input)
      ensures old(history) != [] ==>
                && historyIndex == (if old(historyIndex) < |history| then old(historyIndex) + 1 else |history|)
                && 1 <= historyIndex <= |history|
                && input == (if historyIndex == |history| then "" else history[historyIndex])
    {
      if |history| == 0 {
        return;
      }
      historyIndex := if historyIndex + 1 < |history| then historyIndex + 1 else |history|;
      input := if historyIndex == |history| then "" else history[historyIndex];
    }
  }
}
