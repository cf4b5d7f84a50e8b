/** The command table that `loadCommands` builds from the published
    spreadsheet: every data row maps its lower-cased first field to its other
    fields joined by newlines, with `\n` escapes decoded; then `help` and
    `reload` are added. When the spreadsheet cannot be fetched, a fixed
    three-entry table replaces it. */
module Commands {
  import opened Strings
  import opened Csv

  /** The `commands` object: the response of each key, and the keys in the
      order they were first assigned, which is the order `Object.keys`
      reports them in. */
  datatype Table = Table(entries: map<string, string>, keys: seq<string>) {
    /** `keys` lists every key of `entries` exactly once. */
    ghost predicate Valid() {
      Distinct(keys) && forall k :: k in entries <==> k in keys
    }
  }

  const Empty := Table(map[], [])

  /** Assigning `commands[k] = v`: a new key goes to the end of the order, an
      existing key keeps its place and only its response changes. */
  function Put(t: Table, k: string, v: string): (r: Table)
    ensures t.Valid() ==> r.Valid()
    ensures k in r.entries && r.entries[k] == v
    ensures forall x :: x != k ==> (x in r.entries <==> x in t.entries)
    ensures forall x :: x != k && x in t.entries ==> r.entries[x] == t.entries[x]
    ensures k in t.entries ==> r.keys == t.keys
    ensures k !in t.entries ==> r.keys == t.keys + [k]
  {
    Table(t.entries[k := v], if k in t.entries then t.keys else t.keys + [k])
  }

  /** The outcome of fetching the spreadsheet: its text, or a failure (a
      network error or a response that is not OK). */
  datatype Fetch = Fetched(text: string) | Failed

  const ReloadMessage := "Reloading terminal and fetching latest data..."
  const FallbackHelp := "Available commands: clear, reload"
  const FallbackReload := "Reloading..."

  /** The table used when the spreadsheet cannot be fetched. */
  const Fallback := Table(map["help" := FallbackHelp, "clear" := "", "reload" := FallbackReload],
                          ["help", "clear", "reload"])

  /** What one data line contributes: its key (the first field, lower-cased)
      and its response (the other fields joined by newlines, with every `\n`
      escape turned into a newline). */
  datatype Row = Row(key: string, response: string)

  function ParseRow(line: string): (r: Row)
    ensures IsTrimmed(r.key) && '"' !in r.key && IsLower(r.key)
    ensures NoEscape(r.response)
  {
    var fields := Fields(line);
    FieldsClean(line);
    LowerKeepsShape(fields[0], '"');
    Row(ToLower(fields[0]), UnescapeNewlines(Join(fields[1..], "\n")))
  }

  /** The lines of the trimmed document after the first (header) line. */
  function DataRows(text: string): seq<string> {
    SplitOn(Trim(text), '\n')[1..]
  }

  /** Each line parsed. */
  function ParseRows(lines: seq<string>): (rows: seq<Row>)
    ensures |rows| == |lines|
    ensures forall i :: 0 <= i < |lines| ==> rows[i] == ParseRow(lines[i])
  {
    seq(|lines|, i requires 0 <= i < |lines| => ParseRow(lines[i]))
  }

  /** The table after the loop has processed `rows` in order: rows with an
      empty key are skipped, the others assign their key. */
  function Collect(rows: seq<Row>): Table
    decreases |rows|
  {
    if rows == [] then Empty
    else
      var t := Collect(rows[..|rows| - 1]);
      var row := rows[|rows| - 1];
      if row.key == "" then t else Put(t, row.key, row.response)
  }

  /** Processing one more line extends the fold by that line's row. */
  lemma CollectStep(lines: seq<string>, i: int)
    requires 1 <= i < |lines|
    ensures var row := ParseRow(lines[i]);
            var t := Collect(ParseRows(lines[1..i]));
            Collect(ParseRows(lines[1..i + 1])) == if row.key == "" then t else Put(t, row.key, row.response)
  {
    assert lines[1..i + 1] == lines[1..i] + [lines[i]];
    ParseRowsSnoc(lines[1..i], lines[i]);
    var rows := ParseRows(lines[1..i]) + [ParseRow(lines[i])];
    assert rows[..|rows| - 1] == ParseRows(lines[1..i]);
  }

  lemma ParseRowsSnoc(lines: seq<string>, line: string)
    ensures ParseRows(lines + [line]) == ParseRows(lines) + [ParseRow(line)]
  {
  }

  /** The synthesized `help` response: the keys, then `clear` and `reload`. */
  function HelpText(keys: seq<string>): string {
    "Available commands: " + Join(keys, ", ") + ", clear, reload"
  }

  /** The `help` text starts and ends with a letter, so printing it trimmed
      prints all of it. */
  lemma HelpTextTrimmed(keys: seq<string>)
    ensures IsTrimmed(HelpText(keys))
  {
    var h := HelpText(keys);
    assert h[0] == 'A' && h[|h| - 1] == 'd';
  }

  /** The table `loadCommands` leaves behind. */
  function Build(f: Fetch): (t: Table)
    ensures t.Valid()
    ensures f.Failed? ==> t.entries == map["help" := FallbackHelp, "clear" := "", "reload" := FallbackReload]
    ensures f.Fetched? ==>
      var rows := Collect(ParseRows(DataRows(f.text)));
      && "reload" in t.entries && t.entries["reload"] == ReloadMessage
      && "help" in t.entries && t.entries["help"] == HelpText(rows.keys)
      && forall k :: k != "help" && k != "reload" ==>
           && (k in t.entries <==> k in rows.entries)
           && (k in rows.entries ==> t.entries[k] == rows.entries[k])
  {
    match f
    case Failed =>
      assert Distinct(Fallback.keys);
      Fallback
    case Fetched(text) =>
      var rows := Collect(ParseRows(DataRows(text)));
      CollectValid(ParseRows(DataRows(text)));
      Put(Put(rows, "help", HelpText(rows.keys)), "reload", ReloadMessage)
  }

  /** Some row of `rows` has key `k`. */
  ghost predicate HasRow(rows: seq<Row>, k: string) {
    exists i :: 0 <= i < |rows| && rows[i].key == k
  }

  /** Some row with key `x` comes before every row with key `y`. */
  ghost predicate AppearsBefore(rows: seq<Row>, x: string, y: string) {
    exists i :: 0 <= i < |rows| && rows[i].key == x && forall j :: 0 <= j <= i ==> rows[j].key != y
  }

  lemma {:induction false} CollectValid(rows: seq<Row>)
    ensures Collect(rows).Valid()
    decreases |rows|
  {
    if rows != [] {
      CollectValid(rows[..|rows| - 1]);
    }
  }

  /** A key is in the table exactly when it is not empty and some row has it. */
  lemma {:induction false} CollectKeys(rows: seq<Row>, k: string)
    ensures k in Collect(rows).entries <==> k != "" && HasRow(rows, k)
    decreases |rows|
  {
    if rows != [] {
      var init := rows[..|rows| - 1];
      var last := |rows| - 1;
      CollectKeys(init, k);
      assert forall i :: 0 <= i < |init| ==> init[i] == rows[i];
      if HasRow(rows, k) && !HasRow(init, k) {
        assert rows[last].key == k;
      }
    }
  }

  /** The row that decides a key's response is the last row with that key:
      a later row with the same key overwrites an earlier one. */
  lemma {:induction false} CollectLastWins(rows: seq<Row>, i: int)
    requires 0 <= i < |rows| && rows[i].key != ""
    requires forall j :: i < j < |rows| ==> rows[j].key != rows[i].key
    ensures rows[i].key in Collect(rows).entries
    ensures Collect(rows).entries[rows[i].key] == rows[i].response
    decreases |rows|
  {
    var init := rows[..|rows| - 1];
    if i < |rows| - 1 {
      assert init[i] == rows[i];
      assert forall j :: i < j < |init| ==> init[j] == rows[j];
      CollectLastWins(init, i);
    }
  }

  /** The keys are listed in the order of their first rows. */
  lemma {:induction false} CollectOrder(rows: seq<Row>)
    ensures forall p, q :: 0 <= p < q < |Collect(rows).keys| ==>
              AppearsBefore(rows, Collect(rows).keys[p], Collect(rows).keys[q])
    decreases |rows|
  {
    if rows != [] {
      var init := rows[..|rows| - 1];
      var line := rows[|rows| - 1];
      var t0 := Collect(init);
      var keys := Collect(rows).keys;
      CollectOrder(init);
      CollectValid(init);
      assert forall i :: 0 <= i < |init| ==> init[i] == rows[i];
      forall p, q | 0 <= p < q < |keys| ensures AppearsBefore(rows, keys[p], keys[q]) {
        if q < |t0.keys| {
          assert keys[p] == t0.keys[p] && keys[q] == t0.keys[q];
          assert AppearsBefore(init, t0.keys[p], t0.keys[q]);
          var i :| 0 <= i < |init| && init[i].key == keys[p] && forall j :: 0 <= j <= i ==> init[j].key != keys[q];
          assert rows[i].key == keys[p];
        } else {
          assert keys == t0.keys + [line.key] && keys[q] == line.key;
          var x := t0.keys[p];
          assert x in t0.entries;
          CollectKeys(init, x);
          CollectKeys(init, line.key);
          var i :| 0 <= i < |init| && init[i].key == x;
          forall j | 0 <= j <= i ensures rows[j].key != line.key {
            assert rows[j] == init[j];
          }
          assert rows[i].key == x;
        }
      }
    }
  }

  /** The data rows are the lines after the first, with the whitespace at
      the end of the document dropped; whitespace at the start of the second
      line is kept. A document whose first line is its only non-blank line
      has no data rows. */
  lemma DataRowsAfterHeader(header: string, body: string)
    requires !AllWhitespace(header) && '\n' !in header
    ensures AllWhitespace(body) ==> DataRows(header + "\n" + body) == []
    ensures !AllWhitespace(body) ==>
              DataRows(header + "\n" + body) == SplitOn(DropTrailingWhitespace(body), '\n')
  {
    var h := SkipLeadingWhitespace(header, body);
    if AllWhitespace(body) {
      HeaderOnly(h, body);
    } else {
      HeaderThenBody(h, body);
    }
  }

  /** The whitespace at the start of the header is trimmed with the rest of
      the document's leading whitespace. */
  lemma SkipLeadingWhitespace(header: string, body: string) returns (h: string)
    requires !AllWhitespace(header) && '\n' !in header
    ensures h != [] && !IsWhitespace(h[0]) && '\n' !in h
    ensures Trim(header + "\n" + body) == Trim(h + "\n" + body)
  {
    LeadEnds(header);
    var n := Lead(header);
    h := header[n..];
    assert header + "\n" + body == header[..n] + (h + "\n" + body);
    TrimDropsLeading(header[..n], h + "\n" + body);
    assert h[0] == header[n];
    forall k | 0 <= k < |h| ensures h[k] != '\n' {
      assert h[k] == header[n + k];
    }
  }

  lemma HeaderOnly(header: string, body: string)
    requires header != [] && !IsWhitespace(header[0]) && '\n' !in header
    requires AllWhitespace(body)
    ensures DataRows(header + "\n" + body) == []
  {
    assert AllWhitespace("\n" + body);
    assert header + "\n" + body == header + ("\n" + body);
    TrimDropsTrailing(header, "\n" + body);
    TrimKeepsAbsent(header, '\n');
    SplitWithoutSeparator(Trim(header), '\n');
  }

  lemma HeaderThenBody(header: string, body: string)
    requires header != [] && !IsWhitespace(header[0]) && '\n' !in header
    requires !AllWhitespace(body)
    ensures DataRows(header + "\n" + body) == SplitOn(DropTrailingWhitespace(body), '\n')
  {
    var kept := DropTrailingWhitespace(body);
    var w := body[|kept|..];
    assert body == kept + w;
    assert kept != [];
    var x := header + "\n" + kept;
    assert x[|x| - 1] == kept[|kept| - 1];
    assert IsTrimmed(x);
    assert header + "\n" + body == x + w;
    TrimDropsTrailing(x, w);
    SplitAfterSeparator(header, '\n', kept);
  }

  /** The first line of the document is a header: whatever it says, as long
      as it is not blank, the table comes out the same. */
  lemma HeaderIgnored(h1: string, h2: string, body: string)
    requires !AllWhitespace(h1) && '\n' !in h1
    requires !AllWhitespace(h2) && '\n' !in h2
    ensures Build(Fetched(h1 + "\n" + body)) == Build(Fetched(h2 + "\n" + body))
  {
    DataRowsAfterHeader(h1, body);
    DataRowsAfterHeader(h2, body);
  }

  /** A header followed by two lines, none holding a newline and the
      document not ending in whitespace, has those two lines as its data
      rows. */
  lemma TwoDataRows(header: string, l1: string, l2: string)
    requires !AllWhitespace(header) && '\n' !in header
    requires '\n' !in l1
    requires l2 != [] && !IsWhitespace(l2[|l2| - 1]) && '\n' !in l2
    ensures DataRows(header + "\n" + l1 + "\n" + l2) == [l1, l2]
  {
    var body := l1 + "\n" + l2;
    assert header + "\n" + l1 + "\n" + l2 == header + "\n" + body;
    assert body[|body| - 1] == l2[|l2| - 1];
    DataRowsAfterHeader(header, body);
    SplitAfterSeparator(l1, '\n', l2);
    SplitWithoutSeparator(l2, '\n');
  }

  /** A line of two plain fields defines its first field, lower-cased, as
      the key of its second, with the escapes replaced. */
  lemma TwoFieldRow(key: string, text: string)
    requires '"' !in key && ',' !in key && IsTrimmed(key)
    requires '"' !in text && ',' !in text && IsTrimmed(text)
    ensures ParseRow(key + [','] + text) == Row(ToLower(key), UnescapeNewlines(text))
  {
    PlainField(key);
    PlainField(text);
    JoinTwo(key, text, [key], [text]);
    assert Fields(key + [','] + text)[1..] == [text];
  }

  /** A document whose data rows parse to two rows with distinct, non-empty
      keys gives exactly those two commands, `help` listing them in order,
      and `reload`. */
  lemma BuildTwoRows(text: string, r1: Row, r2: Row)
    requires ParseRows(DataRows(text)) == [r1, r2]
    requires r1.key != "" && r2.key != "" && r1.key != r2.key
    ensures Build(Fetched(text)).entries
            == map[r1.key := r1.response, r2.key := r2.response,
                   "help" := "Available commands: " + (r1.key + ", " + r2.key) + ", clear, reload",
                   "reload" := ReloadMessage]
  {
    CollectTwo(r1, r2);
    var t := Collect([r1, r2]);
    var help := HelpText(t.keys);
    assert Build(Fetched(text)) == Put(Put(t, "help", help), "reload", ReloadMessage);
    assert Join(t.keys, ", ") == r1.key + ", " + r2.key;
  }

  /** Two lines parse to two rows. */
  lemma ParseTwo(l1: string, l2: string)
    ensures ParseRows([l1, l2]) == [ParseRow(l1), ParseRow(l2)]
  {
  }

  /** Two rows with distinct, non-empty keys give a table of those two keys
      in order. */
  lemma CollectTwo(r1: Row, r2: Row)
    requires r1.key != "" && r2.key != "" && r1.key != r2.key
    ensures Collect([r1, r2]) == Table(map[r1.key := r1.response, r2.key := r2.response], [r1.key, r2.key])
  {
    var rows := [r1, r2];
    assert rows[..1] == [r1];
    assert [r1][..0] == [];
    assert Collect([r1]) == Table(map[r1.key := r1.response], [r1.key]);
  }

  /** A header and two rows of two plain fields each give a table of
      exactly the two rows' commands, `help` listing them in order, and
      `reload`. */
  lemma TwoRowDocument(header: string, k1: string, v1: string, k2: string, v2: string)
    requires !AllWhitespace(header) && '\n' !in header
    requires '"' !in k1 && ',' !in k1 && '\n' !in k1 && IsTrimmed(k1) && k1 != []
    requires '"' !in v1 && ',' !in v1 && '\n' !in v1 && IsTrimmed(v1)
    requires '"' !in k2 && ',' !in k2 && '\n' !in k2 && IsTrimmed(k2) && k2 != []
    requires '"' !in v2 && ',' !in v2 && '\n' !in v2 && IsTrimmed(v2) && v2 != []
    requires ToLower(k1) != ToLower(k2)
    ensures Build(Fetched(header + "\n" + (k1 + [','] + v1) + "\n" + (k2 + [','] + v2))).entries
            == map[ToLower(k1) := UnescapeNewlines(v1), ToLower(k2) := UnescapeNewlines(v2),
                   "help" := "Available commands: " + (ToLower(k1) + ", " + ToLower(k2)) + ", clear, reload",
                   "reload" := ReloadMessage]
  {
    var l1 := k1 + [','] + v1;
    var l2 := k2 + [','] + v2;
    assert '\n' !in l1 && '\n' !in l2;
    assert l2[|l2| - 1] == v2[|v2| - 1];
    var text := header + "\n" + l1 + "\n" + l2;
    TwoDataRows(header, l1, l2);
    TwoFieldRow(k1, v1);
    TwoFieldRow(k2, v2);
    var r1 := Row(ToLower(k1), UnescapeNewlines(v1));
    var r2 := Row(ToLower(k2), UnescapeNewlines(v2));
    ParseTwo(l1, l2);
    BuildTwoRows(text, r1, r2);
  }

  // Facts about the literal texts of the example document. Each sits in a
  // lemma of its own, so that the general lemmas above are never proved with
  // a literal in scope.

  /** What the example's lines are made of. */
  lemma ExampleHeader(header: string)
    requires header == "header,ignored"
    ensures !AllWhitespace(header) && '\n' !in header
  {
    assert !IsWhitespace(header[0]);
  }

  /** A word of lower-case letters is a plain, trimmed, lower-case field. */
  lemma LowerWord(w: string)
    requires forall i :: 0 <= i < |w| ==> 'a' <= w[i] <= 'z'
    ensures '"' !in w && ',' !in w && '\n' !in w && IsTrimmed(w) && ToLower(w) == w
  {
    assert IsLower(w);
    LowerKeepsLower(w);
  }

  /** What the example's first row is made of. */
  lemma ExampleHelloFields(key: string, text: string)
    requires key == "hello" && text == "Hi there!"
    ensures forall i :: 0 <= i < |key| ==> 'a' <= key[i] <= 'z'
    ensures '"' !in text && ',' !in text && '\n' !in text && IsTrimmed(text) && '\\' !in text
  {
  }

  /** What the example's second row is made of. */
  lemma ExampleAboutFields(key: string, escaped: string)
    requires key == "about" && escaped == "Line one\\nLine two"
    ensures forall i :: 0 <= i < |key| ==> 'a' <= key[i] <= 'z'
    ensures '"' !in escaped && ',' !in escaped && '\n' !in escaped && IsTrimmed(escaped)
  {
  }

  /** The escape in the example's second row becomes a newline. */
  lemma ExampleUnescape(escaped: string, first: string, second: string)
    requires first == "Line one" && second == "Line two" && escaped == "Line one\\nLine two"
    ensures UnescapeNewlines(escaped) == "Line one\nLine two"
  {
    ExampleEscapePieces(escaped, first, second);
    UnescapeOne(first, second);
  }

  lemma ExampleEscapePieces(escaped: string, first: string, second: string)
    requires first == "Line one" && second == "Line two" && escaped == "Line one\\nLine two"
    ensures '\\' !in first && '\\' !in second
    ensures escaped == first + "\\n" + second && "Line one\nLine two" == first + "\n" + second
  {
  }

  /** The example's `help` text. */
  lemma ExampleHelp(a: string, b: string)
    requires a == "hello" && b == "about"
    ensures "Available commands: " + (a + ", " + b) + ", clear, reload" == "Available commands: hello, about, clear, reload"
  {
  }

  /** The example document: a header, `hello,Hi there!` and
      `about,Line one\nLine two` give exactly these four commands. */
  lemma ExampleDocument(header: string, k1: string, v1: string, k2: string, v2: string)
    requires header == "header,ignored" && k1 == "hello" && v1 == "Hi there!"
    requires k2 == "about" && v2 == "Line one\\nLine two"
    ensures Build(Fetched(header + "\n" + (k1 + [','] + v1) + "\n" + (k2 + [','] + v2))).entries
            == map["hello" := "Hi there!", "about" := "Line one\nLine two",
                   "help" := "Available commands: hello, about, clear, reload", "reload" := ReloadMessage]
  {
    ExampleHeader(header);
    ExampleHelloFields(k1, v1);
    LowerWord(k1);
    UnescapeNoBackslash(v1);
    ExampleAboutFields(k2, v2);
    LowerWord(k2);
    ExampleUnescape(v2, "Line one", "Line two");
    ExampleHelp(k1, k2);
    TwoRowDocument(header, k1, v1, k2, v2);
  }
}
