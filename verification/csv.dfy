/** `parseCSVLine`: splits one line of the published spreadsheet into trimmed
    fields. A double quote opens or closes a quoted stretch and is dropped; a
    comma outside such a stretch ends the current field. There is no escape
    for a quote inside a quoted stretch, and unbalanced quotes are not an
    error. */
module Csv {
  import opened Strings

  /** The parser's state after some prefix of the line: the fields already
      closed (trimmed), the untrimmed text of the open field, and whether a
      quote is open. */
  datatype Scanner = Scanner(fields: seq<string>, current: string, inQuotes: bool)

  /** What the parser does with one character. */
  function Step(st: Scanner, c: char): Scanner {
    if c == '"' && !st.inQuotes then st.(inQuotes := true)
    else if c == '"' && st.inQuotes then st.(inQuotes := false)
    else if c == ',' && !st.inQuotes then Scanner(st.fields + [Trim(st.current)], "", st.inQuotes)
    else st.(current := st.current + [c])
  }

  /** The parser's state after reading all of `s`. */
  function Scan(s: string): Scanner
    decreases |s|
  {
    if s == [] then Scanner([], "", false)
    else Step(Scan(s[..|s| - 1]), s[|s| - 1])
  }

  /** The fields the parser returns for `line`: those closed during the scan
      followed by the last, open one. */
  function Fields(line: string): (r: seq<string>)
    ensures |r| >= 1
  {
    Scan(line).fields + [Trim(Scan(line).current)]
  }

  /** The number of double quotes in `s`. */
  function QuoteCount(s: string): nat
    decreases |s|
  {
    if s == [] then 0
    else QuoteCount(s[..|s| - 1]) + (if s[|s| - 1] == '"' then 1 else 0)
  }

  /** After `s`, a quoted stretch is open: every quote read so far has
      toggled the answer, starting from closed. */
  predicate InsideQuotes(s: string)
    decreases |s|
  {
    if s == [] then false
    else InsideQuotes(s[..|s| - 1]) != (s[|s| - 1] == '"')
  }

  /** A quoted stretch is open exactly when an odd number of quotes was read. */
  lemma {:induction false} InsideQuotesParity(s: string)
    ensures InsideQuotes(s) <==> QuoteCount(s) % 2 == 1
    decreases |s|
  {
    if s != [] {
      InsideQuotesParity(s[..|s| - 1]);
    }
  }

  /** The number of commas of `s` preceded by an even number of quotes. */
  function UnquotedCommas(s: string): nat
    decreases |s|
  {
    if s == [] then 0
    else
      var init := s[..|s| - 1];
      UnquotedCommas(init) + (if s[|s| - 1] == ',' && !InsideQuotes(init) then 1 else 0)
  }

  /** Each piece trimmed. */
  function TrimAll(parts: seq<string>): (r: seq<string>)
    ensures |r| == |parts|
    ensures forall k :: 0 <= k < |r| ==> r[k] == Trim(parts[k])
  {
    seq(|parts|, k requires 0 <= k < |parts| => Trim(parts[k]))
  }

  /** Reading one more character is one more step. */
  lemma ScanSnoc(s: string, c: char)
    ensures Scan(s + [c]) == Step(Scan(s), c)
  {
    assert (s + [c])[..|s|] == s;
  }

  lemma TrimAllSnoc(parts: seq<string>)
    requires |parts| > 0
    ensures TrimAll(parts) == TrimAll(parts[..|parts| - 1]) + [Trim(parts[|parts| - 1])]
  {
  }

  /** The scan's quote flag is the parity of the quotes read so far, and it
      has closed one field per comma read outside quotes. */
  lemma {:induction false} ScanCounts(s: string)
    ensures Scan(s).inQuotes == InsideQuotes(s)
    ensures |Scan(s).fields| == UnquotedCommas(s)
    decreases |s|
  {
    if s != [] {
      var init := s[..|s| - 1];
      ScanCounts(init);
      assert Scan(s) == Step(Scan(init), s[|s| - 1]);
    }
  }

  /** The parser returns one field more than the line has commas outside
      quotes; in particular never zero fields. */
  lemma FieldCount(line: string)
    ensures |Fields(line)| == UnquotedCommas(line) + 1
  {
    ScanCounts(line);
  }

  /** No quote ever reaches a field, and every closed field is trimmed. */
  lemma {:induction false} ScanClean(s: string)
    ensures '"' !in Scan(s).current
    ensures forall k :: 0 <= k < |Scan(s).fields| ==> '"' !in Scan(s).fields[k] && IsTrimmed(Scan(s).fields[k])
    decreases |s|
  {
    if s != [] {
      var st := Scan(s[..|s| - 1]);
      ScanClean(s[..|s| - 1]);
      TrimKeepsAbsent(st.current, '"');
    }
  }

  /** Every field is free of quotes and has no whitespace at either end. */
  lemma FieldsClean(line: string)
    ensures forall k :: 0 <= k < |Fields(line)| ==> '"' !in Fields(line)[k] && IsTrimmed(Fields(line)[k])
  {
    ScanClean(line);
    TrimKeepsAbsent(Scan(line).current, '"');
  }

  /** On a line with no quotes the scan follows a plain split on commas. */
  lemma {:induction false} ScanQuoteFree(s: string)
    requires '"' !in s
    ensures var p := SplitOn(s, ',');
            && !Scan(s).inQuotes
            && Scan(s).fields == TrimAll(p[..|p| - 1])
            && Scan(s).current == p[|p| - 1]
    decreases |s|
  {
    if s != [] {
      var init := s[..|s| - 1];
      assert '"' !in init by {
        forall x | x in init ensures x != '"' { assert x in s; }
      }
      ScanQuoteFree(init);
      var p0 := SplitOn(init, ',');
      var n := |p0|;
      if s[|s| - 1] == ',' {
        TrimAllSnoc(p0);
      } else {
        var p := SplitOn(s, ',');
        assert p[..|p| - 1] == p0[..n - 1];
      }
    }
  }

  /** A line without quotes parses exactly as the line split on every comma,
      each piece trimmed. */
  lemma QuoteFreeIsSplit(line: string)
    requires '"' !in line
    ensures Fields(line) == TrimAll(SplitOn(line, ','))
  {
    ScanQuoteFree(line);
    TrimAllSnoc(SplitOn(line, ','));
  }

  /** Reading a comma outside quotes starts the scan afresh: whatever follows
      it is scanned as if it were a line of its own. */
  lemma {:induction false} ScanAfterComma(a: string, b: string)
    requires !InsideQuotes(a)
    ensures Scan(a + [','] + b) == Scanner(Fields(a) + Scan(b).fields, Scan(b).current, Scan(b).inQuotes)
    decreases |b|
  {
    ScanCounts(a);
    var s := a + [','] + b;
    if b == [] {
      assert s[..|s| - 1] == a;
      assert Scan(s) == Step(Scan(a), ',');
      assert Fields(a) == Scan(a).fields + [Trim(Scan(a).current)];
    } else {
      var b0 := b[..|b| - 1];
      var c := b[|b| - 1];
      ScanAfterComma(a, b0);
      assert b == b0 + [c];
      AppendAssoc(a + [','], b0, [c]);
      ScanSnoc(a + [','] + b0, c);
      ScanSnoc(b0, c);
    }
  }

  /** A comma outside quotes separates the fields of what precedes it from
      the fields of what follows it. */
  lemma CommaSeparates(a: string, b: string)
    requires !InsideQuotes(a)
    ensures Fields(a + [','] + b) == Fields(a) + Fields(b)
  {
    var s := a + [','] + b;
    ScanAfterComma(a, b);
    var fa, sb := Fields(a), Scan(b);
    assert Fields(s) == (fa + sb.fields) + [Trim(sb.current)];
    AppendAssoc(fa, sb.fields, [Trim(sb.current)]);
  }

  lemma AppendAssoc<T>(x: seq<T>, y: seq<T>, z: seq<T>)
    ensures (x + y) + z == x + (y + z)
  {
  }

  /** Text with neither quotes nor commas is read into the open field. */
  lemma {:induction false} ScanPlain(s: string)
    requires '"' !in s && ',' !in s
    ensures Scan(s) == Scanner([], s, false)
    decreases |s|
  {
    if s != [] {
      var init := s[..|s| - 1];
      assert '"' !in init && ',' !in init by {
        forall x | x in init ensures x != '"' && x != ',' { assert x in s; }
      }
      ScanPlain(init);
      assert s == init + [s[|s| - 1]];
    }
  }

  /** Text with neither quotes nor commas is one field, trimmed, and leaves
      no quote open. */
  lemma PlainField(s: string)
    requires '"' !in s && ',' !in s
    ensures !InsideQuotes(s) && Fields(s) == [Trim(s)]
  {
    ScanPlain(s);
    ScanCounts(s);
  }

  /** Inside an opening quote, commas are kept in the open field. */
  lemma {:induction false} ScanOpenQuote(t: string)
    requires '"' !in t
    ensures Scan(['"'] + t) == Scanner([], t, true)
    decreases |t|
  {
    if t == [] {
      assert Scan(['"'])  == Step(Scan([]), '"');
    } else {
      var t0 := t[..|t| - 1];
      assert '"' !in t0 by {
        forall x | x in t0 ensures x != '"' { assert x in t; }
      }
      ScanOpenQuote(t0);
      assert (['"'] + t)[..|t|] == ['"'] + t0;
      assert t == t0 + [t[|t| - 1]];
    }
  }

  /** A quoted stretch is one field, commas and all, with the quotes dropped,
      and leaves no quote open. */
  lemma QuotedField(t: string)
    requires '"' !in t
    ensures !InsideQuotes(['"'] + t + ['"']) && Fields(['"'] + t + ['"']) == [Trim(t)]
  {
    var quoted := ['"'] + t + ['"'];
    ScanOpenQuote(t);
    ScanSnoc(['"'] + t, '"');
    ScanCounts(quoted);
  }

  /** An empty line gives one empty field. */
  lemma EmptyLine()
    ensures Fields("") == [""]
  {
  }

  /** Two fields whose scans leave no quote open, joined by a comma. */
  lemma JoinTwo(x: string, y: string, fx: seq<string>, fy: seq<string>)
    requires !InsideQuotes(x) && Fields(x) == fx && Fields(y) == fy
    ensures Fields(x + [','] + y) == fx + fy
  {
    CommaSeparates(x, y);
  }

  /** A quoted field followed by a plain one. */
  lemma QuotedThenPlain(t: string, b: string)
    requires '"' !in t && '"' !in b && ',' !in b
    ensures Fields((['"'] + t + ['"']) + [','] + b) == [Trim(t), Trim(b)]
  {
    PlainField(b);
    QuotedField(t);
    JoinTwo(['"'] + t + ['"'], b, [Trim(t)], [Trim(b)]);
  }

  /** A quoted field between two plain ones keeps its commas: the line
      `a,"t",b` gives the three fields `a`, `t` and `b`, each trimmed. */
  lemma QuotedBetweenPlain(a: string, t: string, b: string)
    requires '"' !in a && ',' !in a && '"' !in t && '"' !in b && ',' !in b
    ensures Fields(a + [','] + (['"'] + t + ['"']) + [','] + b) == [Trim(a), Trim(t), Trim(b)]
  {
    var quoted := ['"'] + t + ['"'];
    var tail := quoted + [','] + b;
    PlainField(a);
    QuotedThenPlain(t, b);
    JoinTwo(a, tail, [Trim(a)], [Trim(t), Trim(b)]);
    AppendAssoc(a + [','] + quoted, [','], b);
    AppendAssoc(a + [','], quoted, [','] + b);
    AppendAssoc(quoted, [','], b);
  }

  /** A comma inside quotes stays in its field. */
  lemma QuotedCommaExample()
    ensures Fields("foo,\"bar,baz\",qux") == ["foo", "bar,baz", "qux"]
  {
    var a, t, b := "foo", "bar,baz", "qux";
    ExamplePieces(a, t, b);
    QuotedBetweenPlain(a, t, b);
  }

  /** What the example line is made of. */
  lemma ExamplePieces(a: string, t: string, b: string)
    requires a == "foo" && t == "bar,baz" && b == "qux"
    ensures '"' !in a && ',' !in a && '"' !in t && '"' !in b && ',' !in b
    ensures Trim(a) == a && Trim(t) == t && Trim(b) == b
    ensures "foo,\"bar,baz\",qux" == a + [','] + (['"'] + t + ['"']) + [','] + b
  {
    assert IsTrimmed(a) && IsTrimmed(t) && IsTrimmed(b);
  }

  /** The scanning loop of `parseCSVLine`. */
  method ParseCsvLine(line: string) returns (result: seq<string>)
    ensures result == Fields(line)
    ensures |result| == UnquotedCommas(line) + 1
    ensures forall k :: 0 <= k < |result| ==> '"' !in result[k] && IsTrimmed(result[k])
  {
    result := [];
    var current := "";
    var inQuotes := false;
    var i := 0;
    while i < |line|
      invariant 0 <= i <= |line|
      invariant Scanner(result, current, inQuotes) == Scan(line[..i])
    {
      var c := line[i];
      if c == '"' && !inQuotes {
        inQuotes := true;
      } else if c == '"' && inQuotes {
        inQuotes := false;
      } else if c == ',' && !inQuotes {
        result := result + [Trim(current)];
        current := "";
      } else {
        current := current + [c];
      }
      assert line[..i + 1][..i] == line[..i];
      i := i + 1;
    }
    assert line[..i] == line;
    result := result + [Trim(current)];
    FieldCount(line);
    FieldsClean(line);
  }
}
