# Terminal portfolio: command table, CSV lines and key handling

The page `script.js` is a fake terminal. At start-up it fetches a published
spreadsheet as CSV text and builds a table of commands from it. The first
line of the sheet is a header. Every later line gives a command key (its first
field, lower-cased) and a response (the other fields joined by newlines,
with the two characters `\n` decoded to a newline). Two entries are then
added: `help`, which lists the keys, and `reload`. If the fetch fails, a
fixed three-entry table is used instead. In the input box, Enter trims
and lower-cases the typed text and dispatches it: `clear` and `reload` are
handled by the page; a known key prints its response; anything else prints
an "unknown command" reply. Entered commands go into a history without
duplicates. ArrowUp and ArrowDown move a cursor through that history.

The model has four modules:

- `Strings` (`strings.dfy`) holds the JavaScript built-ins the script relies on:
  - `trim`, over the exact ECMAScript whitespace and line-terminator set;
  - `toLowerCase`, for ASCII letters only;
  - `split` on one character and `join`;
  - the `\n` replacement, with an escaping inverse.
- `Csv` (`csv.dfy`) models `parseCSVLine` twice:
  - `Fields`, a specification by prefix;
  - `ParseCsvLine`, the character loop, proved equal to `Fields`.
- `Commands` (`commands.dfy`) models the table:
  - `Table` is a map together with the order in which keys were first assigned;
  - `Collect` is the fold over the data rows;
  - `Build` is the table `loadCommands` leaves, for a fetch outcome given as input.
- `Terminal` (`terminal.dfy`) models the key handling:
  - `Dispatch` is the pure choice of action;
  - `Respond` is what Enter decides for a typed text;
  - the class `Session` holds the table, the history, the history cursor and the input box, and has the methods `LoadCommands`, `Enter`, `ArrowUp` and `ArrowDown`.

## Model

| member | source | states |
|---|---|---|
| Strings.Trim | script.js:112 | the result has no whitespace at either end, is no longer than the input, and an already trimmed text is unchanged |
| Strings.TrimIsSlice | script.js:112-113 | what `trim` keeps is one contiguous slice of the text, with only whitespace before and after it, and it is empty exactly when the text is all whitespace |
| Strings.TrimEmptyIffBlank | script.js:112-113 | `trim` gives the empty string exactly when the input is all whitespace, which is when Enter ignores the input |
| Strings.TrimDropsTrailing | script.js:93 | whitespace appended to a text does not change what `trim` keeps |
| Strings.TrimDropsLeading | script.js:93 | whitespace put in front of a text does not change what `trim` keeps |
| Strings.TrimKeepsAbsent | script.js:93 | trimming adds no character that was not in the text |
| Strings.DropTrailingWhitespace | script.js:93 | the result is a prefix of the input, what it drops is all whitespace, and it does not end in whitespace |
| Strings.ToLower | script.js:114 | same length; no capital letter remains; each capital becomes its lower-case letter and every other character is kept |
| Strings.LowerTrimCommute | script.js:112-114 | trimming then lower-casing equals lower-casing then trimming |
| Strings.LowerIdempotent | script.js:114 | lower-casing twice is lower-casing once |
| Strings.LowerKeepsLower | script.js:97 | a text without capitals is its own lower-cased form |
| Strings.LowerKeepsShape | script.js:97 | lower-casing keeps a trimmed field trimmed and introduces no quote |
| Strings.SplitOn | script.js:93 | `split` gives at least one piece and no piece contains the separator |
| Strings.SplitJoin | script.js:93 | joining the pieces of a split with the separator gives back the text |
| Strings.SplitUnique | script.js:93 | any cut of the text into separator-free pieces that join back to it is the split, so the split is determined by that round trip |
| Strings.SplitWithoutSeparator | script.js:93 | a text without the separator splits into itself alone |
| Strings.SplitAfterSeparator | script.js:93 | a separator-free text followed by the separator is the first piece, and the rest splits on its own |
| Strings.Join | script.js:98 | `Array.prototype.join`; no contract of its own: `JoinCons` states how it grows, and `SplitJoin` and `SplitUnique` make it the inverse of `SplitOn` |
| Strings.JoinCons | script.js:98 | joining a part in front of other parts adds that part and one separator |
| Strings.UnescapeNewlines | script.js:99 | the replacement never lengthens the text, leaves no backslash-`n` pair behind, and leaves text without such a pair unchanged |
| Strings.EscapeNewlines | script.js:99 | the escaped text holds no newline and is at least as long as the input |
| Strings.UnescapeEscape | script.js:99 | decoding the escaped form of a text without backslash-`n` pairs gives the text back |
| Strings.UnescapeAfterPlain | script.js:99 | a backslash-free prefix passes through the replacement unchanged |
| Strings.UnescapeNoBackslash | script.js:99 | text without a backslash is unchanged by the replacement |
| Strings.UnescapeOne | script.js:99 | one `\n` escape between backslash-free texts becomes one newline |
| Csv.Step | script.js:76-81 | one character of the loop; no contract of its own: `InsideQuotesParity`, `ScanCounts` and `ScanClean` state what repeated steps keep |
| Csv.Scan | script.js:75-82 | the loop over a whole prefix; no contract of its own: `ScanCounts`, `ScanClean`, `ScanQuoteFree` and `ScanAfterComma` state its results |
| Csv.Fields | script.js:71-85 | the parser always returns at least one field |
| Csv.InsideQuotesParity | script.js:76-77 | the quote flag is set exactly when an odd number of quotes has been read |
| Csv.ScanCounts | script.js:75-82 | the scan's quote flag is the quote parity, and the number of closed fields is the number of commas read outside quotes |
| Csv.FieldCount | script.js:71-85 | the number of fields is the number of commas outside quotes plus one |
| Csv.ScanClean | script.js:76-83 | no quote reaches the open field, and every closed field is quote-free and trimmed |
| Csv.FieldsClean | script.js:76-83 | no returned field contains a quote or has whitespace at either end |
| Csv.ScanQuoteFree | script.js:75-83 | on a quote-free line, the closed fields are the trimmed pieces of a comma split, except the last, which is still open |
| Csv.QuoteFreeIsSplit | script.js:75-83 | on a line without quotes, the fields are the line split on every comma, each piece trimmed |
| Csv.ScanAfterComma | script.js:78-80 | a comma outside quotes closes the fields so far; the scan then continues on the rest as if it were a fresh line |
| Csv.CommaSeparates | script.js:78-80 | the fields of `a,b` are the fields of `a` followed by those of `b`, when `a` leaves no quote open |
| Csv.ScanPlain | script.js:81 | text with neither quotes nor commas accumulates entirely in the open field |
| Csv.PlainField | script.js:81-83 | such text is one trimmed field and leaves no quote open |
| Csv.ScanOpenQuote | script.js:76-81 | after an opening quote, commas are kept in the open field |
| Csv.QuotedField | script.js:76-83 | a quoted stretch is one field, commas included, with the quotes dropped |
| Csv.EmptyLine | script.js:83 | an empty line gives exactly one empty field |
| Csv.JoinTwo | script.js:78-80 | fields of two pieces joined by a comma outside quotes concatenate |
| Csv.QuotedThenPlain | script.js:75-83 | a quoted field followed by a plain one gives those two fields |
| Csv.QuotedBetweenPlain | script.js:75-83 | a quoted field between two plain ones keeps its commas: three fields |
| Csv.QuotedCommaExample | script.js:75-83 | `foo,"bar,baz",qux` parses to `foo`, `bar,baz`, `qux` |
| Csv.ParseCsvLine | script.js:71-85 | the character loop returns exactly `Fields(line)`: commas-outside-quotes plus one fields, each quote-free and trimmed |
| Commands.Put | script.js:99 | assigning a key sets its response and keeps every other key and response; a new key goes last in the key order, an existing key keeps its place; the key order stays valid |
| Commands.ParseRow | script.js:96-99 | a row's key is trimmed, quote-free and lower-case, and its response holds no backslash-`n` pair |
| Commands.DataRows | script.js:93-95 | the data lines; no contract of its own: `DataRowsAfterHeader`, `HeaderIgnored` and `TwoDataRows` state which lines they are |
| Commands.Collect | script.js:94-100 | the fold of the data rows into the table; no contract of its own: `CollectValid`, `CollectKeys`, `CollectLastWins` and `CollectOrder` state its keys, responses and key order |
| Commands.HelpText | script.js:101 | the `help` response; no contract of its own: `HelpTextTrimmed` states it prints unchanged, and `Build` and `HelpAlwaysAnswers` state which keys it lists |
| Commands.Build | script.js:93-105 | the table's key order is valid; after a failed fetch it is exactly the constant `Fallback` (line 105): `help`, `clear` (empty) and `reload` with the fixed texts; after a fetch `reload` is the reload message, `help` lists the collected keys in order followed by `clear, reload`, and every other key is present exactly when a data row gave it, with that row's response |
| Commands.HelpTextTrimmed | script.js:101 | the `help` text has no whitespace at either end, so it prints unchanged |
| Commands.CollectValid | script.js:94-100 | the collected table lists each of its keys exactly once |
| Commands.CollectKeys | script.js:95-100 | a key is in the table exactly when it is non-empty and some data row has it |
| Commands.CollectLastWins | script.js:99 | a key's response comes from the last row with that key, so later rows overwrite earlier ones |
| Commands.CollectOrder | script.js:99-101 | the keys are listed in the order of their first rows |
| Commands.DataRowsAfterHeader | script.js:93-95 | after a header line that is not blank (whitespace at its start is trimmed away with the document), the data rows are the rest of the document split on newlines with trailing whitespace dropped; none when the rest is blank |
| Commands.HeaderIgnored | script.js:93-95 | a first line that is not blank never contributes: two documents that differ only in such a header give the same table (a blank first line is trimmed away, and the next line becomes the header) |
| Commands.TwoDataRows | script.js:93-95 | a header that is not blank and two newline-free lines, the second non-empty and not ending in whitespace, give exactly those two lines as data rows |
| Commands.TwoFieldRow | script.js:96-99 | a line of two plain fields maps its lower-cased first field to its second field, decoded |
| Commands.CollectTwo | script.js:95-100 | two rows with distinct non-empty keys give a table of those two keys, in order |
| Commands.BuildTwoRows | script.js:94-102 | two such rows give exactly their two entries, `help` listing them in order, and `reload` |
| Commands.TwoRowDocument | script.js:93-102 | a header and two rows of plain fields give exactly the two lower-cased commands with decoded responses, `help` and `reload` |
| Commands.ExampleDocument | script.js:93-102 | the document with header `header,ignored`, `hello,Hi there!` and `about,Line one\nLine two` gives exactly four entries, including `about` with a real newline and `help` = `Available commands: hello, about, clear, reload` |
| Terminal.Dispatch | script.js:124-132 | `clear` and `reload` are intercepted before the table is consulted; a table key prints its response trimmed plus a blank line; anything else is unknown; the input is never ignored here |
| Terminal.Respond | script.js:112-132 | Enter ignores the input exactly when it is all whitespace |
| Terminal.RespondIgnoresCase | script.js:112-114 | typing the lower-cased text gives the same action |
| Terminal.HelpAlwaysAnswers | script.js:101-105 | `help` always prints; after a failed fetch it prints `Available commands: clear, reload`, and after a fetch it prints the collected keys followed by `clear, reload` |
| Terminal.LoadedKeyAnswers | script.js:97-129 | every loaded key other than `help`, `clear` and `reload` prints its trimmed response when typed in any case with surrounding whitespace, and the key itself is such a text |
| Terminal.TypedKeyAnswers | script.js:112-129 | a trimmed text whose lower-cased form is a table key other than `clear` and `reload` prints that key's response |
| Terminal.ExampleTypedHello | script.js:112-129 | after loading the example document, typing `HELLO` prints `Hi there!` and a blank line |
| Terminal.Session.constructor | script.js:13-15 | the page starts with an empty table, an empty history, the cursor at -1 and an empty input box |
| Terminal.Session.LoadCommands | script.js:93-105 | the loop over the data lines leaves exactly `Build(fetch)` as the table and keeps the session valid |
| Terminal.Session.Enter | script.js:111-132 | the action is `Respond` of the old input; blank input changes nothing; otherwise the trimmed text is appended only if it is not already in the history, the cursor moves to the history length, and the input box is emptied; the history stays free of duplicates |
| Terminal.Session.ArrowUp | script.js:135-140 | with an empty history nothing changes; otherwise the cursor becomes `max(0, cursor - 1)`, lies in `[0, len - 1]`, and the input box shows that history entry |
| Terminal.Session.ArrowDown | script.js:142-147 | with an empty history nothing changes; otherwise the cursor becomes `min(len, cursor + 1)` and lies in `[1, len]`; the input box is emptied at `len` and otherwise shows that entry |

## Left out

- The page itself is not modelled: DOM updates, focus, scrolling, the window buttons, the dock and the intro (script.js:1-53, 150-189).
- The typewriter effects `typeIntro` and `typeText` are left out, with the `isTyping` gate that drops key presses while text is being typed. They run on timers. `Print` and `Unknown` stand for the text that would be typed.
- The echo of the typed command into the output (script.js:115) is left out because it only affects display.
- What `clear` and `reload` do is left out. `clear` calls `showWelcome` and `reload` calls `location.reload`. The model returns the `Clear` and `Reload` actions instead.
- The fetch is not modelled: the URL with its cache-busting timestamp, `res.ok`, and `console.error`. Its outcome is the `Fetch` input to `Build` and `LoadCommands`. Any thrown error is `Failed`.
- The start-up order, `loadCommands` then `typeIntro`, is left out. `Session.LoadCommands` may be called at any time.
- `preventDefault` on the arrow keys is left out because it is a browser effect.
- Strings.ToLower: covers only the ASCII letters. JavaScript's `toLowerCase` also maps other Unicode capitals.
- Commands.Table: assumes `Object.keys` lists keys in the order they were first assigned. JavaScript instead lists integer-like keys first, in numeric order. The special key `__proto__`, which does not become an own property, is not modelled.
- Texts are modelled as sequences of Unicode scalar values (Dafny `char`). JavaScript strings are UTF-16 code units and can hold unpaired surrogates, which this model cannot represent.
