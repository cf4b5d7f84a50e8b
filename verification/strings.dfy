/** The String and Array built-ins that the terminal script relies on:
    `trim`, `toLowerCase`, `split` on one character, `join`, and the global
    replacement of the two-character escape `\n` by a newline. */
module Strings {

  /** The code points ECMAScript classifies as WhiteSpace or LineTerminator:
      exactly the ones `String.prototype.trim` strips from either end. */
  predicate IsWhitespace(c: char) {
    || c == '\t' || c == '\n' || c == '\U{000B}' || c == '\U{000C}' || c == '\r'
    || c == ' ' || c == '\U{00A0}' || c == '\U{1680}'
    || ('\U{2000}' <= c <= '\U{200A}')
    || c == '\U{2028}' || c == '\U{2029}' || c == '\U{202F}' || c == '\U{205F}'
    || c == '\U{3000}' || c == '\U{FEFF}'
  }

  predicate AllWhitespace(s: string) {
    forall k :: 0 <= k < |s| ==> IsWhitespace(s[k])
  }

  /** Neither end of `s` is whitespace. */
  predicate IsTrimmed(s: string) {
    s == [] || (!IsWhitespace(s[0]) && !IsWhitespace(s[|s| - 1]))
  }

  /** No two positions of `s` hold the same element. */
  predicate Distinct<T(==)>(s: seq<T>) {
    forall i, j :: 0 <= i < j < |s| ==> s[i] != s[j]
  }

  /** `String.prototype.trim`: whitespace is dropped from the start and from
      the end until neither end is whitespace. */
  function Trim(s: string): (r: string)
    ensures IsTrimmed(r)
    ensures |r| <= |s|
    ensures IsTrimmed(s) ==> r == s
    decreases |s|
  {
    if s != [] && IsWhitespace(s[0]) then Trim(s[1..])
    else if s != [] && IsWhitespace(s[|s| - 1]) then Trim(s[..|s| - 1])
    else s
  }

  /** `s` without the whitespace at its end. */
  function DropTrailingWhitespace(s: string): (r: string)
    ensures |r| <= |s| && r == s[..|r|]
    ensures AllWhitespace(s[|r|..])
    ensures r == [] || !IsWhitespace(r[|r| - 1])
    decreases |s|
  {
    if s != [] && IsWhitespace(s[|s| - 1]) then
      var r := DropTrailingWhitespace(s[..|s| - 1]);
      assert s[|r|..] == s[..|s| - 1][|r|..] + [s[|s| - 1]];
      r
    else s
  }

  /** How many whitespace characters `s` starts with. */
  function Lead(s: string): (n: nat)
    ensures n <= |s|
    decreases |s|
  {
    if s != [] && IsWhitespace(s[0]) then 1 + Lead(s[1..]) else 0
  }

  /** What `trim` keeps is one slice of `s`: it starts after the leading
      whitespace, only whitespace follows it, and it is empty exactly when
      `s` is all whitespace. */
  lemma {:induction false} TrimIsSlice(s: string)
    ensures Lead(s) + |Trim(s)| <= |s|
    ensures Trim(s) == s[Lead(s)..Lead(s) + |Trim(s)|]
    ensures AllWhitespace(s[..Lead(s)])
    ensures AllWhitespace(s[Lead(s) + |Trim(s)|..])
    ensures Trim(s) == [] <==> AllWhitespace(s)
    decreases |s|
  {
    TrimEmptyIffBlank(s);
    if s != [] && IsWhitespace(s[0]) {
      TrimIsSlice(s[1..]);
      TrimSliceFront(s);
    } else if s != [] && IsWhitespace(s[|s| - 1]) {
      TrimIsSlice(s[..|s| - 1]);
      TrimSliceBack(s);
    }
  }

  /** The step of `TrimIsSlice` that drops leading whitespace. */
  lemma TrimSliceFront(s: string)
    requires s != [] && IsWhitespace(s[0])
    requires var t := s[1..];
             && Lead(t) + |Trim(t)| <= |t|
             && Trim(t) == t[Lead(t)..Lead(t) + |Trim(t)|]
             && AllWhitespace(t[..Lead(t)])
             && AllWhitespace(t[Lead(t) + |Trim(t)|..])
    ensures Lead(s) + |Trim(s)| <= |s|
    ensures Trim(s) == s[Lead(s)..Lead(s) + |Trim(s)|]
    ensures AllWhitespace(s[..Lead(s)])
    ensures AllWhitespace(s[Lead(s) + |Trim(s)|..])
  {
    var t := s[1..];
    assert Lead(s) == 1 + Lead(t);
    assert Trim(s) == Trim(t);
    ShiftSlice(s, Lead(t), |Trim(t)|);
  }

  /** Slicing behind a leading whitespace character: a slice of the tail is
      the slice of the whole shifted by one, and blank prefixes and suffixes
      of the tail stay blank with that character in front. */
  lemma ShiftSlice(s: string, lead: nat, n: nat)
    requires s != [] && IsWhitespace(s[0]) && lead + n <= |s| - 1
    requires AllWhitespace(s[1..][..lead]) && AllWhitespace(s[1..][lead + n..])
    ensures s[1 + lead..1 + lead + n] == s[1..][lead..lead + n]
    ensures AllWhitespace(s[..1 + lead]) && AllWhitespace(s[1 + lead + n..])
  {
    var t := s[1..];
    var mid := s[1 + lead..1 + lead + n];
    forall k | 0 <= k < n ensures mid[k] == t[lead + k] {
      assert t[lead + k] == s[1 + lead + k];
    }
    assert mid == t[lead..lead + n];
    forall k | 0 <= k < 1 + lead ensures IsWhitespace(s[k]) {
      if k > 0 { assert s[k] == t[..lead][k - 1]; }
    }
    assert s[1 + lead + n..] == t[lead + n..];
  }

  /** The step of `TrimIsSlice` that drops trailing whitespace. */
  lemma TrimSliceBack(s: string)
    requires s != [] && !IsWhitespace(s[0]) && IsWhitespace(s[|s| - 1])
    requires var t := s[..|s| - 1];
             && Lead(t) + |Trim(t)| <= |t|
             && Trim(t) == t[Lead(t)..Lead(t) + |Trim(t)|]
             && AllWhitespace(t[Lead(t) + |Trim(t)|..])
    ensures Lead(s) + |Trim(s)| <= |s|
    ensures Trim(s) == s[Lead(s)..Lead(s) + |Trim(s)|]
    ensures AllWhitespace(s[..Lead(s)])
    ensures AllWhitespace(s[Lead(s) + |Trim(s)|..])
  {
    var t := s[..|s| - 1];
    assert Lead(s) == 0 && Lead(t) == 0 && Trim(s) == Trim(t);
    assert s[..|Trim(s)|] == t[..|Trim(t)|];
    assert s[|Trim(s)|..] == t[|Trim(t)|..] + [s[|s| - 1]];
  }

  /** `trim` leaves nothing exactly when the text is all whitespace. */
  lemma {:induction false} TrimEmptyIffBlank(s: string)
    ensures Trim(s) == [] <==> AllWhitespace(s)
    decreases |s|
  {
    if s != [] && IsWhitespace(s[0]) {
      var t := s[1..];
      TrimEmptyIffBlank(t);
      if AllWhitespace(t) {
        forall k | 0 <= k < |s| ensures IsWhitespace(s[k]) { if k > 0 { assert s[k] == t[k - 1]; } }
      }
    } else if s != [] && IsWhitespace(s[|s| - 1]) {
      var t := s[..|s| - 1];
      TrimEmptyIffBlank(t);
      assert !IsWhitespace(t[0]);
    }
  }

  /** No ASCII capital letter occurs in `s`. */
  predicate IsLower(s: string) {
    forall k :: 0 <= k < |s| ==> !('A' <= s[k] <= 'Z')
  }

  /** ASCII lower-casing of one character; every other character is kept. */
  function LowerChar(c: char): char {
    if 'A' <= c <= 'Z' then (c as int - 'A' as int + 'a' as int) as char else c
  }

  /** `String.prototype.toLowerCase`, restricted to the ASCII letters. */
  function ToLower(s: string): (r: string)
    ensures |r| == |s|
    ensures IsLower(r)
    ensures forall k :: 0 <= k < |s| && !('A' <= s[k] <= 'Z') ==> r[k] == s[k]
    ensures forall k :: 0 <= k < |s| && 'A' <= s[k] <= 'Z' ==> r[k] as int == s[k] as int + 32
  {
    seq(|s|, k requires 0 <= k < |s| => LowerChar(s[k]))
  }

  /** `Array.prototype.join`: the parts in order with `sep` between each
      neighbouring pair; no parts give the empty string. */
  function Join(parts: seq<string>, sep: string): string
  {
    if |parts| == 0 then ""
    else if |parts| == 1 then parts[0]
    else Join(parts[..|parts| - 1], sep) + sep + parts[|parts| - 1]
  }

  /** `String.prototype.split` with a one-character separator: the pieces of
      `s` between occurrences of `sep`. There is always at least one piece,
      and no piece holds the separator. */
  function SplitOn(s: string, sep: char): (r: seq<string>)
    ensures |r| >= 1
    ensures forall k :: 0 <= k < |r| ==> sep !in r[k]
    decreases |s|
  {
    if s == [] then [""]
    else
      var init := SplitOn(s[..|s| - 1], sep);
      var c := s[|s| - 1];
      if c == sep then init + [""]
      else init[..|init| - 1] + [init[|init| - 1] + [c]]
  }

  /** The two characters backslash and `n` stand at position `i` of `s`. */
  predicate EscapeAt(s: string, i: int) {
    0 <= i && i + 1 < |s| && s[i] == '\\' && s[i + 1] == 'n'
  }

  predicate NoEscape(s: string) {
    forall i :: 0 <= i < |s| ==> !EscapeAt(s, i)
  }

  /** The replacement `s.replace(/\\n/g, "\n")`: scanning left to right, every
      backslash followed by `n` becomes one newline character. */
  function UnescapeNewlines(s: string): (r: string)
    ensures |r| <= |s|
    ensures s != [] ==> r != [] && r[0] == (if EscapeAt(s, 0) then '\n' else s[0])
    ensures NoEscape(r)
    ensures NoEscape(s) ==> r == s
    decreases |s|
  {
    if s == [] then []
    else if EscapeAt(s, 0) then
      var rest := UnescapeNewlines(s[2..]);
      var r := "\n" + rest;
      assert NoEscape(r) by {
        forall i | 0 <= i < |r| ensures !EscapeAt(r, i) {
          if i > 0 { assert !EscapeAt(rest, i - 1); }
        }
      }
      r
    else
      var rest := UnescapeNewlines(s[1..]);
      var r := [s[0]] + rest;
      assert NoEscape(r) by {
        forall i | 0 <= i < |r| ensures !EscapeAt(r, i) {
          if i > 0 { assert !EscapeAt(rest, i - 1); }
        }
      }
      assert NoEscape(s) ==> NoEscape(s[1..]) by {
        if NoEscape(s) {
          forall i | 0 <= i < |s| - 1 ensures !EscapeAt(s[1..], i) { assert !EscapeAt(s, i + 1); }
        }
      }
      r
  }

  /** The inverse direction, writing every newline as backslash and `n`: the
      form a spreadsheet cell must hold to show line breaks. */
  function EscapeNewlines(s: string): (r: string)
    ensures '\n' !in r
    ensures |r| >= |s|
    ensures s != [] ==> r != [] && r[0] == (if s[0] == '\n' then '\\' else s[0])
    decreases |s|
  {
    if s == [] then []
    else if s[0] == '\n' then "\\n" + EscapeNewlines(s[1..])
    else [s[0]] + EscapeNewlines(s[1..])
  }

  /** Lowering a character never turns whitespace into something else nor
      anything else into whitespace. */
  lemma LowerKeepsWhitespace(c: char)
    ensures IsWhitespace(LowerChar(c)) <==> IsWhitespace(c)
  {
  }

  /** Trimming and lower-casing commute, so a command typed in any case and
      with any surrounding blanks reaches the same key. */
  lemma {:induction false} LowerTrimCommute(s: string)
    ensures Trim(ToLower(s)) == ToLower(Trim(s))
    decreases |s|
  {
    var l := ToLower(s);
    if s != [] {
      assert l[0] == LowerChar(s[0]) && l[|s| - 1] == LowerChar(s[|s| - 1]);
      LowerKeepsWhitespace(s[0]);
      LowerKeepsWhitespace(s[|s| - 1]);
      if IsWhitespace(s[0]) {
        assert l[1..] == ToLower(s[1..]);
        LowerTrimCommute(s[1..]);
      } else if IsWhitespace(s[|s| - 1]) {
        assert l[..|s| - 1] == ToLower(s[..|s| - 1]);
        LowerTrimCommute(s[..|s| - 1]);
      }
    }
  }

  /** Text without capitals is its own lower-cased form. */
  lemma LowerKeepsLower(s: string)
    requires IsLower(s)
    ensures ToLower(s) == s
  {
  }

  /** Lower-casing twice is lower-casing once. */
  lemma LowerIdempotent(s: string)
    ensures ToLower(ToLower(s)) == ToLower(s)
  {
  }

  /** Joining the pieces of a split with the separator gives back the text. */
  lemma {:induction false} SplitJoin(s: string, sep: char)
    ensures Join(SplitOn(s, sep), [sep]) == s
    decreases |s|
  {
    if s != [] {
      var init := s[..|s| - 1];
      var c := s[|s| - 1];
      var p := SplitOn(init, sep);
      SplitJoin(init, sep);
      var n := |p|;
      if c == sep {
        assert (p + [""])[..n] == p;
      } else {
        var q := p[..n - 1] + [p[n - 1] + [c]];
        assert q[..n - 1] == p[..n - 1];
        if n > 1 {
          assert Join(p, [sep]) == Join(p[..n - 1], [sep]) + [sep] + p[n - 1];
        }
      }
      assert s == init + [c];
    }
  }

  /** Adding a character to the last part adds it to the end of the join. */
  lemma JoinExtendLast(parts: seq<string>, sep: string, c: char)
    requires |parts| >= 1
    ensures Join(parts[..|parts| - 1] + [parts[|parts| - 1] + [c]], sep) == Join(parts, sep) + [c]
  {
    var n := |parts|;
    var q := parts[..n - 1] + [parts[n - 1] + [c]];
    assert q[..n - 1] == parts[..n - 1];
  }

  /** Splitting is the only way to cut a text into separator-free pieces that
      join back to it: any such cut equals the split. */
  lemma {:induction false} SplitUnique(s: string, sep: char, parts: seq<string>)
    requires |parts| >= 1
    requires forall k :: 0 <= k < |parts| ==> sep !in parts[k]
    requires Join(parts, [sep]) == s
    ensures parts == SplitOn(s, sep)
    decreases |s|
  {
    var n := |parts|;
    if parts[n - 1] == [] {
      if n > 1 {
        var front := SplitDropEmpty(s, sep, parts);
        SplitUnique(s[..|s| - 1], sep, front);
      }
    } else {
      var shorter := SplitDropChar(s, sep, parts);
      SplitUnique(s[..|s| - 1], sep, shorter);
    }
  }

  /** A cut ending in an empty piece: the text ends with the separator and
      the other pieces cut the text before it. */
  lemma SplitDropEmpty(s: string, sep: char, parts: seq<string>) returns (front: seq<string>)
    requires |parts| >= 2 && parts[|parts| - 1] == []
    requires forall k :: 0 <= k < |parts| ==> sep !in parts[k]
    requires Join(parts, [sep]) == s
    ensures front == parts[..|parts| - 1] && parts == front + [""]
    ensures s != [] && s[|s| - 1] == sep
    ensures |front| >= 1 && forall k :: 0 <= k < |front| ==> sep !in front[k]
    ensures Join(front, [sep]) == s[..|s| - 1]
  {
    front := parts[..|parts| - 1];
    var t := Join(front, [sep]);
    assert Join(parts, [sep]) == t + [sep] + parts[|parts| - 1];
    assert s == t + [sep];
    assert s[..|s| - 1] == t;
    assert parts == front + [""];
    forall k | 0 <= k < |front| ensures sep !in front[k] {
      assert front[k] == parts[k];
    }
  }

  /** A cut ending in a non-empty piece: the text ends with that piece's last
      character, and the same cut with that character removed cuts the rest. */
  lemma SplitDropChar(s: string, sep: char, parts: seq<string>) returns (shorter: seq<string>)
    requires |parts| >= 1 && parts[|parts| - 1] != []
    requires forall k :: 0 <= k < |parts| ==> sep !in parts[k]
    requires Join(parts, [sep]) == s
    ensures s != [] && s[|s| - 1] != sep
    ensures |shorter| == |parts|
    ensures parts == shorter[..|shorter| - 1] + [shorter[|shorter| - 1] + [s[|s| - 1]]]
    ensures forall k :: 0 <= k < |shorter| ==> sep !in shorter[k]
    ensures Join(shorter, [sep]) == s[..|s| - 1]
  {
    var n := |parts|;
    var last := parts[n - 1];
    var c := last[|last| - 1];
    shorter := parts[..n - 1] + [last[..|last| - 1]];
    assert shorter[..n - 1] == parts[..n - 1] && shorter[n - 1] + [c] == last;
    JoinExtendLast(shorter, [sep], c);
    assert parts == shorter[..n - 1] + [shorter[n - 1] + [c]];
    assert s[..|s| - 1] == Join(shorter, [sep]);
    forall k | 0 <= k < n ensures sep !in shorter[k] {
      if k == n - 1 {
        assert forall x :: x in shorter[k] ==> x in last;
      }
    }
    assert c in last;
  }

  /** Text that holds no backslash-`n` pair survives a trip through the
      spreadsheet's escaped form unchanged. */
  lemma {:induction false} UnescapeEscape(s: string)
    requires NoEscape(s)
    ensures UnescapeNewlines(EscapeNewlines(s)) == s
    decreases |s|
  {
    if s != [] {
      assert NoEscape(s[1..]) by {
        forall i | 0 <= i < |s| - 1 ensures !EscapeAt(s[1..], i) { assert !EscapeAt(s, i + 1); }
      }
      UnescapeEscape(s[1..]);
      var e := EscapeNewlines(s);
      if s[0] == '\n' {
        assert e[2..] == EscapeNewlines(s[1..]);
      } else {
        assert e[1..] == EscapeNewlines(s[1..]);
        assert !EscapeAt(s, 0);
        assert !EscapeAt(e, 0);
      }
    }
  }

  /** Trimming only removes characters, so a character absent from the text
      is absent from its trimmed form. */
  lemma TrimKeepsAbsent(s: string, c: char)
    requires c !in s
    ensures c !in Trim(s)
  {
    var r := Trim(s);
    TrimIsSlice(s);
    forall k | 0 <= k < |r| ensures r[k] != c {
      assert r[k] == s[Lead(s) + k];
    }
  }

  /** Whitespace added at the end does not change what `trim` keeps. */
  lemma {:induction false} TrimDropsTrailing(x: string, w: string)
    requires AllWhitespace(w)
    ensures Trim(x + w) == Trim(x)
    decreases |x| + |w|
  {
    var s := x + w;
    if s != [] && IsWhitespace(s[0]) {
      if x != [] {
        assert s[1..] == x[1..] + w;
        TrimDropsTrailing(x[1..], w);
      } else {
        assert s == w;
        TrimIsSlice(w);
      }
    } else if s != [] && IsWhitespace(s[|s| - 1]) {
      if w != [] {
        assert s[..|s| - 1] == x + w[..|w| - 1];
        TrimDropsTrailing(x, w[..|w| - 1]);
      } else {
        assert s == x;
      }
    } else {
      assert w == [];
      assert s == x;
    }
  }

  /** Whitespace put in front does not change what `trim` keeps. */
  lemma {:induction false} TrimDropsLeading(w: string, y: string)
    requires AllWhitespace(w)
    ensures Trim(w + y) == Trim(y)
    decreases |w|
  {
    if w != [] {
      assert (w + y)[1..] == w[1..] + y;
      TrimDropsLeading(w[1..], y);
    } else {
      assert w + y == y;
    }
  }

  /** In a text that is not all whitespace, the leading whitespace stops at a
      character that is not whitespace. */
  lemma {:induction false} LeadEnds(s: string)
    requires !AllWhitespace(s)
    ensures Lead(s) < |s| && !IsWhitespace(s[Lead(s)])
    ensures AllWhitespace(s[..Lead(s)])
    decreases |s|
  {
    if IsWhitespace(s[0]) {
      var t := s[1..];
      assert !AllWhitespace(t) by {
        var k :| 0 <= k < |s| && !IsWhitespace(s[k]);
        assert t[k - 1] == s[k];
      }
      LeadEnds(t);
      assert s[Lead(s)] == t[Lead(t)];
      assert s[..Lead(s)] == [s[0]] + t[..Lead(t)];
    }
  }

  /** A text without the separator splits into itself alone. */
  lemma SplitWithoutSeparator(s: string, sep: char)
    requires sep !in s
    ensures SplitOn(s, sep) == [s]
  {
    SplitUnique(s, sep, [s]);
  }

  /** Joining a part in front of at least one other adds it and a separator
      at the front of their join. */
  lemma {:induction false} JoinCons(h: string, parts: seq<string>, sep: string)
    requires |parts| >= 1
    ensures Join([h] + parts, sep) == h + sep + Join(parts, sep)
    decreases |parts|
  {
    var n := |parts|;
    var all := [h] + parts;
    if n > 1 {
      assert all[..n] == [h] + parts[..n - 1];
      JoinCons(h, parts[..n - 1], sep);
    } else {
      assert all[..1] == [h];
    }
  }

  /** A separator-free text followed by the separator is the first piece of
      the split; the rest splits on its own. */
  lemma SplitAfterSeparator(h: string, sep: char, rest: string)
    requires sep !in h
    ensures SplitOn(h + [sep] + rest, sep) == [h] + SplitOn(rest, sep)
  {
    var parts := [h] + SplitOn(rest, sep);
    JoinCons(h, SplitOn(rest, sep), [sep]);
    SplitJoin(rest, sep);
    SplitUnique(h + [sep] + rest, sep, parts);
  }

  /** Text without a backslash passes through the replacement unchanged,
      whatever follows it. */
  lemma {:induction false} UnescapeAfterPlain(a: string, b: string)
    requires '\\' !in a
    ensures UnescapeNewlines(a + b) == a + UnescapeNewlines(b)
    decreases |a|
  {
    if a != [] {
      var s := a + b;
      var tail := a[1..];
      assert a[0] in a;
      assert s[0] == a[0] && s[0] != '\\';
      assert s[1..] == tail + b;
      assert '\\' !in tail by {
        forall x | x in tail ensures x != '\\' { assert x in a; }
      }
      UnescapeAfterPlain(tail, b);
      var u := UnescapeNewlines(b);
      assert UnescapeNewlines(s) == [a[0]] + (tail + u);
      assert [a[0]] + (tail + u) == ([a[0]] + tail) + u;
      assert [a[0]] + tail == a;
    } else {
      assert a + b == b;
      assert a + UnescapeNewlines(b) == UnescapeNewlines(b);
    }
  }

  /** Text without a backslash is left as it is by the replacement. */
  lemma UnescapeNoBackslash(s: string)
    requires '\\' !in s
    ensures UnescapeNewlines(s) == s
  {
    UnescapeAfterPlain(s, []);
    assert s + [] == s;
  }

  /** One escape between two backslash-free texts becomes one newline. */
  lemma UnescapeOne(first: string, second: string)
    requires '\\' !in first && '\\' !in second
    ensures UnescapeNewlines(first + "\\n" + second) == first + "\n" + second
  {
    var tail := "\\n" + second;
    assert first + "\\n" + second == first + tail;
    UnescapeAfterPlain(first, tail);
    assert tail[2..] == second;
    UnescapeNoBackslash(second);
  }

  /** Lower-casing keeps a trimmed text trimmed and adds no character that
      is not a letter. */
  lemma LowerKeepsShape(s: string, c: char)
    requires IsTrimmed(s) && c !in s && !('A' <= c <= 'Z') && !('a' <= c <= 'z')
    ensures IsTrimmed(ToLower(s)) && c !in ToLower(s)
  {
    var r := ToLower(s);
    if s != [] {
      LowerKeepsWhitespace(s[0]);
      LowerKeepsWhitespace(s[|s| - 1]);
    }
    forall k | 0 <= k < |r| ensures r[k] != c {
      assert s[k] != c;
    }
  }
}
