/**
 * The CSV line tokenizer of the catalog's loader (`FallenStars.splitCSVLine`).
 *
 * The tokenizer makes one left-to-right pass over the line. Its state is two
 * flags (inside quotes, inside an entry), the entry being accumulated, and
 * the entries finished so far; `Step` is the effect of one character on that
 * state, and `Run` folds `Step` over a text. `SplitCSVLine` is the loop
 * itself, proved to compute `Tokenize`. The lemmas characterise the state
 * after any prefix independently of the machine: quote parity, the number of
 * unquoted commas, and which characters survive.
 */
module CsvLine {
  import opened Results
  import opened JavaText

  /** The plain double quote and the two typographic ones. */
  predicate IsQuote(c: char)
  {
    c == '"' || c == '\U{201C}' || c == '\U{201D}'
  }

  datatype Scan = Scan(insideQuotes: bool, insideEntry: bool, nextWord: string, entries: seq<string>)

  const Start := Scan(false, false, "", [])

  /** The effect of one character on the tokenizer's state. */
  function Step(s: Scan, c: char): Scan
  {
    if IsQuote(c) then
      if s.insideQuotes then s.(insideQuotes := false, insideEntry := false)
      else s.(insideQuotes := true, insideEntry := true)
    else if IsWhitespace(c) then
      if s.insideQuotes || s.insideEntry then s.(nextWord := s.nextWord + [c]) else s
    else if c == ',' then
      if s.insideQuotes then s.(nextWord := s.nextWord + [c])
      else Scan(false, false, "", s.entries + [s.nextWord])
    else
      s.(nextWord := s.nextWord + [c], insideEntry := true)
  }

  /** The state after feeding `text` to the tokenizer, one character at a time from `s`. */
  function Run(s: Scan, text: string): Scan
    decreases |text|
  {
    if text == [] then s else Step(Run(s, text[..|text| - 1]), text[|text| - 1])
  }

  /** The entries after the scan: the last, trimmed, only when something was accumulated. */
  function Finish(s: Scan): seq<string>
  {
    if s.nextWord != "" then s.entries + [Trim(s.nextWord)] else s.entries
  }

  function Tokenize(line: string): seq<string>
  {
    Finish(Run(Start, line))
  }

  /** `splitCSVLine`: `null` for a `null` line, otherwise the entries of the line. */
  method SplitCSVLine(textLine: Option<string>) returns (r: Option<seq<string>>)
    ensures textLine.None? <==> r.None?
    ensures textLine.Some? ==> r == Some(Tokenize(textLine.value))
  {
    if textLine.None? {
      return None;
    }
    var line := textLine.value;
    var entries: seq<string> := [];
    var nextWord: string := "";
    var insideQuotes := false;
    var insideEntry := false;
    var i := 0;
    while i < |line|
      invariant 0 <= i <= |line|
      invariant Run(Start, line[..i]) == Scan(insideQuotes, insideEntry, nextWord, entries)
    {
      var nextChar := line[i];
      if IsQuote(nextChar) {
        if insideQuotes {
          insideQuotes := false;
          insideEntry := false;
        } else {
          insideQuotes := true;
          insideEntry := true;
        }
      } else if IsWhitespace(nextChar) {
        if insideQuotes || insideEntry {
          nextWord := nextWord + [nextChar];
        }
      } else if nextChar == ',' {
        if insideQuotes {
          nextWord := nextWord + [nextChar];
        } else {
          insideEntry := false;
          entries := entries + [nextWord];
          nextWord := "";
        }
      } else {
        nextWord := nextWord + [nextChar];
        insideEntry := true;
      }
      assert line[..i + 1][..i] == line[..i];
      i := i + 1;
    }
    assert line[..i] == line;
    if nextWord != "" {
      entries := entries + [Trim(nextWord)];
    }
    return Some(entries);
  }

  // ----- Reference descriptions of the state after a prefix -----

  /** Number of quote characters (of any of the three kinds) in `text`. */
  function QuoteCount(text: string): nat
  {
    if text == [] then 0
    else QuoteCount(text[..|text| - 1]) + (if IsQuote(text[|text| - 1]) then 1 else 0)
  }

  /** Inside quotes after `text`: an odd number of quote characters precede. */
  predicate Quoted(text: string) { QuoteCount(text) % 2 == 1 }

  /** Is position `i` a comma that ends an entry (one not inside quotes)? */
  predicate SeparatorAt(text: string, i: nat)
    requires i < |text|
  {
    text[i] == ',' && !Quoted(text[..i])
  }

  /** Number of commas in `text` that are outside quotes. */
  function UnquotedCommas(text: string): nat
  {
    if text == [] then 0
    else UnquotedCommas(text[..|text| - 1]) + (if SeparatorAt(text, |text| - 1) then 1 else 0)
  }

  /**
   * Is the character at position `i` content in its own right: neither a
   * quote, nor a separator, nor whitespace outside quotes? (Whitespace
   * outside quotes is kept only after content, so whether the current entry
   * is empty is decided by these characters alone.)
   */
  predicate ContentAt(text: string, i: nat)
    requires i < |text|
  {
    !IsQuote(text[i]) &&
    (Quoted(text[..i]) || (!IsWhitespace(text[i]) && text[i] != ','))
  }

  /** Has some content character occurred since the last separator? */
  predicate OpenEntry(text: string)
  {
    if text == [] then false
    else if SeparatorAt(text, |text| - 1) then false
    else OpenEntry(text[..|text| - 1]) || ContentAt(text, |text| - 1)
  }

  /** The characters of `text` that are neither quotes, nor whitespace, nor separators, in order. */
  function Essential(text: string): string
  {
    if text == [] then []
    else
      var c := text[|text| - 1];
      var kept := !IsQuote(c) && !IsWhitespace(c) && !SeparatorAt(text, |text| - 1);
      Essential(text[..|text| - 1]) + (if kept then [c] else [])
  }

  /** `text` without its whitespace. */
  function NonWhitespace(text: string): string
  {
    if text == [] then []
    else
      var c := text[|text| - 1];
      NonWhitespace(text[..|text| - 1]) + (if IsWhitespace(c) then [] else [c])
  }

  /** All entries written one after the other. */
  function Concat(entries: seq<string>): string
  {
    if entries == [] then [] else Concat(entries[..|entries| - 1]) + entries[|entries| - 1]
  }

  predicate NoQuote(s: string) { forall k :: 0 <= k < |s| ==> !IsQuote(s[k]) }

  // ----- Properties of the scan -----

  /**
   * After any prefix: the quote flag is the parity of the quotes seen; inside
   * quotes is inside an entry; one entry was finished per unquoted comma; and
   * the current entry is non-empty exactly when content followed the last
   * separator.
   */
  lemma {:induction false} ScanState(text: string)
    ensures var s := Run(Start, text);
      && (s.insideQuotes <==> Quoted(text))
      && (s.insideQuotes ==> s.insideEntry)
      && (s.insideEntry && !s.insideQuotes ==> s.nextWord != "")
      && |s.entries| == UnquotedCommas(text)
      && (s.nextWord != "" <==> OpenEntry(text))
  {
    if text != [] {
      var init, c := text[..|text| - 1], text[|text| - 1];
      ScanState(init);
      assert text[..|text| - 1] == init;
    }
  }

  /** No entry, finished or current, ever holds a quote character. */
  lemma {:induction false} ScanHasNoQuotes(text: string)
    ensures var s := Run(Start, text);
      NoQuote(s.nextWord) && forall e :: e in s.entries ==> NoQuote(e)
  {
    if text != [] {
      ScanHasNoQuotes(text[..|text| - 1]);
    }
  }

  lemma {:induction false} NonWhitespaceAppend(a: string, b: string)
    ensures NonWhitespace(a + b) == NonWhitespace(a) + NonWhitespace(b)
  {
    if b != [] {
      assert (a + b)[..|a + b| - 1] == a + b[..|b| - 1];
      NonWhitespaceAppend(a, b[..|b| - 1]);
    } else {
      assert a + b == a;
    }
  }

  /** Everything accumulated so far, finished entries first. */
  function Accumulated(s: Scan): string
  {
    Concat(s.entries) + s.nextWord
  }

  /** One step adds the character to the non-whitespace text exactly when it is essential. */
  lemma StepKeepsEssential(s: Scan, c: char)
    ensures NonWhitespace(Accumulated(Step(s, c))) == NonWhitespace(Accumulated(s)) +
      (if IsQuote(c) || IsWhitespace(c) || (c == ',' && !s.insideQuotes) then [] else [c])
  {
    var t := Step(s, c);
    if IsQuote(c) {
    } else if c == ',' && !s.insideQuotes {
      assert (s.entries + [s.nextWord])[..|s.entries|] == s.entries;
      assert Accumulated(t) == Accumulated(s);
    } else if IsWhitespace(c) && !(s.insideQuotes || s.insideEntry) {
    } else {
      assert Accumulated(t) == Accumulated(s) + [c];
      NonWhitespaceAppend(Accumulated(s), [c]);
      assert [c][..0] == [];
    }
  }

  /**
   * Apart from whitespace, the entries and the current entry hold exactly
   * the essential characters of the text, in their original order; in
   * particular every comma kept in an entry was inside quotes.
   */
  lemma {:induction false} ScanKeepsEssential(text: string)
    ensures NonWhitespace(Accumulated(Run(Start, text))) == Essential(text)
  {
    if text != [] {
      var init, c := text[..|text| - 1], text[|text| - 1];
      ScanKeepsEssential(init);
      ScanState(init);
      StepKeepsEssential(Run(Start, init), c);
      assert text[..|text| - 1] == init;
    }
  }

  lemma {:induction false} RunAppend(s: Scan, p: string, q: string)
    ensures Run(s, p + q) == Run(Run(s, p), q)
  {
    if q == [] {
      assert p + q == p;
    } else {
      assert (p + q)[..|p + q| - 1] == p + q[..|q| - 1];
      RunAppend(s, p, q[..|q| - 1]);
    }
  }

  // ----- Properties of the finished entry list -----

  /** No returned entry contains a quote character. */
  lemma TokenizeHasNoQuotes(line: string)
    ensures forall e :: e in Tokenize(line) ==> NoQuote(e)
  {
    ScanHasNoQuotes(line);
    var s := Run(Start, line);
    if s.nextWord != "" {
      var t := Trim(s.nextWord);
      assert forall k :: 0 <= k < |t| ==> t[k] == s.nextWord[KeptFrom(s.nextWord, 0) + k];
    }
  }

  /**
   * One entry per unquoted comma, plus a last one exactly when content
   * followed the last unquoted comma: a line ending in a separator gets no
   * empty trailing entry.
   */
  lemma EntryCount(line: string)
    ensures |Tokenize(line)| == UnquotedCommas(line) + (if OpenEntry(line) then 1 else 0)
  {
    ScanState(line);
  }

  /**
   * Entries ended by a separator are returned as accumulated, untrimmed;
   * only the last entry is trimmed.
   */
  lemma OnlyLastEntryTrimmed(line: string)
    ensures var s := Run(Start, line);
      Tokenize(line) == if OpenEntry(line) then s.entries + [Trim(s.nextWord)] else s.entries
  {
    ScanState(line);
  }

  /** At the start of an entry, outside quotes, nothing accumulated yet. */
  predicate AtEntryStart(s: Scan)
  {
    !s.insideQuotes && !s.insideEntry && s.nextWord == ""
  }

  lemma {:induction false} EntryStartAfterSeparator(p: string)
    requires p == [] || SeparatorAt(p, |p| - 1)
    ensures AtEntryStart(Run(Start, p))
  {
    if p != [] {
      ScanState(p[..|p| - 1]);
      assert p[..|p| - 1] + [p[|p| - 1]] == p;
    }
  }

  /** Whitespace at the start of an entry, outside quotes, is dropped. */
  lemma {:induction false} LeadingWhitespaceDropped(p: string, w: string, q: string)
    requires p == [] || SeparatorAt(p, |p| - 1)
    requires forall k :: 0 <= k < |w| ==> IsWhitespace(w[k])
    ensures Tokenize(p + w + q) == Tokenize(p + q)
  {
    EntryStartAfterSeparator(p);
    RunAppend(Start, p, w);
    RunAppend(Start, p + w, q);
    RunAppend(Start, p, q);
    WhitespaceIsIdle(Run(Start, p), w);
  }

  lemma {:induction false} WhitespaceIsIdle(s: Scan, w: string)
    requires AtEntryStart(s)
    requires forall k :: 0 <= k < |w| ==> IsWhitespace(w[k])
    ensures Run(s, w) == s
  {
    if w != [] {
      WhitespaceIsIdle(s, w[..|w| - 1]);
    }
  }

  /**
   * Has a character other than whitespace, a comma or a quote occurred since
   * the last quote character and the last separator? A closing quote resets
   * this as a separator does, although the entry goes on.
   */
  predicate ContentSinceBreak(text: string)
  {
    if text == [] then false
    else
      var c := text[|text| - 1];
      if IsQuote(c) || SeparatorAt(text, |text| - 1) then false
      else if !IsWhitespace(c) && c != ',' then true
      else ContentSinceBreak(text[..|text| - 1])
  }

  /** Is whitespace read after `text` kept: inside quotes, or after content since the last break. */
  predicate KeepsWhitespace(text: string)
  {
    Quoted(text) || ContentSinceBreak(text)
  }

  /** The entry flag after any prefix, described without the machine. */
  lemma {:induction false} EntryFlag(text: string)
    ensures Run(Start, text).insideEntry <==> KeepsWhitespace(text)
  {
    if text != [] {
      var init := text[..|text| - 1];
      EntryFlag(init);
      ScanState(init);
    }
  }

  /**
   * Whitespace is appended to the current entry exactly when the prefix
   * before it keeps whitespace, and is dropped otherwise; the finished
   * entries are unchanged either way.
   */
  lemma WhitespaceKeptExactly(p: string, c: char)
    requires IsWhitespace(c)
    ensures Run(Start, p + [c]).entries == Run(Start, p).entries
    ensures Accumulated(Run(Start, p + [c])) ==
      Accumulated(Run(Start, p)) + (if KeepsWhitespace(p) then [c] else [])
  {
    assert (p + [c])[..|p + [c]| - 1] == p;
    EntryFlag(p);
    ScanState(p);
  }

  /**
   * Right after a closing quote the entry has started, yet whitespace is
   * dropped until the next content character.
   */
  lemma SpaceAfterClosingQuoteDropped(p: string, c: char)
    requires p != [] && IsQuote(p[|p| - 1]) && Quoted(p[..|p| - 1])
    requires IsWhitespace(c)
    ensures !KeepsWhitespace(p)
    ensures Run(Start, p + [c]) == Run(Start, p)
  {
    assert p[..|p| - 1] + [p[|p| - 1]] == p;
    assert (p + [c])[..|p + [c]| - 1] == p;
    EntryFlag(p);
    ScanState(p);
  }

  // ----- Worked examples -----

  /** The same fold as `Run`, taken from the front; convenient for concrete lines. */
  function RunForward(s: Scan, text: string): Scan
    decreases |text|
  {
    if text == [] then s else RunForward(Step(s, text[0]), text[1..])
  }

  lemma {:induction false} RunForwardAgrees(s: Scan, text: string)
    ensures Run(s, text) == RunForward(s, text)
    decreases |text|
  {
    if text != [] {
      RunAppend(s, [text[0]], text[1..]);
      assert [text[0]] + text[1..] == text;
      assert Run(s, [text[0]]) == Step(s, text[0]) by { assert [text[0]][..0] == []; }
      RunForwardAgrees(Step(s, text[0]), text[1..]);
    }
  }

  lemma {:induction false} RunForwardConcat(s: Scan, p: string, q: string)
    ensures RunForward(s, p + q) == RunForward(RunForward(s, p), q)
    decreases |p|
  {
    if p != [] {
      assert (p + q)[0] == p[0] && (p + q)[1..] == p[1..] + q;
      RunForwardConcat(Step(s, p[0]), p[1..], q);
    } else {
      assert p + q == q;
    }
  }

  // Each worked example is taken a few characters at a time.

  lemma QuotedCommaSteps1()
    ensures RunForward(Start, "a,\"") == Scan(true, true, "", ["a"])
  {
    assert Step(Scan(false, false, "", []), 'a') == Scan(false, true, "a", []) by {
      assert "" + ['a'] == "a";
    }
    assert Step(Scan(false, true, "a", []), ',') == Scan(false, false, "", ["a"]) by {
      assert [] + ["a"] == ["a"];
    }
    assert Step(Scan(false, false, "", ["a"]), '"') == Scan(true, true, "", ["a"]);
    assert "a,\""[0] == 'a' && "a,\""[1..] == ",\"";
    assert ",\""[0] == ',' && ",\""[1..] == "\"";
    assert "\""[0] == '"' && "\""[1..] == "";
  }

  lemma QuotedCommaSteps2()
    ensures RunForward(Scan(true, true, "", ["a"]), "b,c\"") == Scan(false, false, "b,c", ["a"])
  {
    assert Step(Scan(true, true, "", ["a"]), 'b') == Scan(true, true, "b", ["a"]) by {
      assert "" + ['b'] == "b";
    }
    assert Step(Scan(true, true, "b", ["a"]), ',') == Scan(true, true, "b,", ["a"]) by {
      assert "b" + [','] == "b,";
    }
    assert Step(Scan(true, true, "b,", ["a"]), 'c') == Scan(true, true, "b,c", ["a"]) by {
      assert "b," + ['c'] == "b,c";
    }
    assert Step(Scan(true, true, "b,c", ["a"]), '"') == Scan(false, false, "b,c", ["a"]);
    assert "b,c\""[0] == 'b' && "b,c\""[1..] == ",c\"";
    assert ",c\""[0] == ',' && ",c\""[1..] == "c\"";
    assert "c\""[0] == 'c' && "c\""[1..] == "\"";
    assert "\""[0] == '"' && "\""[1..] == "";
  }

  lemma QuotedCommaSteps3()
    ensures RunForward(Scan(false, false, "b,c", ["a"]), ",d") == Scan(false, true, "d", ["a", "b,c"])
  {
    assert Step(Scan(false, false, "b,c", ["a"]), ',') == Scan(false, false, "", ["a", "b,c"]) by {
      assert ["a"] + ["b,c"] == ["a", "b,c"];
    }
    assert Step(Scan(false, false, "", ["a", "b,c"]), 'd') == Scan(false, true, "d", ["a", "b,c"]) by {
      assert "" + ['d'] == "d";
    }
    assert ",d"[0] == ',' && ",d"[1..] == "d";
    assert "d"[0] == 'd' && "d"[1..] == "";
  }

  /** A quoted entry keeps its comma; the quotes themselves are dropped. */
  lemma ExampleQuotedComma(line: string)
    requires line == "a,\"b,c\",d"
    ensures Tokenize(line) == ["a", "b,c", "d"]
  {
    assert Run(Start, line) == Scan(false, true, "d", ["a", "b,c"]) by {
      RunForwardAgrees(Start, line);
      assert line == "a,\"" + "b,c\"" + ",d";
      RunForwardConcat(Start, "a,\"" + "b,c\"", ",d");
      RunForwardConcat(Start, "a,\"", "b,c\"");
      QuotedCommaSteps1();
      QuotedCommaSteps2();
      QuotedCommaSteps3();
    }
    TrimUntrimmed("d");
  }

  lemma EmptyMiddleSteps1()
    ensures RunForward(Start, "a,") == Scan(false, false, "", ["a"])
  {
    assert Step(Scan(false, false, "", []), 'a') == Scan(false, true, "a", []) by {
      assert "" + ['a'] == "a";
    }
    assert Step(Scan(false, true, "a", []), ',') == Scan(false, false, "", ["a"]) by {
      assert [] + ["a"] == ["a"];
    }
    assert "a,"[0] == 'a' && "a,"[1..] == ",";
    assert ","[0] == ',' && ","[1..] == "";
  }

  lemma EmptyMiddleSteps2()
    ensures RunForward(Scan(false, false, "", ["a"]), ",b") == Scan(false, true, "b", ["a", ""])
  {
    assert Step(Scan(false, false, "", ["a"]), ',') == Scan(false, false, "", ["a", ""]) by {
      assert ["a"] + [""] == ["a", ""];
    }
    assert Step(Scan(false, false, "", ["a", ""]), 'b') == Scan(false, true, "b", ["a", ""]) by {
      assert "" + ['b'] == "b";
    }
    assert ",b"[0] == ',' && ",b"[1..] == "b";
    assert "b"[0] == 'b' && "b"[1..] == "";
  }

  /** Two adjacent separators give an empty entry between them. */
  lemma ExampleEmptyMiddle(line: string)
    requires line == "a,,b"
    ensures Tokenize(line) == ["a", "", "b"]
  {
    assert Run(Start, line) == Scan(false, true, "b", ["a", ""]) by {
      RunForwardAgrees(Start, line);
      assert line == "a," + ",b";
      RunForwardConcat(Start, "a,", ",b");
      EmptyMiddleSteps1();
      EmptyMiddleSteps2();
    }
    TrimUntrimmed("b");
  }

  lemma TrailingSeparatorSteps2()
    ensures RunForward(Scan(false, false, "", ["a"]), "b,") == Scan(false, false, "", ["a", "b"])
  {
    assert Step(Scan(false, false, "", ["a"]), 'b') == Scan(false, true, "b", ["a"]) by {
      assert "" + ['b'] == "b";
    }
    assert Step(Scan(false, true, "b", ["a"]), ',') == Scan(false, false, "", ["a", "b"]) by {
      assert ["a"] + ["b"] == ["a", "b"];
    }
    assert "b,"[0] == 'b' && "b,"[1..] == ",";
    assert ","[0] == ',' && ","[1..] == "";
  }

  /** A trailing separator adds no empty last entry. */
  lemma ExampleTrailingSeparator(line: string)
    requires line == "a,b,"
    ensures Tokenize(line) == ["a", "b"]
  {
    assert Run(Start, line) == Scan(false, false, "", ["a", "b"]) by {
      RunForwardAgrees(Start, line);
      assert line == "a," + "b,";
      RunForwardConcat(Start, "a,", "b,");
      EmptyMiddleSteps1();
      TrailingSeparatorSteps2();
    }
  }

  lemma WhitespaceSteps1()
    ensures RunForward(Start, " x ") == Scan(false, true, "x ", [])
  {
    assert Step(Scan(false, false, "", []), ' ') == Scan(false, false, "", []);
    assert Step(Scan(false, false, "", []), 'x') == Scan(false, true, "x", []) by {
      assert "" + ['x'] == "x";
    }
    assert Step(Scan(false, true, "x", []), ' ') == Scan(false, true, "x ", []) by {
      assert "x" + [' '] == "x ";
    }
    assert " x "[0] == ' ' && " x "[1..] == "x ";
    assert "x "[0] == 'x' && "x "[1..] == " ";
    assert " "[0] == ' ' && " "[1..] == "";
  }

  lemma WhitespaceSteps2()
    ensures RunForward(Scan(false, true, "x ", []), ",y ") == Scan(false, true, "y ", ["x "])
  {
    assert Step(Scan(false, true, "x ", []), ',') == Scan(false, false, "", ["x "]) by {
      assert [] + ["x "] == ["x "];
    }
    assert Step(Scan(false, false, "", ["x "]), 'y') == Scan(false, true, "y", ["x "]) by {
      assert "" + ['y'] == "y";
    }
    assert Step(Scan(false, true, "y", ["x "]), ' ') == Scan(false, true, "y ", ["x "]) by {
      assert "y" + [' '] == "y ";
    }
    assert ",y "[0] == ',' && ",y "[1..] == "y ";
    assert "y "[0] == 'y' && "y "[1..] == " ";
    assert " "[0] == ' ' && " "[1..] == "";
  }

  /** Leading blanks are dropped, a separated entry keeps its trailing blank, the last is trimmed. */
  lemma ExampleWhitespace(line: string)
    requires line == " x ,y "
    ensures Tokenize(line) == ["x ", "y"]
  {
    assert Run(Start, line) == Scan(false, true, "y ", ["x "]) by {
      RunForwardAgrees(Start, line);
      assert line == " x " + ",y ";
      RunForwardConcat(Start, " x ", ",y ");
      WhitespaceSteps1();
      WhitespaceSteps2();
    }
    assert Trim("y ") == "y" by {
      assert KeptFrom("y ", 0) == 0;
      assert KeptUntil("y ", 0, 2) == 1;
    }
  }

  lemma SmartQuoteSteps1()
    ensures RunForward(Start, "\"ab") == Scan(true, true, "ab", [])
  {
    assert Step(Scan(false, false, "", []), '"') == Scan(true, true, "", []);
    assert Step(Scan(true, true, "", []), 'a') == Scan(true, true, "a", []) by {
      assert "" + ['a'] == "a";
    }
    assert Step(Scan(true, true, "a", []), 'b') == Scan(true, true, "ab", []) by {
      assert "a" + ['b'] == "ab";
    }
    assert "\"ab"[0] == '"' && "\"ab"[1..] == "ab";
    assert "ab"[0] == 'a' && "ab"[1..] == "b";
    assert "b"[0] == 'b' && "b"[1..] == "";
  }

  lemma SmartQuoteSteps2()
    ensures RunForward(Scan(true, true, "ab", []), " \U{201D} ") == Scan(false, false, "ab ", [])
  {
    assert Step(Scan(true, true, "ab", []), ' ') == Scan(true, true, "ab ", []) by {
      assert "ab" + [' '] == "ab ";
    }
    assert Step(Scan(true, true, "ab ", []), '\U{201D}') == Scan(false, false, "ab ", []);
    assert Step(Scan(false, false, "ab ", []), ' ') == Scan(false, false, "ab ", []);
    assert " \U{201D} "[0] == ' ' && " \U{201D} "[1..] == "\U{201D} ";
    assert "\U{201D} "[0] == '\U{201D}' && "\U{201D} "[1..] == " ";
    assert " "[0] == ' ' && " "[1..] == "";
  }

  lemma SmartQuoteSteps3()
    ensures RunForward(Scan(false, false, "ab ", []), "c\"") == Scan(true, true, "ab c", [])
  {
    assert Step(Scan(false, false, "ab ", []), 'c') == Scan(false, true, "ab c", []) by {
      assert "ab " + ['c'] == "ab c";
    }
    assert Step(Scan(false, true, "ab c", []), '"') == Scan(true, true, "ab c", []);
    assert "c\""[0] == 'c' && "c\""[1..] == "\"";
    assert "\""[0] == '"' && "\""[1..] == "";
  }

  /** A typographic closing quote ends a quoted run opened by a plain quote. */
  lemma ExampleSmartQuote(line: string)
    requires line == "\"ab \U{201D} c\""
    ensures Tokenize(line) == ["ab c"]
  {
    assert Run(Start, line) == Scan(true, true, "ab c", []) by {
      RunForwardAgrees(Start, line);
      assert line == "\"ab" + " \U{201D} " + "c\"";
      RunForwardConcat(Start, "\"ab" + " \U{201D} ", "c\"");
      RunForwardConcat(Start, "\"ab", " \U{201D} ");
      SmartQuoteSteps1();
      SmartQuoteSteps2();
      SmartQuoteSteps3();
    }
    TrimUntrimmed("ab c");
  }

  lemma ClosingQuoteSteps1()
    ensures RunForward(Start, "\"a\"") == Scan(false, false, "a", [])
  {
    assert Step(Scan(false, false, "", []), '"') == Scan(true, true, "", []);
    assert Step(Scan(true, true, "", []), 'a') == Scan(true, true, "a", []) by {
      assert "" + ['a'] == "a";
    }
    assert Step(Scan(true, true, "a", []), '"') == Scan(false, false, "a", []);
    assert "\"a\""[0] == '"' && "\"a\""[1..] == "a\"";
    assert "a\""[0] == 'a' && "a\""[1..] == "\"";
    assert "\""[0] == '"' && "\""[1..] == "";
  }

  lemma ClosingQuoteSteps2()
    ensures RunForward(Scan(false, false, "a", []), " b") == Scan(false, true, "ab", [])
  {
    assert Step(Scan(false, false, "a", []), ' ') == Scan(false, false, "a", []);
    assert Step(Scan(false, false, "a", []), 'b') == Scan(false, true, "ab", []) by {
      assert "a" + ['b'] == "ab";
    }
    assert " b"[0] == ' ' && " b"[1..] == "b";
    assert "b"[0] == 'b' && "b"[1..] == "";
  }

  /** A blank right after a closing quote is dropped, although the entry goes on. */
  lemma ExampleSpaceAfterClosingQuote(line: string)
    requires line == "\"a\" b"
    ensures Tokenize(line) == ["ab"]
  {
    assert Run(Start, line) == Scan(false, true, "ab", []) by {
      RunForwardAgrees(Start, line);
      assert line == "\"a\"" + " b";
      RunForwardConcat(Start, "\"a\"", " b");
      ClosingQuoteSteps1();
      ClosingQuoteSteps2();
    }
    TrimUntrimmed("ab");
  }
}
