/** The Excel-dialect CSV row scanner (readCSVRow) and the line splitter around it (readCSV). */
module Csv {
  import opened Text
  import opened Sequences

  /** The scanner's three states. */
  datatype State = UnquotedField | QuotedField | QuotedQuote

  /** A scanner configuration: the state, the fields emitted so far and the pending text. */
  datatype Scan = Scan(state: State, fields: seq<string>, cur: string)

  const Start := Scan(UnquotedField, [], [])

  /** Ends the pending field: it is trimmed, appended, and scanning resumes unquoted. */
  function EndField(s: Scan): Scan {
    Scan(UnquotedField, s.fields + [Trim(s.cur)], [])
  }

  /** One character of the scanner's state machine. */
  function Step(s: Scan, c: char): Scan {
    match s.state
    case UnquotedField =>
      if c == ',' then EndField(s)
      else if c == '"' then s.(state := QuotedField)
      else s.(cur := s.cur + [c])
    case QuotedField =>
      if c == '"' then s.(state := QuotedQuote)
      else s.(cur := s.cur + [c])
    case QuotedQuote =>
      // a character other than ',' or '"' after a closing quote is dropped
      if c == ',' then EndField(s)
      else if c == '"' then Scan(QuotedField, s.fields, s.cur + ['"'])
      else s.(state := UnquotedField)
  }

  /** Feeds `w` to the scanner, left to right, from configuration `s`. */
  function RunFrom(s: Scan, w: string): Scan
    decreases |w|
  {
    if w == [] then s else RunFrom(Step(s, w[0]), w[1..])
  }

  /** End of line: the pending text becomes a last field only when it is not empty
      (the check is made before trimming). */
  function Finish(s: Scan): seq<string> {
    if s.cur != [] then s.fields + [Trim(s.cur)] else s.fields
  }

  /** The fields of one CSV line. */
  function ReadCsvRow(line: string): seq<string> {
    Finish(RunFrom(Start, line))
  }

  /** The lines `getline` yields from a whole stream: text up to each '\n', plus a final
      unterminated line when the text does not end with '\n'. */
  function SplitLines(text: string): (lines: seq<string>)
    ensures forall i :: 0 <= i < |lines| ==> '\n' !in lines[i]
    decreases |text|
  {
    if text == [] then []
    else if '\n' !in text then [text]
    else
      var k := NewlineIndex(text);
      [text[..k]] + SplitLines(text[k + 1..])
  }

  function NewlineIndex(text: string): (k: nat)
    requires '\n' in text
    ensures k < |text| && text[k] == '\n' && '\n' !in text[..k]
    decreases |text|
  {
    if text[0] == '\n' then 0
    else
      assert '\n' in text[1..] by {
        var j :| 0 <= j < |text| && text[j] == '\n';
        assert text[1..][j - 1] == '\n';
      }
      var k := 1 + NewlineIndex(text[1..]);
      assert text[..k] == [text[0]] + text[1..][..k - 1];
      k
  }

  /** The table read from a CSV stream: every line scanned into its fields. */
  function ReadCsv(text: string): (table: seq<seq<string>>)
    ensures |table| == |SplitLines(text)|
  {
    var lines := SplitLines(text);
    seq(|lines|, i requires 0 <= i < |lines| => ReadCsvRow(lines[i]))
  }

  /** Lines joined with '\n' terminators. */
  function JoinLines(lines: seq<string>): string
    decreases |lines|
  {
    if lines == [] then [] else lines[0] + "\n" + JoinLines(lines[1..])
  }

  // ---------------------------------------------------------------------------
  // Composition of the fold

  lemma {:induction false} RunFromAppend(s: Scan, a: string, b: string)
    ensures RunFrom(s, a + b) == RunFrom(RunFrom(s, a), b)
    decreases |a|
  {
    if a == [] {
      assert a + b == b;
    } else {
      assert (a + b)[0] == a[0];
      assert (a + b)[1..] == a[1..] + b;
      RunFromAppend(Step(s, a[0]), a[1..], b);
    }
  }

  lemma RunFromSnoc(s: Scan, w: string, c: char)
    ensures RunFrom(s, w + [c]) == Step(RunFrom(s, w), c)
  {
    RunFromAppend(s, w, [c]);
  }

  // ---------------------------------------------------------------------------
  // A declarative account of the scanner in terms of quote parity

  function QuoteCount(w: string): nat {
    Occurrences(w, '"')
  }

  /** Commas that end a field: those preceded by an even number of '"'. */
  function SeparatorCount(w: string): nat
    decreases |w|
  {
    if w == [] then 0
    else
      var init := w[..|w| - 1];
      SeparatorCount(init) + (if w[|w| - 1] == ',' && QuoteCount(init) % 2 == 0 then 1 else 0)
  }

  /** Doubled quotes read inside a quoted field: positions holding a '"' right after a '"' that
      leaves an even number of '"' before it, that is, right after a closing quote. The two
      quotes of an empty quoted field (`a,"",b`) are not counted; in `""""` only the middle
      pair is. */
  function EscapedQuoteCount(w: string): nat
    decreases |w|
  {
    if |w| < 2 then 0
    else
      var init := w[..|w| - 1];
      EscapedQuoteCount(init)
      + (if init[|init| - 1] == '"' && QuoteCount(init) % 2 == 0 && w[|w| - 1] == '"' then 1 else 0)
  }

  /** The characters of all fields, concatenated. */
  function Concat(fields: seq<string>): string
    decreases |fields|
  {
    if fields == [] then [] else Concat(fields[..|fields| - 1]) + fields[|fields| - 1]
  }

  lemma QuoteCountSnoc(w: string, c: char)
    ensures QuoteCount(w + [c]) == QuoteCount(w) + (if c == '"' then 1 else 0)
  {
    OccurrencesAppend(w, [c], '"');
  }

  /** One step flips "inside quotes" exactly on '"', closes a quote only from inside quotes,
      and ends a field exactly on a ',' read outside quotes. */
  lemma StepFacts(s: Scan, c: char)
    ensures Step(s, c).state == QuotedField <==> (s.state == QuotedField) != (c == '"')
    ensures Step(s, c).state == QuotedQuote <==> s.state == QuotedField && c == '"'
    ensures |Step(s, c).fields| == |s.fields| + (if c == ',' && s.state != QuotedField then 1 else 0)
  {
  }

  /** After any prefix of a line, the scanner is inside quotes exactly when the prefix holds an
      odd number of '"', and it has just closed a quote exactly when the count is even and the
      prefix ends with '"'. */
  lemma {:induction false} ScanParity(w: string)
    ensures RunFrom(Start, w).state == QuotedField <==> QuoteCount(w) % 2 == 1
    ensures RunFrom(Start, w).state == QuotedQuote <==>
              QuoteCount(w) % 2 == 0 && |w| > 0 && w[|w| - 1] == '"'
    decreases |w|
  {
    if w != [] {
      var init := w[..|w| - 1];
      var c := w[|w| - 1];
      assert w == init + [c];
      ScanParity(init);
      RunFromSnoc(Start, init, c);
      QuoteCountSnoc(init, c);
      ParityStep(RunFrom(Start, init), c, QuoteCount(init), init, w);
    }
  }

  /** The induction step of `ScanParity`, with the prefix's facts as hypotheses. */
  lemma ParityStep(s: Scan, c: char, n: nat, init: string, w: string)
    requires w == init + [c] && QuoteCount(w) == n + (if c == '"' then 1 else 0)
    requires s.state == QuotedField <==> n % 2 == 1
    requires s.state == QuotedQuote <==> n % 2 == 0 && |init| > 0 && init[|init| - 1] == '"'
    ensures Step(s, c).state == QuotedField <==> QuoteCount(w) % 2 == 1
    ensures Step(s, c).state == QuotedQuote <==> QuoteCount(w) % 2 == 0 && w[|w| - 1] == '"'
  {
    StepFacts(s, c);
    assert w[|w| - 1] == c;
    if c == '"' {
      assert QuoteCount(w) % 2 == 1 <==> n % 2 == 0;
    } else {
      assert QuoteCount(w) == n;
    }
  }

  /** After any prefix of a line, the scanner has emitted one field per separator comma. */
  lemma {:induction false} ScanFieldCount(w: string)
    ensures |RunFrom(Start, w).fields| == SeparatorCount(w)
    decreases |w|
  {
    if w != [] {
      var init := w[..|w| - 1];
      var c := w[|w| - 1];
      assert w == init + [c];
      ScanFieldCount(init);
      ScanParity(init);
      RunFromSnoc(Start, init, c);
      StepFacts(RunFrom(Start, init), c);
    }
  }

  lemma ScanInvariant(w: string)
    ensures RunFrom(Start, w).state == QuotedField <==> QuoteCount(w) % 2 == 1
    ensures RunFrom(Start, w).state == QuotedQuote <==>
              QuoteCount(w) % 2 == 0 && |w| > 0 && w[|w| - 1] == '"'
    ensures |RunFrom(Start, w).fields| == SeparatorCount(w)
  {
    ScanParity(w);
    ScanFieldCount(w);
  }

  /** A line yields one field per separator comma, plus possibly a last one; an empty line yields
      none, and a separator comma at the very end adds no empty field after it. */
  lemma FieldCount(line: string)
    ensures |ReadCsvRow(line)| == SeparatorCount(line) || |ReadCsvRow(line)| == SeparatorCount(line) + 1
    ensures line == [] ==> ReadCsvRow(line) == []
    ensures |line| > 0 && line[|line| - 1] == ',' && QuoteCount(line[..|line| - 1]) % 2 == 0 ==>
              |ReadCsvRow(line)| == SeparatorCount(line)
  {
    ScanFieldCount(line);
    FinishLength(RunFrom(Start, line));
    if |line| > 0 && line[|line| - 1] == ',' && QuoteCount(line[..|line| - 1]) % 2 == 0 {
      var init := line[..|line| - 1];
      assert line == init + [','];
      QuoteCountSnoc(init, ',');
      AfterSeparator(line);
    }
  }

  lemma FinishLength(s: Scan)
    ensures |Finish(s)| == |s.fields| + (if s.cur != [] then 1 else 0)
  {
  }

  /** One step adds a '"' to the text exactly when it reads '"' right after a closing quote. */
  lemma StepQuotes(s: Scan, c: char)
    ensures QuoteCount(Concat(Step(s, c).fields)) + QuoteCount(Step(s, c).cur)
              == QuoteCount(Concat(s.fields)) + QuoteCount(s.cur)
                 + (if s.state == QuotedQuote && c == '"' then 1 else 0)
  {
    var t := Step(s, c);
    if t.fields != s.fields {
      assert t == EndField(s);
      EndFieldQuotes(s);
    } else if t.cur != s.cur {
      assert t.cur == s.cur + [t.cur[|s.cur|]];
      QuoteCountSnoc(s.cur, t.cur[|s.cur|]);
    }
  }

  /** Ending a field moves the pending text, trimmed, into the fields; trimming keeps every '"'. */
  lemma EndFieldQuotes(s: Scan)
    ensures QuoteCount(Concat(EndField(s).fields)) + QuoteCount(EndField(s).cur)
              == QuoteCount(Concat(s.fields)) + QuoteCount(s.cur)
  {
    var fs := s.fields + [Trim(s.cur)];
    assert fs[..|fs| - 1] == s.fields;
    OccurrencesAppend(Concat(s.fields), Trim(s.cur), '"');
    TrimOccurrences(s.cur, '"');
  }

  /** After any prefix, the '"' characters in the fields and the pending text are exactly the
      doubled quotes read inside quoted fields. */
  lemma {:induction false} QuotesComeFromEscapes(w: string)
    ensures QuoteCount(Concat(RunFrom(Start, w).fields)) + QuoteCount(RunFrom(Start, w).cur)
              == EscapedQuoteCount(w)
    decreases |w|
  {
    if w != [] {
      var init := w[..|w| - 1];
      var c := w[|w| - 1];
      assert w == init + [c];
      QuotesComeFromEscapes(init);
      RunFromSnoc(Start, init, c);
      StepQuotes(RunFrom(Start, init), c);
      EscapedQuoteSnoc(init, c);
    }
  }

  /** The counted positions are exactly the '"' the scanner reads just after a closing quote. */
  lemma EscapedQuoteSnoc(init: string, c: char)
    ensures EscapedQuoteCount(init + [c]) == EscapedQuoteCount(init)
              + (if RunFrom(Start, init).state == QuotedQuote && c == '"' then 1 else 0)
  {
    ScanInvariant(init);
    var w := init + [c];
    assert w[..|w| - 1] == init;
  }

  /** The fields of a line hold exactly as many '"' as the line has doubled quotes inside quoted
      fields; in particular they hold none exactly when the line has no such pair. */
  lemma RowQuotes(line: string)
    ensures QuoteCount(Concat(ReadCsvRow(line))) == EscapedQuoteCount(line)
    ensures QuoteCount(Concat(ReadCsvRow(line))) == 0 <==> EscapedQuoteCount(line) == 0
  {
    var s := RunFrom(Start, line);
    QuotesComeFromEscapes(line);
    FinishQuotes(s);
  }

  /** The end of the line keeps every '"' of the pending text. */
  lemma FinishQuotes(s: Scan)
    ensures QuoteCount(Concat(Finish(s))) == QuoteCount(Concat(s.fields)) + QuoteCount(s.cur)
  {
    if s.cur != [] {
      var fs := s.fields + [Trim(s.cur)];
      assert fs[..|fs| - 1] == s.fields;
      OccurrencesAppend(Concat(s.fields), Trim(s.cur), '"');
      TrimOccurrences(s.cur, '"');
    }
  }

  /** The last field of a line: after a separator comma, or at the start of the line, text with
      no ',' or '"' becomes one more field, trimmed, exactly when it is not empty before
      trimming. So `a,` reads as one field, while `a, ` reads as two, the second empty. */
  lemma LastField(pre: string, tail: string)
    requires pre == [] || (pre[|pre| - 1] == ',' && QuoteCount(pre) % 2 == 0)
    requires ',' !in tail && '"' !in tail
    ensures ReadCsvRow(pre + tail) == RunFrom(Start, pre).fields + (if tail == [] then [] else [Trim(tail)])
    ensures |ReadCsvRow(pre + tail)| == SeparatorCount(pre) + (if tail == [] then 0 else 1)
    ensures tail != [] && (forall k :: 0 <= k < |tail| ==> IsWhitespace(tail[k])) ==>
              ReadCsvRow(pre + tail) == RunFrom(Start, pre).fields + [[]]
  {
    LastFieldRun(pre, tail);
    ScanFieldCount(pre);
    if tail != [] && (forall k :: 0 <= k < |tail| ==> IsWhitespace(tail[k])) {
      TrimBlank(tail);
    }
  }

  /** After a separator comma, or before anything, the scanner is outside quotes with nothing
      pending, so text with no ',' or '"' is simply collected. */
  lemma LastFieldRun(pre: string, tail: string)
    requires pre == [] || (pre[|pre| - 1] == ',' && QuoteCount(pre) % 2 == 0)
    requires ',' !in tail && '"' !in tail
    ensures RunFrom(Start, pre + tail) == Scan(UnquotedField, RunFrom(Start, pre).fields, tail)
  {
    AfterSeparator(pre);
    RunFromAppend(Start, pre, tail);
    PlainRun(RunFrom(Start, pre).fields, [], tail);
    LeftUnit(tail);
  }

  lemma AfterSeparator(pre: string)
    requires pre == [] || (pre[|pre| - 1] == ',' && QuoteCount(pre) % 2 == 0)
    ensures RunFrom(Start, pre).state == UnquotedField && RunFrom(Start, pre).cur == []
  {
    if pre != [] {
      var init := pre[..|pre| - 1];
      assert pre == init + [','];
      QuoteCountSnoc(init, ',');
      ScanInvariant(init);
      RunFromSnoc(Start, init, ',');
    }
  }

  // ---------------------------------------------------------------------------
  // Round trip with an RFC 4180 style encoder

  /** Each '"' written twice. */
  function Double(f: string): string
    decreases |f|
  {
    if f == [] then [] else (if f[0] == '"' then "\"\"" else [f[0]]) + Double(f[1..])
  }

  /** A field that needs no quoting. */
  predicate Plain(f: string) {
    ',' !in f && '"' !in f
  }

  /** A field quoted only when it holds a ',' or '"'. */
  function Encode(f: string): string {
    if Plain(f) then f else "\"" + Double(f) + "\""
  }

  /** Encoded fields joined with ','. */
  function EncodeRow(fs: seq<string>): string
    decreases |fs|
  {
    if fs == [] then []
    else if |fs| == 1 then Encode(fs[0])
    else Encode(fs[0]) + "," + EncodeRow(fs[1..])
  }

  lemma {:induction false} PlainRun(fields: seq<string>, acc: string, f: string)
    requires Plain(f)
    ensures RunFrom(Scan(UnquotedField, fields, acc), f) == Scan(UnquotedField, fields, acc + f)
    decreases |f|
  {
    if f == [] {
      assert acc + f == acc;
    } else {
      assert Plain(f[1..]) by {
        assert forall k :: 0 <= k < |f[1..]| ==> f[1..][k] == f[k + 1];
      }
      PlainRun(fields, acc + [f[0]], f[1..]);
      assert acc + [f[0]] + f[1..] == acc + f;
    }
  }

  lemma {:induction false} DoubledRun(fields: seq<string>, acc: string, f: string)
    ensures RunFrom(Scan(QuotedField, fields, acc), Double(f) + "\"") == Scan(QuotedQuote, fields, acc + f)
    decreases |f|
  {
    if f == [] {
      assert Double(f) + "\"" == "\"";
      assert acc + f == acc;
    } else {
      var head := if f[0] == '"' then "\"\"" else [f[0]];
      assert Double(f) + "\"" == head + (Double(f[1..]) + "\"");
      var s := Scan(QuotedField, fields, acc);
      RunFromAppend(s, head, Double(f[1..]) + "\"");
      if f[0] == '"' {
        RunFromAppend(s, ['"'], ['"']);
      }
      assert RunFrom(s, head) == Scan(QuotedField, fields, acc + [f[0]]);
      DoubledRun(fields, acc + [f[0]], f[1..]);
      assert acc + [f[0]] + f[1..] == acc + f;
    }
  }

  /** An encoded field leaves its text pending, outside quotes. */
  lemma EncodedRun(fields: seq<string>, f: string)
    ensures RunFrom(Scan(UnquotedField, fields, []), Encode(f)).state != QuotedField
    ensures RunFrom(Scan(UnquotedField, fields, []), Encode(f)).fields == fields
    ensures RunFrom(Scan(UnquotedField, fields, []), Encode(f)).cur == f
  {
    if Plain(f) {
      PlainRun(fields, [], f);
      assert [] + f == f;
    } else {
      var open := Scan(UnquotedField, fields, []);
      assert Encode(f) == "\"" + (Double(f) + "\"");
      RunFromAppend(open, "\"", Double(f) + "\"");
      DoubledRun(fields, [], f);
      assert [] + f == f;
    }
  }

  /** An encoded field followed by ',' emits exactly that field. */
  lemma EncodedFieldThenComma(fields: seq<string>, f: string, rest: string)
    requires Trimmed(f)
    ensures RunFrom(Scan(UnquotedField, fields, []), Encode(f) + "," + rest)
              == RunFrom(Scan(UnquotedField, fields + [f], []), rest)
  {
    var open := Scan(UnquotedField, fields, []);
    Associative(Encode(f), ",", rest);
    RunFromAppend(open, Encode(f), "," + rest);
    EncodedRun(fields, f);
    var mid := RunFrom(open, Encode(f));
    assert ("," + rest)[1..] == rest;
    TrimOfTrimmed(f);
    assert Step(mid, ',') == Scan(UnquotedField, fields + [f], []);
  }

  lemma {:induction false} EncodeRowRun(fields: seq<string>, fs: seq<string>)
    requires |fs| > 0
    requires forall i :: 0 <= i < |fs| ==> Trimmed(fs[i])
    ensures RunFrom(Scan(UnquotedField, fields, []), EncodeRow(fs)).state != QuotedField
    ensures RunFrom(Scan(UnquotedField, fields, []), EncodeRow(fs)).fields == fields + fs[..|fs| - 1]
    ensures RunFrom(Scan(UnquotedField, fields, []), EncodeRow(fs)).cur == fs[|fs| - 1]
    decreases |fs|
  {
    if |fs| == 1 {
      EncodedRun(fields, fs[0]);
      assert fs[..0] == [];
    } else {
      var rest := fs[1..];
      assert EncodeRow(fs) == Encode(fs[0]) + "," + EncodeRow(rest);
      EncodedFieldThenComma(fields, fs[0], EncodeRow(rest));
      EncodeRowRun(fields + [fs[0]], rest);
      ShiftFirst(fields, fs);
    }
  }

  /** Scanning an encoded row gives the fields back: commas inside quotes do not split a field,
      and a doubled '"' reads back as one '"'. The fields must already be trimmed, and the last
      one non-empty, because an empty last field is never emitted. */
  lemma EncodeRoundTrip(fs: seq<string>)
    requires |fs| > 0
    requires forall i :: 0 <= i < |fs| ==> Trimmed(fs[i])
    requires fs[|fs| - 1] != []
    ensures ReadCsvRow(EncodeRow(fs)) == fs
  {
    EncodeRowRun([], fs);
    TrimOfTrimmed(fs[|fs| - 1]);
    SplitLast([], fs);
    LeftUnit(fs);
  }

  /** The quirk: a closing quote leaves the scanner in `QuotedQuote`, and a following character
      other than ',' or '"' is discarded: scanning resumes unquoted, with the pending text and the
      fields unchanged, whatever comes after. When the next character ends the field (a ',' or
      the end of the line), the row reads as if the character had never been there. */
  lemma DroppedAfterClosingQuote(pre: string, c: char, rest: string)
    requires |pre| > 0 && pre[|pre| - 1] == '"' && QuoteCount(pre) % 2 == 0
    requires c != ',' && c != '"'
    ensures RunFrom(Start, pre).state == QuotedQuote
    ensures RunFrom(Start, pre + [c] + rest) == RunFrom(RunFrom(Start, pre).(state := UnquotedField), rest)
    ensures rest == [] || rest[0] == ',' ==> ReadCsvRow(pre + [c] + rest) == ReadCsvRow(pre + rest)
  {
    ScanInvariant(pre);
    var s := RunFrom(Start, pre);
    RunFromSnoc(Start, pre, c);
    var t := Step(s, c);
    RunFromAppend(Start, pre + [c], rest);
    RunFromAppend(Start, pre, rest);
    if rest != [] && rest[0] == ',' {
      assert rest == [','] + rest[1..];
      RunFromAppend(t, [','], rest[1..]);
      RunFromAppend(s, [','], rest[1..]);
    }
  }

  /** Splitting a stream into lines undoes joining lines with '\n' terminators. */
  lemma {:induction false} SplitJoinLines(lines: seq<string>)
    requires forall i :: 0 <= i < |lines| ==> '\n' !in lines[i]
    ensures SplitLines(JoinLines(lines)) == lines
    decreases |lines|
  {
    if lines != [] {
      var text := JoinLines(lines);
      var first := lines[0];
      assert text == first + "\n" + JoinLines(lines[1..]);
      assert text[|first|] == '\n';
      assert '\n' in text;
      var k := NewlineIndex(text);
      assert text[..|first|] == first;
      assert k == |first|;
      assert text[k + 1..] == JoinLines(lines[1..]);
      SplitJoinLines(lines[1..]);
    }
  }

  /** Reading a stream of '\n'-terminated lines scans each line on its own. */
  lemma ReadJoinedLines(lines: seq<string>, rows: seq<seq<string>>)
    requires forall i :: 0 <= i < |lines| ==> '\n' !in lines[i]
    requires |rows| == |lines| && forall i :: 0 <= i < |lines| ==> ReadCsvRow(lines[i]) == rows[i]
    ensures ReadCsv(JoinLines(lines)) == rows
  {
    SplitJoinLines(lines);
    var table := ReadCsv(JoinLines(lines));
    assert |table| == |rows|;
    forall i | 0 <= i < |rows|
      ensures table[i] == rows[i]
    {
    }
  }
}
