/** What the query parser guarantees: the shape of every tree it returns, a printer it inverts,
    how targets are scanned, and which error each malformed prefix produces. */
module ParserProperties {
  import opened Results
  import opened PredicateParser
  import opened Sequences

  /** Every group non-empty and every column a legal column name. */
  predicate WellFormedGroup(g: Group) {
    |g| > 0 && forall j :: 0 <= j < |g| ==> IsColumnName(g[j].column)
  }

  predicate WellFormed(t: Tree) {
    forall i :: 0 <= i < |t| ==> WellFormedGroup(t[i])
  }

  predicate ColumnsLegal(g: Group) {
    forall j :: 0 <= j < |g| ==> IsColumnName(g[j].column)
  }

  predicate AllSpaces(s: string) {
    forall k :: 0 <= k < |s| ==> s[k] == ' '
  }

  // ---------------------------------------------------------------------------
  // Shape of a successful parse

  lemma {:induction false} ParseFromShape(s: string, done: Tree, group: Group)
    requires WellFormed(done) && ColumnsLegal(group)
    ensures ParseFrom(s, done, group).Success? ==>
              WellFormed(ParseFrom(s, done, group).value)
              && done <= ParseFrom(s, done, group).value
    decreases |s|, 0
  {
    var start := SkipSpaces(s);
    if start == [] {
      CloseShape(done, group);
    } else {
      match ParseAtom(start)
      case AtomError(_) =>
      case Parsed(atom, rest) =>
        LegalAppend(group, atom);
        ContinueShape(rest, done, group + [atom]);
    }
  }

  lemma {:induction false} ContinueShape(s: string, done: Tree, group: Group)
    requires WellFormed(done) && ColumnsLegal(group) && group != []
    ensures Continue(s, done, group).Success? ==>
              WellFormed(Continue(s, done, group).value)
              && done <= Continue(s, done, group).value
    decreases |s|, 1
  {
    var k := SkipSpaces(s);
    if k == [] {
      CloseShape(done, group);
    } else if |k| >= 2 && k[0] == 'o' && k[1] == 'r' {
      CloseShape(done, group);
      ParseFromShape(k[2..], done + [group], []);
      PrefixTransitive(done, done + [group], Continue(s, done, group));
    } else if |k| >= 3 && k[0] == 'a' && k[1] == 'n' && k[2] == 'd' {
      ParseFromShape(k[3..], done, group);
    } else {
      ParseFromShape(k, done, group);
    }
  }

  /** Closing a group keeps the tree well formed and only adds at the end. */
  lemma CloseShape(done: Tree, group: Group)
    requires WellFormed(done) && ColumnsLegal(group)
    ensures WellFormed(Close(done, group)) && done <= Close(done, group)
    ensures group != [] ==> Close(done, group) == done + [group]
  {
    if group != [] {
      assert forall i :: 0 <= i < |done| ==> (done + [group])[i] == done[i];
    }
  }

  lemma LegalAppend(group: Group, atom: Atom)
    requires ColumnsLegal(group) && IsColumnName(atom.column)
    ensures ColumnsLegal(group + [atom])
  {
    assert forall j :: 0 <= j < |group| ==> (group + [atom])[j] == group[j];
  }

  lemma PrefixTransitive(a: Tree, b: Tree, r: Result<Tree, ParseError>)
    requires a <= b
    requires r.Success? ==> b <= r.value
    ensures r.Success? ==> a <= r.value
  {
  }

  /** A successful parse never contains an empty group, and every column it names is made of
      ASCII letters and digits. */
  lemma ParseShape(param: string)
    ensures ParsePredicate(param).Success? ==> WellFormed(ParsePredicate(param).value)
  {
    ParseFromShape(param, [], []);
  }

  /** An empty or all-space query is accepted as the empty disjunction. */
  lemma {:induction false} BlankQueryIsEmpty(param: string)
    requires AllSpaces(param)
    ensures ParsePredicate(param) == Success([])
  {
    SkipSpacesOver(param, []);
    assert param + [] == param;
  }

  // ---------------------------------------------------------------------------
  // Scanning helpers

  lemma {:induction false} SkipSpacesOver(sp: string, rest: string)
    requires AllSpaces(sp)
    requires rest == [] || rest[0] != ' '
    ensures SkipSpaces(sp + rest) == rest
    decreases |sp|
  {
    if sp == [] {
      assert sp + rest == rest;
    } else {
      assert (sp + rest)[1..] == sp[1..] + rest;
      SkipSpacesOver(sp[1..], rest);
    }
  }

  lemma {:induction false} ScanColumnOver(column: string, rest: string)
    requires IsColumnName(column)
    requires rest == [] || !IsColumnChar(rest[0])
    ensures ScanColumn(column + rest) == (column, rest)
    decreases |column|
  {
    if column == [] {
      assert column + rest == rest;
    } else {
      assert (column + rest)[1..] == column[1..] + rest;
      ScanColumnOver(column[1..], rest);
      assert [column[0]] + column[1..] == column;
    }
  }

  // ---------------------------------------------------------------------------
  // Targets

  /** The escaping a printer must apply: a backslash before every '"' and '\'. */
  function Escape(x: string): string
    decreases |x|
  {
    if x == [] then []
    else (if x[0] == '"' || x[0] == '\\' then ['\\', x[0]] else [x[0]]) + Escape(x[1..])
  }

  lemma {:induction false} EscapeOfPlain(x: string)
    requires '"' !in x && '\\' !in x
    ensures Escape(x) == x
    decreases |x|
  {
    if x != [] {
      assert '"' !in x[1..] && '\\' !in x[1..] by {
        assert forall k :: 0 <= k < |x[1..]| ==> x[1..][k] == x[k + 1];
      }
      EscapeOfPlain(x[1..]);
      assert [x[0]] + x[1..] == x;
    }
  }

  /** Escaped text contributes itself to the target and does not count as a delimiter. */
  lemma {:induction false} ScanEscaped(x: string, tail: string, quotes: nat, acc: string)
    requires quotes < 2
    ensures ScanTarget(Escape(x) + tail, quotes, acc) == ScanTarget(tail, quotes, acc + x)
    decreases |x|
  {
    if x == [] {
      assert Escape(x) + tail == tail;
      assert acc + x == acc;
    } else {
      var c := x[0];
      var head := if c == '"' || c == '\\' then ['\\', c] else [c];
      assert Escape(x) + tail == head + (Escape(x[1..]) + tail);
      var s := head + (Escape(x[1..]) + tail);
      if c == '"' || c == '\\' {
        assert s[0] == '\\' && s[1] == c && s[2..] == Escape(x[1..]) + tail;
      } else {
        assert s[0] == c && s[1..] == Escape(x[1..]) + tail;
      }
      ScanEscaped(x[1..], tail, quotes, acc + [c]);
      assert acc + [c] + x[1..] == acc + x;
    }
  }

  /** Any way of writing target text `x` without delimiters: a backslash before every '"' and
      '\', and before each other character whose mark is set. `Escape` is the unmarked case. */
  function EscapeMarked(x: string, marks: seq<bool>): string
    requires |marks| == |x|
    decreases |x|
  {
    if x == [] then []
    else
      (if marks[0] || x[0] == '"' || x[0] == '\\' then ['\\', x[0]] else [x[0]])
      + EscapeMarked(x[1..], marks[1..])
  }

  /** Escaped text contributes itself to the target whichever characters carry a backslash. */
  lemma {:induction false} ScanMarked(x: string, marks: seq<bool>, tail: string, quotes: nat, acc: string)
    requires |marks| == |x| && quotes < 2
    ensures ScanTarget(EscapeMarked(x, marks) + tail, quotes, acc) == ScanTarget(tail, quotes, acc + x)
    decreases |x|
  {
    if x == [] {
      assert EscapeMarked(x, marks) + tail == tail;
      assert acc + x == acc;
    } else {
      var c := x[0];
      var escaped := marks[0] || c == '"' || c == '\\';
      var head := if escaped then ['\\', c] else [c];
      assert EscapeMarked(x, marks) + tail == head + (EscapeMarked(x[1..], marks[1..]) + tail);
      var s := head + (EscapeMarked(x[1..], marks[1..]) + tail);
      if escaped {
        assert s[0] == '\\' && s[1] == c && s[2..] == EscapeMarked(x[1..], marks[1..]) + tail;
      } else {
        assert s[0] == c && s[1..] == EscapeMarked(x[1..], marks[1..]) + tail;
      }
      ScanMarked(x[1..], marks[1..], tail, quotes, acc + [c]);
      assert acc + [c] + x[1..] == acc + x;
    }
  }

  /** The target is everything up to the second unescaped '"': characters before the first
      '"' are kept, the two delimiters are dropped, and escaped characters are taken literally. */
  lemma TargetScanning(x: string, mx: seq<bool>, y: string, my: seq<bool>, rest: string)
    requires |mx| == |x| && |my| == |y|
    ensures ScanTarget(EscapeMarked(x, mx) + "\"" + EscapeMarked(y, my) + "\"" + rest, 0, [])
              == Scanned(x + y, rest)
  {
    var close := "\"" + rest;
    var afterX := "\"" + (EscapeMarked(y, my) + close);
    assert EscapeMarked(x, mx) + "\"" + EscapeMarked(y, my) + "\"" + rest == EscapeMarked(x, mx) + afterX;
    ScanMarked(x, mx, afterX, 0, []);
    assert [] + x == x;
    assert afterX[0] == '"' && afterX[1..] == EscapeMarked(y, my) + close;
    assert ScanTarget(afterX, 0, x) == ScanTarget(EscapeMarked(y, my) + close, 1, x);
    ScanMarked(y, my, close, 1, x);
    assert close[0] == '"' && close[1..] == rest;
  }

  /** Fewer than two unescaped '"' before the end: the target is never closed. */
  lemma TargetUnclosed(x: string, mx: seq<bool>, y: string, my: seq<bool>)
    requires |mx| == |x| && |my| == |y|
    ensures ScanTarget(EscapeMarked(x, mx), 0, []) == TargetError(UnclosedTarget)
    ensures ScanTarget(EscapeMarked(x, mx) + "\"" + EscapeMarked(y, my), 0, []) == TargetError(UnclosedTarget)
  {
    ScanMarked(x, mx, [], 0, []);
    assert EscapeMarked(x, mx) + [] == EscapeMarked(x, mx);
    var afterX := "\"" + EscapeMarked(y, my);
    assert EscapeMarked(x, mx) + "\"" + EscapeMarked(y, my) == EscapeMarked(x, mx) + afterX;
    ScanMarked(x, mx, afterX, 0, []);
    assert [] + x == x;
    assert afterX[0] == '"' && afterX[1..] == EscapeMarked(y, my) + [];
    assert ScanTarget(afterX, 0, x) == ScanTarget(EscapeMarked(y, my) + [], 1, x);
    ScanMarked(y, my, [], 1, x);
  }

  /** A backslash as the last character of the input, before or after the opening '"'. */
  lemma TargetDanglingEscape(x: string, mx: seq<bool>, y: string, my: seq<bool>)
    requires |mx| == |x| && |my| == |y|
    ensures ScanTarget(EscapeMarked(x, mx) + "\\", 0, []) == TargetError(DanglingEscape)
    ensures ScanTarget(EscapeMarked(x, mx) + "\"" + EscapeMarked(y, my) + "\\", 0, [])
              == TargetError(DanglingEscape)
  {
    ScanMarked(x, mx, "\\", 0, []);
    var afterX := "\"" + (EscapeMarked(y, my) + "\\");
    assert EscapeMarked(x, mx) + "\"" + EscapeMarked(y, my) + "\\" == EscapeMarked(x, mx) + afterX;
    ScanMarked(x, mx, afterX, 0, []);
    assert [] + x == x;
    assert afterX[0] == '"' && afterX[1..] == EscapeMarked(y, my) + "\\";
    ScanMarked(y, my, "\\", 1, x);
  }

  // ---------------------------------------------------------------------------
  // One atom, one loop step

  /** After the operator: spaces, then the target scanner's input. */
  lemma TargetText(column: string, op: Operator, sp3: string, tail: string)
    requires AllSpaces(sp3) && tail != [] && tail[0] != ' '
    ensures AfterOperator(column, op, sp3 + tail) ==
              var t := ScanTarget(tail, 0, []);
              if t.TargetError? then AtomError(t.error) else Parsed(Atom(column, t.target, op), t.rest)
  {
    SkipSpacesOver(sp3, tail);
  }

  /** After the column: spaces, an operator, then the rest of the atom. */
  lemma OperatorText(column: string, sp2: string, op: Operator, more: string)
    requires IsColumnName(column) && AllSpaces(sp2)
    ensures AfterColumn(column, sp2 + OpText(op) + more) == AfterOperator(column, op, more)
  {
    var atOp := OpText(op) + more;
    assert sp2 + OpText(op) + more == sp2 + atOp;
    SkipSpacesOver(sp2, atOp);
    assert atOp[..2] == OpText(op);
    assert GetOperator(atOp) == Some(op);
    assert atOp[2..] == more;
  }

  /** A column followed by text that cannot continue it. */
  lemma ColumnText(column: string, after: string)
    requires IsColumnName(column) && after != [] && !IsColumnChar(after[0])
    ensures column + after != []
    ensures ParseAtom(column + after) == AfterColumn(column, after)
  {
    ScanColumnOver(column, after);
  }

  /** One atom's text: its column, spaces, an operator, spaces, then the target scanner's input. */
  lemma AtomText(column: string, sp2: string, op: Operator, sp3: string, tail: string)
    requires IsColumnName(column) && AllSpaces(sp2) && AllSpaces(sp3)
    requires tail != [] && tail[0] != ' '
    ensures column + sp2 + OpText(op) + sp3 + tail != []
    ensures ParseAtom(column + sp2 + OpText(op) + sp3 + tail) ==
              var t := ScanTarget(tail, 0, []);
              if t.TargetError? then AtomError(t.error) else Parsed(Atom(column, t.target, op), t.rest)
  {
    var more := sp3 + tail;
    var after := sp2 + OpText(op) + more;
    assert column + sp2 + OpText(op) + sp3 + tail == column + after;
    assert after[0] == ' ' || after[0] == OpText(op)[0];
    ColumnText(column, after);
    OperatorText(column, sp2, op, more);
    TargetText(column, op, sp3, tail);
  }

  /** The loop skips leading spaces and parses an atom from the first other character. */
  lemma ParseFromStart(sp: string, s: string, done: Tree, group: Group)
    requires AllSpaces(sp) && s != [] && s[0] != ' '
    ensures ParseFrom(sp + s, done, group) ==
              var a := ParseAtom(s);
              if a.AtomError? then Failure(a.error) else Continue(a.rest, done, group + [a.atom])
  {
    SkipSpacesOver(sp, s);
  }

  /** Spaces, then one atom whose target scan starts at `tail`. */
  lemma {:induction false} ParseHead(sp: string, column: string, sp2: string, op: Operator, sp3: string,
                                     tail: string, done: Tree, group: Group)
    requires HeadShape(sp, column, sp2, sp3)
    requires tail != [] && tail[0] != ' '
    ensures ParseFrom(AtomHead(sp, column, sp2, op, sp3) + tail, done, group) ==
              var t := ScanTarget(tail, 0, []);
              if t.TargetError? then Failure(t.error)
              else Continue(t.rest, done, group + [Atom(column, t.target, op)])
  {
    if column == [] {
      var s := OpText(op) + sp3 + tail;
      HeadWithoutColumnText(sp, sp2, op, sp3, tail);
      AtomText([], [], op, sp3, tail);
      ParseFromStart(sp + sp2, s, done, group);
    } else {
      var s := column + sp2 + OpText(op) + sp3 + tail;
      HeadWithColumnText(sp, column, sp2, op, sp3, tail);
      AtomText(column, sp2, op, sp3, tail);
      ParseFromStart(sp, s, done, group);
    }
  }

  /** Proof helpers: the text of an atom head regrouped for `ParseFromStart`. */
  lemma HeadWithoutColumnText(sp: string, sp2: string, op: Operator, sp3: string, tail: string)
    ensures AtomHead(sp, [], sp2, op, sp3) + tail == (sp + sp2) + (OpText(op) + sp3 + tail)
    ensures OpText(op) + sp3 + tail == [] + [] + OpText(op) + sp3 + tail
  {
  }

  lemma HeadWithColumnText(sp: string, column: string, sp2: string, op: Operator, sp3: string, tail: string)
    ensures AtomHead(sp, column, sp2, op, sp3) + tail == sp + (column + sp2 + OpText(op) + sp3 + tail)
  {
  }

  // ---------------------------------------------------------------------------
  // Error order

  /** The text in front of a target: spaces, a column, spaces, an operator, spaces. */
  function AtomHead(sp: string, column: string, sp2: string, op: Operator, sp3: string): string {
    sp + column + sp2 + OpText(op) + sp3
  }

  predicate HeadShape(sp: string, column: string, sp2: string, sp3: string) {
    AllSpaces(sp) && IsColumnName(column) && AllSpaces(sp2) && AllSpaces(sp3)
  }

  /** A column running to the end of input. Like every error below, it ends the whole parse
      wherever the loop meets it, discarding the groups collected so far. */
  lemma ColumnAtEnd(sp: string, column: string, done: Tree, group: Group)
    requires AllSpaces(sp) && IsColumnName(column) && column != []
    ensures ParseFrom(sp + column, done, group) == Failure(UnterminatedColumn)
  {
    SkipSpacesOver(sp, column);
    ScanColumnOver(column, []);
    assert column + [] == column;
  }

  /** A column followed only by spaces. */
  lemma OperatorMissing(sp: string, column: string, sp2: string, done: Tree, group: Group)
    requires AllSpaces(sp) && IsColumnName(column) && column != []
    requires AllSpaces(sp2) && sp2 != []
    ensures ParseFrom(sp + column + sp2, done, group) == Failure(MissingOperator)
  {
    assert sp + column + sp2 == sp + (column + sp2);
    SkipSpacesOver(sp, column + sp2);
    ScanColumnOver(column, sp2);
    SkipSpacesOver(sp2, []);
    assert sp2 + [] == sp2;
  }

  /** Anything other than one of the four two-character operators where an operator belongs,
      including a single character at the end of input. A token starting with a column character
      is only reached after a non-empty column and at least one space. */
  lemma OperatorUnknown(sp: string, column: string, sp2: string, token: string, rest: string,
                        done: Tree, group: Group)
    requires AllSpaces(sp) && IsColumnName(column) && AllSpaces(sp2)
    requires 1 <= |token| <= 2 && token[0] != ' '
    requires !IsColumnChar(token[0]) || (column != [] && sp2 != [])
    requires |token| == 2 || rest == []
    requires forall op :: token != OpText(op)
    ensures ParseFrom(sp + column + sp2 + token + rest, done, group) == Failure(UnknownOperator)
  {
    var atOp := token + rest;
    assert atOp[0] == token[0];
    if |atOp| >= 2 {
      assert atOp[..2] == token;
    }
    assert GetOperator(atOp) == None;
    if column == [] {
      assert sp + column + sp2 + token + rest == (sp + sp2) + atOp;
      ParseFromStart(sp + sp2, atOp, done, group);
      ScanColumnOver([], atOp);
      assert [] + atOp == atOp;
      SkipSpacesOver([], atOp);
    } else {
      var s := column + (sp2 + atOp);
      assert sp + column + sp2 + token + rest == sp + s;
      ParseFromStart(sp, s, done, group);
      ScanColumnOver(column, sp2 + atOp);
      SkipSpacesOver(sp2, atOp);
    }
  }

  /** The operator and what follows it, for an operator followed only by spaces. */
  lemma OperatorThenSpaces(op: Operator, sp3: string)
    requires AllSpaces(sp3)
    ensures GetOperator(OpText(op) + sp3) == Some(op)
    ensures (OpText(op) + sp3)[2..] == sp3 && SkipSpaces(sp3) == []
  {
    var atOp := OpText(op) + sp3;
    assert atOp[..2] == OpText(op);
    SkipSpacesOver(sp3, []);
    assert sp3 + [] == sp3;
  }

  /** An operator followed only by spaces. */
  lemma TargetMissing(sp: string, column: string, sp2: string, op: Operator, sp3: string,
                      done: Tree, group: Group)
    requires HeadShape(sp, column, sp2, sp3)
    ensures ParseFrom(AtomHead(sp, column, sp2, op, sp3), done, group) == Failure(MissingTarget)
  {
    if column == [] {
      AtomHeadWithoutColumn(sp, sp2, op, sp3);
      TargetMissingNoColumn(sp + sp2, op, sp3, done, group);
    } else {
      AtomHeadNested(sp, column, sp2, op, sp3);
      TargetMissingAfterColumn(sp, column, sp2, op, sp3, done, group);
    }
  }

  lemma AtomHeadWithoutColumn(sp: string, sp2: string, op: Operator, sp3: string)
    ensures AtomHead(sp, [], sp2, op, sp3) == (sp + sp2) + (OpText(op) + sp3)
  {
  }

  lemma AtomHeadNested(sp: string, column: string, sp2: string, op: Operator, sp3: string)
    ensures AtomHead(sp, column, sp2, op, sp3) == sp + (column + (sp2 + (OpText(op) + sp3)))
  {
  }

  /** The non-empty-column case of `TargetMissing`. */
  lemma TargetMissingAfterColumn(sp: string, column: string, sp2: string, op: Operator, sp3: string,
                                 done: Tree, group: Group)
    requires HeadShape(sp, column, sp2, sp3) && column != []
    ensures ParseFrom(sp + (column + (sp2 + (OpText(op) + sp3))), done, group) == Failure(MissingTarget)
  {
    var after := sp2 + (OpText(op) + sp3);
    assert after[0] == ' ' || after[0] == OpText(op)[0];
    ColumnText(column, after);
    OperatorOnly(column, sp2, op, sp3);
    ParseFromStart(sp, column + after, done, group);
  }

  /** The empty-column case of `TargetMissing`: spaces, then the operator. */
  lemma TargetMissingNoColumn(sp: string, op: Operator, sp3: string, done: Tree, group: Group)
    requires AllSpaces(sp) && AllSpaces(sp3)
    ensures ParseFrom(sp + (OpText(op) + sp3), done, group) == Failure(MissingTarget)
  {
    var atOp := OpText(op) + sp3;
    assert atOp[0] == OpText(op)[0];
    ColumnText([], atOp);
    LeftUnit(atOp);
    OperatorOnly([], [], op, sp3);
    ParseFromStart(sp, atOp, done, group);
  }

  /** After a column: spaces and an operator with nothing but spaces behind it. */
  lemma OperatorOnly(column: string, sp2: string, op: Operator, sp3: string)
    requires IsColumnName(column) && AllSpaces(sp2) && AllSpaces(sp3)
    ensures AfterColumn(column, sp2 + (OpText(op) + sp3)) == AtomError(MissingTarget)
  {
    OperatorThenSpaces(op, sp3);
    SkipSpacesOver(sp2, OpText(op) + sp3);
  }

  /** Escaped text starts with a backslash or with its own first character. */
  lemma MarkedFront(x: string, mx: seq<bool>, tail: string)
    requires |mx| == |x| && x != []
    ensures EscapeMarked(x, mx) + tail != []
    ensures (EscapeMarked(x, mx) + tail)[0] == (if mx[0] || x[0] == '"' || x[0] == '\\' then '\\' else x[0])
  {
  }

  /** A target whose closing '"' never comes, with or without an opening one. */
  lemma TargetNotClosed(sp: string, column: string, sp2: string, op: Operator, sp3: string,
                        x: string, mx: seq<bool>, y: string, my: seq<bool>, done: Tree, group: Group)
    requires HeadShape(sp, column, sp2, sp3)
    requires |mx| == |x| && |my| == |y|
    requires x == [] || x[0] != ' ' || mx[0]
    ensures ParseFrom(AtomHead(sp, column, sp2, op, sp3) + (EscapeMarked(x, mx) + "\"" + EscapeMarked(y, my)), done, group)
              == Failure(UnclosedTarget)
    ensures x != [] ==>
              ParseFrom(AtomHead(sp, column, sp2, op, sp3) + EscapeMarked(x, mx), done, group) == Failure(UnclosedTarget)
  {
    TargetUnclosed(x, mx, y, my);
    var tail := EscapeMarked(x, mx) + "\"" + EscapeMarked(y, my);
    if x != [] {
      MarkedFront(x, mx, "\"" + EscapeMarked(y, my));
      assert tail == EscapeMarked(x, mx) + ("\"" + EscapeMarked(y, my));
      MarkedFront(x, mx, []);
      assert EscapeMarked(x, mx) + [] == EscapeMarked(x, mx);
      ParseHead(sp, column, sp2, op, sp3, EscapeMarked(x, mx), done, group);
    }
    ParseHead(sp, column, sp2, op, sp3, tail, done, group);
  }

  /** A target ending in a lone backslash, before or after its opening '"'. */
  lemma TargetEndsInBackslash(sp: string, column: string, sp2: string, op: Operator, sp3: string,
                              x: string, mx: seq<bool>, y: string, my: seq<bool>, done: Tree, group: Group)
    requires HeadShape(sp, column, sp2, sp3)
    requires |mx| == |x| && |my| == |y|
    requires x == [] || x[0] != ' ' || mx[0]
    ensures ParseFrom(AtomHead(sp, column, sp2, op, sp3) + (EscapeMarked(x, mx) + "\\"), done, group)
              == Failure(DanglingEscape)
    ensures ParseFrom(AtomHead(sp, column, sp2, op, sp3) + (EscapeMarked(x, mx) + "\"" + EscapeMarked(y, my) + "\\"), done, group)
              == Failure(DanglingEscape)
  {
    TargetDanglingEscape(x, mx, y, my);
    var tail := EscapeMarked(x, mx) + "\\";
    var quoted := EscapeMarked(x, mx) + "\"" + EscapeMarked(y, my) + "\\";
    if x != [] {
      MarkedFront(x, mx, "\\");
      MarkedFront(x, mx, "\"" + EscapeMarked(y, my) + "\\");
      assert quoted == EscapeMarked(x, mx) + ("\"" + EscapeMarked(y, my) + "\\");
    }
    ParseHead(sp, column, sp2, op, sp3, tail, done, group);
    ParseHead(sp, column, sp2, op, sp3, quoted, done, group);
  }

  // ---------------------------------------------------------------------------
  // A printer the parser inverts

  function RenderAtom(a: Atom): string {
    a.column + " " + OpText(a.op) + " \"" + Escape(a.target) + "\""
  }

  function RenderGroup(g: Group): string
    decreases |g|
  {
    if g == [] then []
    else if |g| == 1 then RenderAtom(g[0])
    else RenderAtom(g[0]) + (" and " + RenderGroup(g[1..]))
  }

  function Render(t: Tree): string
    decreases |t|
  {
    if t == [] then []
    else if |t| == 1 then RenderGroup(t[0])
    else RenderGroup(t[0]) + (" or " + Render(t[1..]))
  }

  /** The parser reads one printed atom and stops right after its closing quote. */
  lemma ParseRenderedAtom(a: Atom, rest: string, done: Tree, group: Group)
    requires IsColumnName(a.column)
    ensures ParseFrom(RenderAtom(a) + rest, done, group) == Continue(rest, done, group + [a])
  {
    var tail := "\"" + Escape(a.target) + "\"" + rest;
    RenderedAtomPieces(a, rest);
    ParseHead([], a.column, " ", a.op, " ", tail, done, group);
  }

  /** A printed atom cut where its target scan starts, and what that scan returns. */
  lemma RenderedAtomPieces(a: Atom, rest: string)
    ensures var tail := "\"" + Escape(a.target) + "\"" + rest;
            RenderAtom(a) + rest == AtomHead([], a.column, " ", a.op, " ") + tail &&
            tail != [] && tail[0] != ' ' &&
            ScanTarget(tail, 0, []) == Scanned(a.target, rest)
  {
    RenderedAtomSplit(a, rest);
    RenderedTargetScan(a.target, rest);
  }

  lemma RenderedAtomSplit(a: Atom, rest: string)
    ensures RenderAtom(a) + rest ==
              AtomHead([], a.column, " ", a.op, " ") + ("\"" + Escape(a.target) + "\"" + rest)
  {
    assert " \"" == " " + "\"";
  }

  lemma RenderedTargetScan(target: string, rest: string)
    ensures ScanTarget("\"" + Escape(target) + "\"" + rest, 0, []) == Scanned(target, rest)
  {
    var tail := "\"" + Escape(target) + "\"" + rest;
    var close := "\"" + rest;
    assert tail[0] == '"' && tail[1..] == Escape(target) + close;
    ScanEscaped(target, close, 1, []);
    LeftUnit(target);
    assert close[0] == '"' && close[1..] == rest;
  }

  /** Leading spaces do not change where the loop goes. */
  lemma ParseFromAfterSpace(s: string, done: Tree, group: Group)
    ensures ParseFrom(" " + s, done, group) == ParseFrom(s, done, group)
  {
    assert (" " + s)[1..] == s;
  }

  /** `and` after an atom keeps the current group open. */
  lemma ContinueAnd(more: string, done: Tree, group: Group)
    ensures Continue(" and " + more, done, group) == ParseFrom(more, done, group)
  {
    var k := "and " + more;
    assert " and " + more == " " + k;
    assert k[0] == 'a' && k[1] == 'n' && k[2] == 'd' && k[3..] == " " + more;
    ContinueAfterSpace(k, done, group);
    ContinueAndPrefix(k, done, group);
    ParseFromAfterSpace(more, done, group);
  }

  /** `or` after an atom closes the current group and starts an empty one. */
  lemma ContinueOr(more: string, done: Tree, group: Group)
    ensures Continue(" or " + more, done, group) == ParseFrom(more, done + [group], [])
  {
    var k := "or " + more;
    assert " or " + more == " " + k;
    assert k[0] == 'o' && k[1] == 'r' && k[2..] == " " + more;
    ContinueAfterSpace(k, done, group);
    ContinueOrPrefix(k, done, group);
    ParseFromAfterSpace(more, done + [group], []);
  }

  /** `and` at the very front of the text after an atom. */
  lemma ContinueAndPrefix(k: string, done: Tree, group: Group)
    requires |k| >= 3 && k[0] == 'a' && k[1] == 'n' && k[2] == 'd'
    ensures Continue(k, done, group) == ParseFrom(k[3..], done, group)
  {
    NoSpaceToSkip(k);
    ContinueAndAt(k, done, group);
  }

  lemma ContinueAndAt(s: string, done: Tree, group: Group)
    requires var k := SkipSpaces(s); |k| >= 3 && k[0] == 'a' && k[1] == 'n' && k[2] == 'd'
    ensures Continue(s, done, group) == ParseFrom(SkipSpaces(s)[3..], done, group)
  {
  }

  lemma NoSpaceToSkip(k: string)
    requires k != [] && k[0] != ' '
    ensures SkipSpaces(k) == k
  {
  }

  lemma {:induction false} ParseRenderedGroup(g: Group, rest: string, done: Tree, group: Group)
    requires WellFormedGroup(g)
    ensures ParseFrom(RenderGroup(g) + rest, done, group) == Continue(rest, done, group + g)
    decreases |g|
  {
    if |g| == 1 {
      ParseRenderedAtom(g[0], rest, done, group);
      assert g == [g[0]];
    } else {
      var tail := g[1..];
      assert WellFormedGroup(tail) by {
        assert forall j :: 0 <= j < |tail| ==> tail[j] == g[j + 1];
      }
      var more := RenderGroup(tail) + rest;
      assert RenderGroup(g) == RenderAtom(g[0]) + (" and " + RenderGroup(tail));
      assert RenderGroup(g) + rest == RenderAtom(g[0]) + (" and " + more);
      var extended := group + [g[0]];
      calc {
        ParseFrom(RenderGroup(g) + rest, done, group);
        ParseFrom(RenderAtom(g[0]) + (" and " + more), done, group);
        { ParseRenderedAtom(g[0], " and " + more, done, group); }
        Continue(" and " + more, done, extended);
        { ContinueAnd(more, done, extended); }
        ParseFrom(more, done, extended);
        { ParseRenderedGroup(tail, rest, done, extended); }
        Continue(rest, done, extended + tail);
        { assert extended + tail == group + g; }
        Continue(rest, done, group + g);
      }
    }
  }

  /** The group a parse starts with. */
  lemma ParseRenderedFirstGroup(g: Group, rest: string, done: Tree)
    requires WellFormedGroup(g)
    ensures ParseFrom(RenderGroup(g) + rest, done, []) == Continue(rest, done, g)
  {
    ParseRenderedGroup(g, rest, done, []);
    LeftUnit(g);
  }

  /** The last group of a printed tree: input ends right after it. */
  lemma ParseRenderedLastGroup(g: Group, done: Tree)
    requires WellFormedGroup(g)
    ensures ParseFrom(Render([g]), done, []) == Success(done + [g])
  {
    assert [] + g == g;
    calc {
      ParseFrom(Render([g]), done, []);
      { assert Render([g]) == RenderGroup(g) + []; }
      ParseFrom(RenderGroup(g) + [], done, []);
      { ParseRenderedGroup(g, [], done, []); }
      Continue([], done, g);
      { ContinueEnd(done, g); }
      Success(done + [g]);
    }
  }

  /** One `or` step: once the first group's text hands over to `Continue`, the parse goes on
      with the text after `or` and the group closed. */
  lemma OrStep(first: string, more: string, g: Group, done: Tree, result: Result<Tree, ParseError>)
    requires ParseFrom(first + (" or " + more), done, []) == Continue(" or " + more, done, g)
    requires ParseFrom(more, done + [g], []) == result
    ensures ParseFrom(first + (" or " + more), done, []) == result
  {
    ContinueOr(more, done, g);
  }

  lemma {:induction false} ParseRenderedTree(t: Tree, done: Tree)
    requires WellFormed(t)
    ensures ParseFrom(Render(t), done, []) == Success(done + t)
    decreases |t|
  {
    if t == [] {
      assert done + t == done;
    } else if |t| == 1 {
      ParseRenderedSingle(t, done);
    } else {
      assert WellFormed(t[1..]) by {
        assert forall i :: 0 <= i < |t[1..]| ==> t[1..][i] == t[i + 1];
      }
      ParseRenderedTree(t[1..], done + [t[0]]);
      ParseRenderedTreeStep(t, done);
    }
  }

  lemma ParseRenderedSingle(t: Tree, done: Tree)
    requires |t| == 1 && WellFormedGroup(t[0])
    ensures ParseFrom(Render(t), done, []) == Success(done + t)
  {
    assert t == [t[0]];
    ParseRenderedLastGroup(t[0], done);
  }

  /** The inductive step: the first group's text hands over to the rest after `or`. */
  lemma ParseRenderedTreeStep(t: Tree, done: Tree)
    requires |t| >= 2 && WellFormedGroup(t[0])
    requires ParseFrom(Render(t[1..]), done + [t[0]], []) == Success(done + [t[0]] + t[1..])
    ensures ParseFrom(Render(t), done, []) == Success(done + t)
  {
    var g := t[0];
    var more := Render(t[1..]);
    assert Render(t) == RenderGroup(g) + (" or " + more);
    ParseRenderedFirstGroup(g, " or " + more, done);
    SplitFirst(done, t);
    OrStep(RenderGroup(g), more, g, done, Success(done + [g] + t[1..]));
  }

  /** Printing a well-formed tree and parsing the text gives the tree back: groups and atoms
      keep their order, `and` joins atoms of one group and `or` separates groups. */
  lemma RenderRoundTrip(t: Tree)
    requires WellFormed(t)
    ensures ParsePredicate(Render(t)) == Success(t)
  {
    ParseRenderedTree(t, []);
    assert [] + t == t;
  }

  // ---------------------------------------------------------------------------
  // Errors after printed atoms

  /** A printed tree followed by more input: the loop has closed every group but the last,
      which stays open for what follows. */
  lemma {:induction false} ParseRenderedPrefix(t: Tree, rest: string, done: Tree)
    requires WellFormed(t) && |t| > 0
    ensures ParseFrom(Render(t) + rest, done, []) == Continue(rest, done + t[..|t| - 1], t[|t| - 1])
    decreases |t|
  {
    if |t| == 1 {
      PrefixSingle(t, rest, done);
    } else {
      var tail := t[1..];
      assert WellFormed(tail) by {
        assert forall j :: 0 <= j < |tail| ==> tail[j] == t[j + 1];
      }
      calc {
        ParseFrom(Render(t) + rest, done, []);
        { PrefixStep(t, rest, done); }
        ParseFrom(Render(tail) + rest, done + [t[0]], []);
        { ParseRenderedPrefix(tail, rest, done + [t[0]]); }
        Continue(rest, done + [t[0]] + tail[..|tail| - 1], tail[|tail| - 1]);
        { PrefixIndices(t, done); }
        Continue(rest, done + t[..|t| - 1], t[|t| - 1]);
      }
    }
  }

  lemma PrefixSingle(t: Tree, rest: string, done: Tree)
    requires |t| == 1 && WellFormedGroup(t[0])
    ensures ParseFrom(Render(t) + rest, done, []) == Continue(rest, done + t[..|t| - 1], t[|t| - 1])
  {
    ParseRenderedFirstGroup(t[0], rest, done);
    assert t[..0] == [];
    assert done + [] == done;
  }

  lemma PrefixIndices(t: Tree, done: Tree)
    requires |t| >= 2
    ensures done + [t[0]] + t[1..][..|t| - 2] == done + t[..|t| - 1]
    ensures t[1..][|t| - 2] == t[|t| - 1]
  {
    assert t[..|t| - 1] == [t[0]] + t[1..][..|t| - 2];
  }

  /** The first group of a printed tree of two or more, and the `or` after it. */
  lemma PrefixStep(t: Tree, rest: string, done: Tree)
    requires |t| >= 2 && WellFormedGroup(t[0])
    ensures ParseFrom(Render(t) + rest, done, []) == ParseFrom(Render(t[1..]) + rest, done + [t[0]], [])
  {
    var more := Render(t[1..]) + rest;
    assert Render(t) + rest == RenderGroup(t[0]) + (" or " + more);
    ParseRenderedFirstGroup(t[0], " or " + more, done);
    ContinueOr(more, done, t[0]);
  }

  /** What a connective after a printed tree leads to: `and` extends the last group, `or` closes
      it. With the error lemmas above, which hold for any groups collected so far, a malformed
      atom anywhere in a query fails the whole parse with that atom's error. */
  lemma ParseAfterPrinted(t: Tree, more: string)
    requires WellFormed(t) && |t| > 0
    ensures ParsePredicate(Render(t) + (" and " + more)) == ParseFrom(more, t[..|t| - 1], t[|t| - 1])
    ensures ParsePredicate(Render(t) + (" or " + more)) == ParseFrom(more, t, [])
  {
    AfterPrintedAnd(t, more);
    AfterPrintedOr(t, more);
  }

  lemma AfterPrintedAnd(t: Tree, more: string)
    requires WellFormed(t) && |t| > 0
    ensures ParsePredicate(Render(t) + (" and " + more)) == ParseFrom(more, t[..|t| - 1], t[|t| - 1])
  {
    var front := t[..|t| - 1];
    ParseRenderedPrefix(t, " and " + more, []);
    LeftUnit(front);
    ContinueAnd(more, front, t[|t| - 1]);
  }

  lemma AfterPrintedOr(t: Tree, more: string)
    requires WellFormed(t) && |t| > 0
    ensures ParsePredicate(Render(t) + (" or " + more)) == ParseFrom(more, t, [])
  {
    var front := t[..|t| - 1];
    calc {
      ParsePredicate(Render(t) + (" or " + more));
      ParseFrom(Render(t) + (" or " + more), [], []);
      { ParseRenderedPrefix(t, " or " + more, []); LeftUnit(front); }
      Continue(" or " + more, front, t[|t| - 1]);
      { ContinueOr(more, front, t[|t| - 1]); }
      ParseFrom(more, front + [t[|t| - 1]], []);
      { assert front + [t[|t| - 1]] == t; }
      ParseFrom(more, t, []);
    }
  }

  /** For instance, a second atom that is only a column fails the parse after any printed query. */
  lemma LaterColumnAtEnd(t: Tree, sp: string, column: string)
    requires WellFormed(t) && |t| > 0
    requires AllSpaces(sp) && IsColumnName(column) && column != []
    ensures ParsePredicate(Render(t) + (" and " + (sp + column))) == Failure(UnterminatedColumn)
    ensures ParsePredicate(Render(t) + (" or " + (sp + column))) == Failure(UnterminatedColumn)
  {
    ParseAfterPrinted(t, sp + column);
    ColumnAtEnd(sp, column, t[..|t| - 1], t[|t| - 1]);
    ColumnAtEnd(sp, column, t, []);
  }

  /** A name the connective check would take for `or` or `and`: the connectives are matched as
      bare prefixes, so such a column right after an atom is read as a connective. */
  predicate StartsWithConnective(name: string) {
    (|name| >= 2 && name[0] == 'o' && name[1] == 'r')
    || (|name| >= 3 && name[0] == 'a' && name[1] == 'n' && name[2] == 'd')
  }

  /** With neither `or` nor `and` ahead, the loop reads the next atom into the open group. */
  lemma ContinuePlain(k: string, done: Tree, group: Group)
    requires k != [] && k[0] != ' '
    requires !(|k| >= 2 && k[0] == 'o' && k[1] == 'r')
    requires !(|k| >= 3 && k[0] == 'a' && k[1] == 'n' && k[2] == 'd')
    ensures Continue(k, done, group) == ParseFrom(k, done, group)
  {
    NoSpaceToSkip(k);
    ContinuePlainAt(k, done, group);
  }

  lemma ContinuePlainAt(s: string, done: Tree, group: Group)
    requires var k := SkipSpaces(s);
               k != [] && !(|k| >= 2 && k[0] == 'o' && k[1] == 'r') &&
               !(|k| >= 3 && k[0] == 'a' && k[1] == 'n' && k[2] == 'd')
    ensures Continue(s, done, group) == ParseFrom(SkipSpaces(s), done, group)
  {
  }

  /** Spaces before a connective do not matter. */
  lemma ContinueAfterSpace(s: string, done: Tree, group: Group)
    ensures Continue(" " + s, done, group) == Continue(s, done, group)
  {
    assert (" " + s)[1..] == s;
    assert SkipSpaces(" " + s) == SkipSpaces(s);
  }

  /** Where a printed atom's text starts: its column, one space, then the operator. */
  lemma AtomTextFront(a: Atom)
    ensures |RenderAtom(a)| >= |a.column| + 4
    ensures forall i :: 0 <= i < |a.column| ==> RenderAtom(a)[i] == a.column[i]
    ensures RenderAtom(a)[|a.column|] == ' '
    ensures RenderAtom(a)[|a.column| + 1] == OpText(a.op)[0]
    ensures a.column == [] ==> RenderAtom(a) == " " + RenderAtom(a)[1..]
  {
  }

  /** Text that starts with a column name that is not a connective, then a space, then a
      character that is neither a space nor the start of a connective. */
  lemma ContinueIntoAtom(text: string, column: string, done: Tree, group: Group)
    requires IsColumnName(column) && !StartsWithConnective(column)
    requires |text| >= |column| + 2
    requires forall i :: 0 <= i < |column| ==> text[i] == column[i]
    requires text[|column|] == ' ' && text[|column| + 1] !in " oa"
    ensures Continue(" " + text, done, group) == ParseFrom(text, done, group)
  {
    ContinueAfterSpace(text, done, group);
    if column == [] {
      ContinueIntoBareAtom(text, done, group);
    } else {
      assert text[0] == column[0];
      assert |column| >= 2 ==> text[1] == column[1];
      assert |column| >= 3 ==> text[2] == column[2];
      ContinuePlain(text, done, group);
    }
  }

  /** An atom without a column: its text starts with the space before the operator. */
  lemma ContinueIntoBareAtom(text: string, done: Tree, group: Group)
    requires |text| >= 2 && text[0] == ' ' && text[1] !in " oa"
    ensures Continue(text, done, group) == ParseFrom(text, done, group)
  {
    var rest := text[1..];
    assert text == " " + rest;
    ContinueAfterSpace(rest, done, group);
    ContinuePlain(rest, done, group);
    ParseFromAfterSpace(rest, done, group);
  }

  /** Where no connective follows an atom, the loop goes on with the next atom in the same group. */
  lemma ContinueWithoutConnective(a: Atom, done: Tree, group: Group)
    requires IsColumnName(a.column) && !StartsWithConnective(a.column)
    ensures Continue(" " + RenderAtom(a), done, group) == ParseFrom(RenderAtom(a), done, group)
  {
    AtomTextFront(a);
    assert OpText(a.op)[0] !in " oa";
    ContinueIntoAtom(RenderAtom(a), a.column, done, group);
  }

  /** Two atoms with no connective between them stay in one group, as if joined by `and`. */
  lemma NoConnectiveMeansAnd(a: Atom, b: Atom)
    requires IsColumnName(a.column) && IsColumnName(b.column) && !StartsWithConnective(b.column)
    ensures ParsePredicate(RenderAtom(a) + " " + RenderAtom(b)) == Success([[a, b]])
  {
    var bText := RenderAtom(b);
    assert [] + [a] == [a];
    assert [a] + [b] == [a, b];
    calc {
      ParsePredicate(RenderAtom(a) + " " + bText);
      { assert RenderAtom(a) + " " + bText == RenderAtom(a) + (" " + bText); }
      ParseFrom(RenderAtom(a) + (" " + bText), [], []);
      { ParseRenderedAtom(a, " " + bText, [], []); }
      Continue(" " + bText, [], [a]);
      { ContinueWithoutConnective(b, [], [a]); }
      ParseFrom(bText, [], [a]);
      { assert bText + [] == bText; ParseRenderedAtom(b, [], [], [a]); }
      Continue([], [], [a, b]);
      { ContinueEnd([], [a, b]); assert [] + [[a, b]] == [[a, b]]; }
      Success([[a, b]]);
    }
  }

  lemma ContinueEnd(done: Tree, group: Group)
    ensures Continue([], done, group) == Success(Close(done, group))
  {
  }

  /** `or` at the very front of the text after an atom, glued to whatever follows. */
  lemma ContinueOrPrefix(k: string, done: Tree, group: Group)
    requires |k| >= 2 && k[0] == 'o' && k[1] == 'r'
    ensures Continue(k, done, group) == ParseFrom(k[2..], done + [group], [])
  {
    NoSpaceToSkip(k);
    ContinueOrAt(k, done, group);
  }

  lemma ContinueOrAt(s: string, done: Tree, group: Group)
    requires var k := SkipSpaces(s); |k| >= 2 && k[0] == 'o' && k[1] == 'r'
    ensures Continue(s, done, group) == ParseFrom(SkipSpaces(s)[2..], done + [group], [])
  {
  }

  lemma RenderAtomDropFront(b: Atom, n: nat)
    requires n <= |b.column|
    ensures RenderAtom(b)[n..] == RenderAtom(Atom(b.column[n..], b.target, b.op))
  {
  }

  /** Proof helper: a two-group tree built by appending. */
  lemma TwoGroups(g: Group, h: Group)
    ensures [g] + [h] == [g, h]
  {
  }

  /** The connectives are not matched as whole words: with no connective in between, a second
      atom whose column starts with `or` is cut after those two letters and starts a new group. */
  lemma ColumnReadAsOr(a: Atom, b: Atom)
    requires IsColumnName(a.column) && IsColumnName(b.column)
    requires |b.column| >= 2 && b.column[0] == 'o' && b.column[1] == 'r'
    ensures ParsePredicate(RenderAtom(a) + " " + RenderAtom(b))
              == Success([[a], [Atom(b.column[2..], b.target, b.op)]])
  {
    var bText := RenderAtom(b);
    var b2 := Atom(b.column[2..], b.target, b.op);
    RenderAtomDropFront(b, 2);
    assert bText[0] == 'o' && bText[1] == 'r';
    assert IsColumnName(b2.column);
    assert [] + [a] == [a];
    assert [] + [b2] == [b2];
    calc {
      ParsePredicate(RenderAtom(a) + " " + bText);
      { assert RenderAtom(a) + " " + bText == RenderAtom(a) + (" " + bText); }
      ParseFrom(RenderAtom(a) + (" " + bText), [], []);
      { ParseRenderedAtom(a, " " + bText, [], []); }
      Continue(" " + bText, [], [a]);
      { ContinueAfterSpace(bText, [], [a]); }
      Continue(bText, [], [a]);
      { ContinueOrPrefix(bText, [], [a]); assert [] + [[a]] == [[a]]; }
      ParseFrom(RenderAtom(b2), [[a]], []);
      { assert RenderAtom(b2) + [] == RenderAtom(b2); ParseRenderedAtom(b2, [], [[a]], []); }
      Continue([], [[a]], [b2]);
      { ContinueEnd([[a]], [b2]); TwoGroups([a], [b2]); }
      Success([[a], [b2]]);
    }
  }
}
