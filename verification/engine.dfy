/**
 * The request pipeline of the server's `worker`, from the decoded request target to the bytes
 * sent back: take the text after the first '=', parse it, check the column names against the
 * header, keep the header and every data row the predicate accepts, write those rows as
 * comma-joined lines, and wrap the result in the response envelope.
 */
module Engine {
  import opened Results
  import opened Text
  import opened Sequences
  import Csv
  import opened PredicateParser
  import opened ParserProperties
  import opened Evaluator
  import opened Framing

  /** The table loaded at start-up: the header row, then the data rows. */
  datatype Table = Table(header: Row, data: seq<Row>)

  /** Why a request gets an error message instead of rows. */
  datatype QueryError = NoParams | Unparsable(error: ParseError) | InvalidColumn

  function ErrorMessage(e: QueryError): string {
    match e
    case NoParams => "failed to get params"
    case Unparsable(p) => Message(p)
    case InvalidColumn => "invalid column name"
  }

  // ---------------------------------------------------------------------------
  // The query parameter

  /** Everything after the first '=', provided at least one character follows it. */
  function ParamOf(path: string): Option<string> {
    var cnt := IndexOf(path, '=') + 1;
    if cnt >= |path| then None else Some(path[cnt..])
  }

  /** The parameter is found exactly when there is an '=' that is not the last character, and
      it is the text after the first '='. */
  lemma ParamsAfterFirstEquals(path: string)
    ensures ParamOf(path).Some? <==> exists i :: 0 <= i < |path| - 1 && path[i] == '='
    ensures ParamOf(path).Some? ==>
              exists i :: 0 <= i < |path| - 1 && path[i] == '=' &&
                '=' !in path[..i] && ParamOf(path).value == path[i + 1..]
  {
    ParamFound(path);
    if ParamOf(path).Some? {
      ParamAfterFirst(path);
    }
  }

  lemma ParamFound(path: string)
    ensures ParamOf(path).Some? <==> exists i :: 0 <= i < |path| - 1 && path[i] == '='
  {
    if exists k :: 0 <= k < |path| - 1 && path[k] == '=' {
      var k :| 0 <= k < |path| - 1 && path[k] == '=';
      assert IndexOf(path, '=') <= k;
    }
  }

  lemma ParamAfterFirst(path: string)
    requires ParamOf(path).Some?
    ensures var i := IndexOf(path, '=');
            i < |path| - 1 && path[i] == '=' && '=' !in path[..i] &&
            ParamOf(path).value == path[i + 1..]
  {
    var i := IndexOf(path, '=');
    forall k | 0 <= k < i
      ensures path[..i][k] != '='
    {
    }
  }

  /** The key of a `key=value` target is skipped whatever it is, as long as it holds no '='. */
  lemma ParamAfterKey(key: string, value: string)
    requires '=' !in key && value != []
    ensures ParamOf(key + "=" + value) == Some(value)
  {
    var path := key + "=" + value;
    assert forall k :: 0 <= k < |key| ==> path[k] == key[k];
    assert path[|key|] == '=';
    assert IndexOf(path, '=') == |key|;
    assert path[|key| + 1..] == value;
  }

  /** The server's scan for the parameter: walk to the first '=' and step over it. */
  method FindParam(path: string) returns (param: Option<string>)
    ensures param.Some? <==> exists i :: 0 <= i < |path| - 1 && path[i] == '='
    ensures param == ParamOf(path)
  {
    var cnt := 0;
    while cnt < |path| && path[cnt] != '='
      invariant 0 <= cnt <= |path|
      invariant forall k :: 0 <= k < cnt ==> path[k] != '='
    {
      cnt := cnt + 1;
    }
    cnt := cnt + 1;
    ParamsAfterFirstEquals(path);
    if cnt >= |path| {
      return None;
    }
    return Some(path[cnt..]);
  }

  // ---------------------------------------------------------------------------
  // Validation and filtering

  /** Every non-empty column the predicate names is a header cell. */
  predicate ColumnsValid(t: Tree, header: Row) {
    forall i :: 0 <= i < |t| ==> ColumnsKnown(t[i], header)
  }

  /** The server's column check: every atom of every group, in order, stopping at the first
      unknown name. */
  method ValidateColumns(t: Tree, header: Row) returns (ok: bool)
    ensures ok <==> forall i, j :: 0 <= i < |t| && 0 <= j < |t[i]| ==>
                      t[i][j].column == [] || t[i][j].column in header
    ensures ok <==> ColumnsValid(t, header)
  {
    var i := 0;
    while i < |t|
      invariant 0 <= i <= |t|
      invariant forall k :: 0 <= k < i ==> ColumnsKnown(t[k], header)
    {
      var j := 0;
      while j < |t[i]|
        invariant 0 <= j <= |t[i]|
        invariant forall k :: 0 <= k < j ==> t[i][k].column == [] || t[i][k].column in header
      {
        if |t[i][j].column| > 0 && !ValidColumn(header, t[i][j].column) {
          return false;
        }
        j := j + 1;
      }
      i := i + 1;
    }
    return true;
  }

  /** The data rows the predicate accepts, in table order. */
  function Select(t: Tree, header: Row, rows: seq<Row>): (kept: seq<Row>)
    requires ColumnsValid(t, header)
    ensures |kept| <= |rows|
    decreases |rows|
  {
    if rows == [] then []
    else (if TreeHolds(t, header, rows[0]) then [rows[0]] else []) + Select(t, header, rows[1..])
  }

  /** Filtering a concatenation filters each part: the kept rows keep their table order. */
  lemma {:induction false} SelectAppend(t: Tree, header: Row, a: seq<Row>, b: seq<Row>)
    requires ColumnsValid(t, header)
    ensures Select(t, header, a + b) == Select(t, header, a) + Select(t, header, b)
    decreases |a|
  {
    if a == [] {
      LeftUnit(b);
    } else {
      assert (a + b)[1..] == a[1..] + b;
      SelectAppend(t, header, a[1..], b);
      var first := if TreeHolds(t, header, a[0]) then [a[0]] else [];
      Associative(first, Select(t, header, a[1..]), Select(t, header, b));
    }
  }

  /** A row is kept exactly when it is a data row some AND-group accepts. */
  lemma {:induction false} SelectMembers(t: Tree, header: Row, rows: seq<Row>)
    requires ColumnsValid(t, header)
    ensures forall r :: r in Select(t, header, rows) <==> r in rows && TreeHolds(t, header, r)
    decreases |rows|
  {
    if rows != [] {
      SelectMembers(t, header, rows[1..]);
      assert rows == [rows[0]] + rows[1..];
    }
  }

  /** An empty predicate accepts no row. */
  lemma {:induction false} SelectNothing(header: Row, rows: seq<Row>)
    ensures Select([], header, rows) == []
    decreases |rows|
  {
    if rows != [] {
      SelectNothing(header, rows[1..]);
    }
  }

  /** The server's test of one row: try the AND-groups in order and stop at the first that
      accepts. */
  method RowMatches(t: Tree, header: Row, row: Row) returns (condition: bool)
    requires ColumnsValid(t, header)
    ensures condition <==> exists i :: 0 <= i < |t| && GroupHolds(t[i], header, row)
  {
    condition := false;
    var g := 0;
    while g < |t|
      invariant 0 <= g <= |t|
      invariant condition <==> exists k :: 0 <= k < g && GroupHolds(t[k], header, row)
    {
      condition := CheckPredicates(t[g], header, row);
      if condition {
        return;
      }
      g := g + 1;
    }
  }

  /** The server's row scan: every data row in order, kept when the predicate accepts it. */
  method FilterRows(t: Tree, header: Row, data: seq<Row>) returns (kept: seq<Row>)
    requires ColumnsValid(t, header)
    ensures forall r :: r in kept <==> r in data && TreeHolds(t, header, r)
    ensures kept == Select(t, header, data)
  {
    kept := [];
    var n := 0;
    while n < |data|
      invariant 0 <= n <= |data|
      invariant kept == Select(t, header, data[..n])
    {
      var condition := RowMatches(t, header, data[n]);
      SelectAppend(t, header, data[..n], [data[n]]);
      assert data[..n + 1] == data[..n] + [data[n]];
      if condition {
        kept := kept + [data[n]];
      } else {
        assert kept + [] == kept;
      }
      n := n + 1;
    }
    assert data[..n] == data;
    SelectMembers(t, header, data);
  }

  // ---------------------------------------------------------------------------
  // The answer

  /** The pipeline's gates in order: parameter, parse, column names; then the rows. */
  function Answer(table: Table, path: string): Result<seq<Row>, QueryError> {
    match ParamOf(path)
    case None => Failure(NoParams)
    case Some(param) =>
      match ParsePredicate(param)
      case Failure(e) => Failure(Unparsable(e))
      case Success(t) =>
        if !ColumnsValid(t, table.header) then Failure(InvalidColumn)
        else Success([table.header] + Select(t, table.header, table.data))
  }

  /** Errors never depend on the data rows: the parameter and the parse come before the table
      is looked at, and an unknown column is reported before any row is scanned. */
  lemma ErrorsIgnoreData(header: Row, d1: seq<Row>, d2: seq<Row>, path: string)
    ensures Answer(Table(header, d1), path).Failure? <==> Answer(Table(header, d2), path).Failure?
    ensures Answer(Table(header, d1), path).Failure? ==>
              Answer(Table(header, d1), path) == Answer(Table(header, d2), path)
  {
  }

  /** Proof helper: which error each gate reports, in the order the gates are passed. */
  lemma GateOrder(table: Table, path: string)
    ensures ParamOf(path).None? <==> Answer(table, path) == Failure(NoParams)
    ensures forall e :: Answer(table, path) == Failure(Unparsable(e)) <==>
              ParamOf(path).Some? && ParsePredicate(ParamOf(path).value) == Failure(e)
    ensures Answer(table, path) == Failure(InvalidColumn) <==>
              ParamOf(path).Some? && ParsePredicate(ParamOf(path).value).Success? &&
              !ColumnsValid(ParsePredicate(ParamOf(path).value).value, table.header)
  {
  }

  /** The gates in terms of the request target `key=value` (the key holding no '='): an empty
      value is a missing parameter, a value that does not parse reports the parse error, and a
      value that parses is refused exactly when one of its atoms names a column that is not a
      header cell. */
  lemma RequestGates(table: Table, key: string, value: string)
    requires '=' !in key
    ensures Answer(table, key + "=" + value) == Failure(NoParams) <==> value == []
    ensures value != [] ==> forall e :: Answer(table, key + "=" + value) == Failure(Unparsable(e)) <==>
                                          ParsePredicate(value) == Failure(e)
    ensures Answer(table, key + "=" + value) == Failure(InvalidColumn) <==>
              value != [] && ParsePredicate(value).Success? &&
              var t := ParsePredicate(value).value;
              exists i, j :: 0 <= i < |t| && 0 <= j < |t[i]| && t[i][j].column != [] && t[i][j].column !in table.header
  {
    var path := key + "=" + value;
    if value == [] {
      assert forall k :: 0 <= k < |key| ==> path[k] == key[k];
      assert path[|key|] == '=';
      assert IndexOf(path, '=') == |key|;
    } else {
      ParamAfterKey(key, value);
    }
    GateOrder(table, path);
  }

  /** A target without any '=' has no parameter. */
  lemma NoEqualsSign(table: Table, path: string)
    requires '=' !in path
    ensures Answer(table, path) == Failure(NoParams)
  {
    ParamFound(path);
  }

  /** A successful answer is the header followed by exactly the accepted data rows, in table
      order. */
  lemma AnswerRows(table: Table, path: string)
    requires Answer(table, path).Success?
    ensures var rows := Answer(table, path).value;
            |rows| >= 1 && rows[0] == table.header &&
            exists t: Tree :: ColumnsValid(t, table.header) &&
              ParamOf(path).Some? && ParsePredicate(ParamOf(path).value) == Success(t) &&
              rows[1..] == Select(t, table.header, table.data) &&
              forall r :: r in rows[1..] <==> r in table.data && TreeHolds(t, table.header, r)
  {
    var t := ParsePredicate(ParamOf(path).value).value;
    var rows := Answer(table, path).value;
    assert rows[1..] == Select(t, table.header, table.data);
    SelectMembers(t, table.header, table.data);
  }

  /** A query of nothing but spaces parses to the empty predicate and answers the header
      alone. */
  lemma BlankQueryAnswersHeader(table: Table, key: string, spaces: string)
    requires '=' !in key && spaces != [] && AllSpaces(spaces)
    ensures Answer(table, key + "=" + spaces) == Success([table.header])
  {
    ParamAfterKey(key, spaces);
    BlankQueryIsEmpty(spaces);
    SelectNothing(table.header, table.data);
    assert [table.header] + [] == [table.header];
  }

  // ---------------------------------------------------------------------------
  // The body

  /** One result row: the three cells joined with ',', never quoted. */
  function CellsLine(r: Row): string {
    r[0] + "," + (r[1] + "," + r[2])
  }

  function RowLine(r: Row): string {
    CellsLine(r) + "\n"
  }

  function Body(rows: seq<Row>): string
    decreases |rows|
  {
    if rows == [] then [] else RowLine(rows[0]) + Body(rows[1..])
  }

  /** The server's body loop: one line per row, appended in order. */
  method WriteBody(rows: seq<Row>) returns (body: string)
    ensures body == Csv.JoinLines(CellsLines(rows))
    ensures body == Body(rows)
  {
    body := "";
    var r := 0;
    while r < |rows|
      invariant 0 <= r <= |rows|
      invariant body + Body(rows[r..]) == Body(rows)
    {
      assert rows[r..][1..] == rows[r + 1..];
      Associative(body, RowLine(rows[r]), Body(rows[r + 1..]));
      body := body + RowLine(rows[r]);
      r := r + 1;
    }
    assert rows[r..] == [];
    assert body + [] == body;
    BodyIsJoinedLines(rows);
  }

  /** The text the client is meant to see: the error message, or the rows. */
  function AnswerText(a: Result<seq<Row>, QueryError>): string {
    match a
    case Failure(e) => ErrorMessage(e)
    case Success(rows) => Body(rows)
  }

  /** A cell the server's own reader gives back unchanged when it stands in a line. */
  predicate CleanCell(c: string) {
    Csv.Plain(c) && Trimmed(c) && '\n' !in c
  }

  predicate CleanRow(r: Row) {
    CleanCell(r[0]) && CleanCell(r[1]) && CleanCell(r[2]) && r[2] != []
  }

  /** The rows' lines without their '\n' terminators. */
  function CellsLines(rows: seq<Row>): (lines: seq<string>)
    ensures |lines| == |rows|
    ensures forall i :: 0 <= i < |rows| ==> lines[i] == CellsLine(rows[i])
  {
    seq(|rows|, i requires 0 <= i < |rows| => CellsLine(rows[i]))
  }

  lemma {:induction false} BodyIsJoinedLines(rows: seq<Row>)
    ensures Body(rows) == Csv.JoinLines(CellsLines(rows))
    decreases |rows|
  {
    if rows != [] {
      BodyIsJoinedLines(rows[1..]);
      assert CellsLines(rows)[1..] == CellsLines(rows[1..]);
    }
  }

  /** A clean row's line is what the CSV encoder writes for it, and holds no '\n'. */
  lemma CellsLineEncodes(r: Row)
    requires CleanRow(r)
    ensures CellsLine(r) == Csv.EncodeRow(r)
    ensures '\n' !in CellsLine(r)
  {
    var t := r[1..];
    assert |t| == 2 && t[0] == r[1] && t[1..] == [r[2]];
    assert Csv.EncodeRow(t[1..]) == r[2];
    assert Csv.EncodeRow(t) == r[1] + "," + r[2];
  }

  /** Reading the body back with the server's own CSV reader gives back the rows, provided no
      cell needs quoting: the body joins the cells with ',' and never re-quotes them. */
  lemma BodyRoundTrip(rows: seq<Row>)
    requires forall i :: 0 <= i < |rows| ==> CleanRow(rows[i])
    ensures Csv.ReadCsv(Body(rows)) == rows
  {
    var lines := CellsLines(rows);
    forall i | 0 <= i < |rows|
      ensures '\n' !in lines[i] && Csv.ReadCsvRow(lines[i]) == rows[i]
    {
      CleanLineReads(rows[i]);
    }
    BodyIsJoinedLines(rows);
    Csv.ReadJoinedLines(lines, rows);
  }

  /** A clean row's line reads back as the row. */
  lemma CleanLineReads(r: Row)
    requires CleanRow(r)
    ensures '\n' !in CellsLine(r) && Csv.ReadCsvRow(CellsLine(r)) == r
  {
    CellsLineEncodes(r);
    Csv.EncodeRoundTrip(r);
  }

  /** The body has one '\n' per row when no cell holds one. */
  lemma {:induction false} BodyNewlines(rows: seq<Row>)
    requires forall i :: 0 <= i < |rows| ==> '\n' !in CellsLine(rows[i])
    ensures Occurrences(Body(rows), '\n') == |rows|
    decreases |rows|
  {
    if rows != [] {
      var l := CellsLine(rows[0]);
      BodyNewlines(rows[1..]);
      OccurrencesAppend(RowLine(rows[0]), Body(rows[1..]), '\n');
      OccurrencesAppend(l, "\n", '\n');
      OccurrencesAbsent(l, '\n');
    }
  }

  // ---------------------------------------------------------------------------
  // The reply

  /** Every error message fits the 1024-byte error buffer together with its envelope. */
  lemma ErrorFits(e: QueryError)
    ensures |Response(ErrorMessage(e))| < 1024
  {
    MessageShape(e);
    ShortMessageFits(ErrorMessage(e));
  }

  /** Every error message is a short, non-empty text without NUL. */
  lemma MessageShape(e: QueryError)
    ensures var m := ErrorMessage(e); 0 < |m| < 40 && '\0' !in m
  {
    match e
    case NoParams =>
    case InvalidColumn =>
    case Unparsable(p) => ParseMessageShape(p);
  }

  /** Every parse message is short and NUL-free. The case split only keeps each proof
      obligation small: the same helper closes every case. */
  lemma ParseMessageShape(p: ParseError)
    ensures 0 < |Message(p)| < 40 && '\0' !in Message(p)
  {
    if p.UnterminatedColumn? || p.MissingOperator? {
      MessageText(Message(p));
    } else if p.UnknownOperator? || p.MissingTarget? {
      MessageText(Message(p));
    } else {
      MessageText(Message(p));
    }
  }

  /** Proof helper: turns the index-wise fact about a message literal into membership. */
  lemma MessageText(m: string)
    requires forall i :: 0 <= i < |m| ==> m[i] != '\0'
    ensures '\0' !in m
  {
  }

  lemma ShortMessageFits(m: string)
    requires |m| < 100
    ensures |Response(m)| < 1024
  {
    EnvelopeLength(|CText(m)|, CText(m));
    DecimalLength(|CText(m)|, 2);
  }

  /** The error packet `send_error` writes for an error. */
  function ErrorReply(e: QueryError): (r: string)
    ensures |r| == 1024
  {
    ErrorFits(e);
    ErrorPacket(ErrorMessage(e))
  }

  /** The bytes sent back: an error in its 1024-byte packet, or the rows in their envelope.
      Either way the reply starts with the `200 OK` status line. */
  function Reply(table: Table, path: string): (r: string)
    ensures |r| >= 15 && r[..15] == "HTTP/1.1 200 OK"
  {
    match Answer(table, path)
    case Failure(e) =>
      ErrorFits(e);
      ErrorPacketStatus(ErrorMessage(e));
      ErrorReply(e)
    case Success(rows) =>
      StatusFirst(|CText(Body(rows))|, CText(Body(rows)));
      Response(Body(rows))
  }

  /** One request from its request line: the target between the first two spaces, decoded by
      `decode`, is answered. */
  function Serve(table: Table, line: string, decode: string -> string): (r: string)
    requires HasTarget(line)
    ensures |r| >= 15 && r[..15] == "HTTP/1.1 200 OK"
  {
    Reply(table, decode(RequestTarget(line)))
  }

  /** No cell of the table holds a NUL. */
  predicate NulFreeTable(table: Table) {
    NulFreeRow(table.header) && forall i :: 0 <= i < |table.data| ==> NulFreeRow(table.data[i])
  }

  predicate NulFreeRow(r: Row) {
    '\0' !in r[0] && '\0' !in r[1] && '\0' !in r[2]
  }

  lemma {:induction false} BodyNulFree(rows: seq<Row>)
    requires forall i :: 0 <= i < |rows| ==> NulFreeRow(rows[i])
    ensures '\0' !in Body(rows)
    decreases |rows|
  {
    if rows != [] {
      BodyNulFree(rows[1..]);
      var r := rows[0];
      assert '\0' !in r[1] + "," + r[2];
      assert '\0' !in CellsLine(r);
      assert '\0' !in RowLine(r);
    }
  }

  /** The client sees an error as its message. */
  lemma ClientSeesError(e: QueryError)
    ensures ClientReceive(ErrorReply(e)) == Received(Response(ErrorMessage(e)))
    ensures ClientBody(ErrorReply(e)) == Some(ErrorMessage(e))
  {
    MessageShape(e);
    ErrorFits(e);
    ClientSeesMessage(ErrorMessage(e));
  }

  /** The packet's NUL padding starts inside the client's buffer, so the client receives the
      envelope whole. */
  lemma ClientSeesMessage(m: string)
    requires m != [] && '\0' !in m && |Response(m)| < 1024
    ensures ClientReceive(ErrorPacket(m)) == Received(Response(m))
    ensures ClientBody(ErrorPacket(m)) == Some(m)
  {
    CTextOfNulFree(m);
    ErrorPacketReads(m);
    ClientRecoversBody(m);
    var packet := ErrorPacket(m);
    assert packet[..ClientBufferSize] == packet;
    assert packet[|Response(m)|] == '\0';
  }

  /** The client sees rows without NUL as the body, which is never empty: it holds at least the
      header line. */
  lemma ClientSeesRows(rows: seq<Row>)
    requires |rows| >= 1
    requires forall i :: 0 <= i < |rows| ==> NulFreeRow(rows[i])
    ensures ClientBody(Response(Body(rows))) == Some(Body(rows))
    ensures ClientReceive(Response(Body(rows))) ==
              if |Response(Body(rows))| < ClientBufferSize then Received(Response(Body(rows))) else Overrun
  {
    BodyNulFree(rows);
    CTextOfNulFree(Body(rows));
    assert Body(rows) != [];
    ClientRecoversBody(Body(rows));
  }

  /** Every row of an answer is the header or a data row, so a NUL-free table gives NUL-free
      answer rows. */
  lemma AnswerRowsNulFree(table: Table, path: string)
    requires NulFreeTable(table) && Answer(table, path).Success?
    ensures var rows := Answer(table, path).value;
            |rows| >= 1 && forall i :: 0 <= i < |rows| ==> NulFreeRow(rows[i])
  {
    var t := ParsePredicate(ParamOf(path).value).value;
    var rows := Answer(table, path).value;
    SelectMembers(t, table.header, table.data);
    forall i | 0 <= i < |rows|
      ensures NulFreeRow(rows[i])
    {
      if i > 0 {
        assert rows[i] in rows[1..];
      }
    }
  }

  /** The test client, stripping the envelope, sees exactly the answer's text: the error
      message, or the header line followed by the accepted rows. */
  lemma ClientSeesAnswer(table: Table, path: string)
    requires NulFreeTable(table)
    ensures ClientBody(Reply(table, path)) == Some(AnswerText(Answer(table, path)))
    ensures ClientReceive(Reply(table, path)).Overrun? <==>
              Answer(table, path).Success? && |Reply(table, path)| >= ClientBufferSize
    ensures ClientReceive(Reply(table, path)).Received? ==>
              ClientBody(ClientReceive(Reply(table, path)).text) == Some(AnswerText(Answer(table, path)))
  {
    var reply := Reply(table, path);
    var answer := Answer(table, path);
    ClientSeesReply(table, path);
    if ClientReceive(reply).Received? {
      ReceivedReadsAsReply(reply);
    }
    assert ClientReceive(reply).Overrun? <==> answer.Success? && |reply| >= ClientBufferSize;
  }

  /** The two halves of `ClientSeesAnswer` that look at the reply itself. */
  lemma ClientSeesReply(table: Table, path: string)
    requires NulFreeTable(table)
    ensures ClientBody(Reply(table, path)) == Some(AnswerText(Answer(table, path)))
    ensures ClientReceive(Reply(table, path)).Overrun? <==>
              Answer(table, path).Success? && |Reply(table, path)| >= ClientBufferSize
  {
    match Answer(table, path)
    case Failure(e) =>
      ClientSeesError(e);
    case Success(rows) =>
      AnswerRowsNulFree(table, path);
      ClientSeesRows(rows);
  }

  // ---------------------------------------------------------------------------
  // The worker

  /** The pure middle of `worker`: the parameter scan, the parse, the column check, the row
      scan and the body loop, then the reply. */
  method Worker(table: Table, path: string) returns (reply: string)
    ensures reply == Reply(table, path)
  {
    var param := FindParam(path);
    if param.None? {
      return ErrorReply(NoParams);
    }
    var parsed := ParsePredicate(param.value);
    if parsed.Failure? {
      return ErrorReply(Unparsable(parsed.error));
    }
    var t := parsed.value;
    var ok := ValidateColumns(t, table.header);
    if !ok {
      return ErrorReply(InvalidColumn);
    }
    var kept := FilterRows(t, table.header, table.data);
    var body := WriteBody([table.header] + kept);
    reply := Response(body);
  }
}
