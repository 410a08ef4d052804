/** The query-language parser (parse_predicate and its helpers).

    `parse_predicate` scans an index `cur` forward through the parameter string; here every scanner
    takes the unread suffix `param[cur..]` and returns the suffix left after it, which is the
    same single forward pass without index arithmetic. */
module PredicateParser {
  import opened Results

  /** The four comparison operators. */
  datatype Operator = Equal | NotEqual | CaseInsensitive | Contains

  /** One comparison `column op "target"`; an empty column means "any column". */
  datatype Atom = Atom(column: string, target: string, op: Operator)

  /** A conjunction of atoms. */
  type Group = seq<Atom>

  /** A disjunction of groups. */
  type Tree = seq<Group>

  /** The parser's failures, one per fixed message. */
  datatype ParseError =
    | UnterminatedColumn
    | MissingOperator
    | UnknownOperator
    | MissingTarget
    | DanglingEscape
    | UnclosedTarget

  /** The exact text the server answers with for each failure. */
  function Message(e: ParseError): string {
    match e
    case UnterminatedColumn => "failed to parse predicate"
    case MissingOperator => "failed to find operator"
    case UnknownOperator => "failed to parse operator"
    case MissingTarget => "failed to find target"
    case DanglingEscape => "parse failed"
    case UnclosedTarget => "wrong predicate format, expected \""
  }

  /** Column names are made of ASCII letters and digits. */
  predicate IsColumnChar(c: char) {
    ('A' <= c <= 'Z') || ('a' <= c <= 'z') || ('0' <= c <= '9')
  }

  predicate IsColumnName(name: string) {
    forall k :: 0 <= k < |name| ==> IsColumnChar(name[k])
  }

  /** Skips ' ' characters (only the space character, not other whitespace). */
  function SkipSpaces(s: string): (r: string)
    ensures |r| <= |s| && r == s[|s| - |r|..]
    ensures forall k :: 0 <= k < |s| - |r| ==> s[k] == ' '
    ensures r == [] || r[0] != ' '
    decreases |s|
  {
    if |s| > 0 && s[0] == ' ' then SkipSpaces(s[1..]) else s
  }

  /** Splits off the longest prefix of column characters. */
  function ScanColumn(s: string): (r: (string, string))
    ensures r.0 + r.1 == s
    ensures IsColumnName(r.0)
    ensures r.1 == [] || !IsColumnChar(r.1[0])
    decreases |s|
  {
    if |s| > 0 && IsColumnChar(s[0]) then
      var (column, rest) := ScanColumn(s[1..]);
      assert [s[0]] + (column + rest) == s;
      ([s[0]] + column, rest)
    else
      ([], s)
  }

  /** The two-character spelling of each operator. */
  function OpText(op: Operator): string {
    match op
    case Equal => "=="
    case NotEqual => "!="
    case CaseInsensitive => "$="
    case Contains => "&="
  }

  /** Recognises the operator at the front of `s`: a second character '=' preceded by one of
      '=', '!', '$', '&'. */
  function GetOperator(s: string): (r: Option<Operator>)
    ensures forall op :: r == Some(op) <==> |s| >= 2 && s[..2] == OpText(op)
  {
    if |s| < 2 || s[1] != '=' then None
    else if s[0] == '=' then Some(Equal)
    else if s[0] == '!' then Some(NotEqual)
    else if s[0] == '$' then Some(CaseInsensitive)
    else if s[0] == '&' then Some(Contains)
    else None
  }

  /** Outcome of scanning a target: the target text and the input after its closing quote. */
  datatype TargetScan = Scanned(target: string, rest: string) | TargetError(error: ParseError)

  /** Scans a target, having seen `quotes` unescaped '"' so far and collected `acc`.
      A backslash takes the next character literally; an unescaped '"' is dropped and counted,
      and the second one ends the target; every other character is kept. */
  function ScanTarget(s: string, quotes: nat, acc: string): (r: TargetScan)
    requires quotes < 2
    ensures r.Scanned? ==> |r.rest| < |s|
    ensures r.TargetError? ==> r.error == DanglingEscape || r.error == UnclosedTarget
    decreases |s|
  {
    if s == [] then TargetError(UnclosedTarget)
    else if s[0] == '\\' then
      if |s| < 2 then TargetError(DanglingEscape)
      else ScanTarget(s[2..], quotes, acc + [s[1]])
    else if s[0] == '"' then
      if quotes == 1 then Scanned(acc, s[1..])
      else ScanTarget(s[1..], quotes + 1, acc)
    else ScanTarget(s[1..], quotes, acc + [s[0]])
  }

  /** Outcome of parsing one atom: the atom and the input after it. */
  datatype AtomScan = Parsed(atom: Atom, rest: string) | AtomError(error: ParseError)

  /** Parses `column op target` from input whose first character is not a space. */
  function ParseAtom(s: string): (r: AtomScan)
    requires s != []
    ensures r.Parsed? ==> |r.rest| + 3 <= |s| && IsColumnName(r.atom.column)
  {
    var (column, afterColumn) := ScanColumn(s);
    if afterColumn == [] then AtomError(UnterminatedColumn)
    else AfterColumn(column, afterColumn)
  }

  /** The operator, after the column and the spaces that may follow it. */
  function AfterColumn(column: string, s: string): (r: AtomScan)
    requires IsColumnName(column)
    ensures r.Parsed? ==> |r.rest| + 2 < |s| && r.atom.column == column
  {
    var atOp := SkipSpaces(s);
    if atOp == [] then AtomError(MissingOperator)
    else match GetOperator(atOp)
      case None => AtomError(UnknownOperator)
      case Some(op) => AfterOperator(column, op, atOp[2..])
  }

  /** The target, after the operator and the spaces that may follow it. */
  function AfterOperator(column: string, op: Operator, s: string): (r: AtomScan)
    ensures r.Parsed? ==> |r.rest| < |s| && r.atom.column == column
  {
    var atTarget := SkipSpaces(s);
    if atTarget == [] then AtomError(MissingTarget)
    else match ScanTarget(atTarget, 0, [])
      case TargetError(e) => AtomError(e)
      case Scanned(target, rest) => Parsed(Atom(column, target, op), rest)
  }

  /** The groups collected so far, with the current group added when it is not empty. */
  function Close(done: Tree, group: Group): Tree {
    if group != [] then done + [group] else done
  }

  /** The top of the parser's loop: skip spaces, stop at the end of input, otherwise parse an
      atom into the current group. */
  function ParseFrom(s: string, done: Tree, group: Group): Result<Tree, ParseError>
    decreases |s|, 0
  {
    var start := SkipSpaces(s);
    if start == [] then Success(Close(done, group))
    else match ParseAtom(start)
      case AtomError(e) => Failure(e)
      case Parsed(atom, rest) => Continue(rest, done, group + [atom])
  }

  /** After an atom: `or` closes the current group, `and` (or no connective at all) keeps it
      open. The connectives are matched as bare prefixes, without word boundaries. */
  function Continue(s: string, done: Tree, group: Group): Result<Tree, ParseError>
    decreases |s|, 1
  {
    var k := SkipSpaces(s);
    if k == [] then Success(Close(done, group))
    else if |k| >= 2 && k[0] == 'o' && k[1] == 'r' then ParseFrom(k[2..], done + [group], [])
    else if |k| >= 3 && k[0] == 'a' && k[1] == 'n' && k[2] == 'd' then ParseFrom(k[3..], done, group)
    else ParseFrom(k, done, group)
  }

  /** Parses a whole query string into an OR of AND-groups, or the first error met. */
  function ParsePredicate(param: string): Result<Tree, ParseError> {
    ParseFrom(param, [], [])
  }
}
