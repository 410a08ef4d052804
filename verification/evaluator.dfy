/**
 * Deciding whether an atom, or an AND-group of atoms, matches one row of the table.
 *
 * The reference semantics are the functions `CheckOperation`, `AtomHolds` and `GroupHolds`;
 * the server's loops (`cmp_ignore_case`, `contains`, `check_predicates`) are methods proved
 * against them.
 */
module Evaluator {
  import opened Results
  import opened PredicateParser

  /** Every row, the header included, has exactly the three cells the server indexes. */
  type Row = r: seq<string> | |r| == 3 witness ["", "", ""]

  /** Largest value of a C `int`: the loop counters and `l2` in `contains` are `int`s. */
  const IntMax: int := 0x7fff_ffff

  /** `size_t` arithmetic wraps modulo 2^64. */
  const SizeModulus: int := 0x1_0000_0000_0000_0000

  // ---------------------------------------------------------------------------
  // Case folding

  /** ASCII upper case to lower case; every other character is left alone. */
  function LowerChar(c: char): (r: char)
    ensures 'A' <= c <= 'Z' ==> 'a' <= r <= 'z' && r as int - c as int == 32
    ensures !('A' <= c <= 'Z') ==> r == c
  {
    if 'A' <= c <= 'Z' then (c as int - 'A' as int + 'a' as int) as char else c
  }

  function ToLower(s: string): (r: string)
    ensures |r| == |s| && forall i :: 0 <= i < |s| ==> r[i] == LowerChar(s[i])
  {
    seq(|s|, i requires 0 <= i < |s| => LowerChar(s[i]))
  }

  /** Equal length, and equal once ASCII letters are lower-cased. */
  predicate IgnoreCaseEqual(s1: string, s2: string) {
    |s1| == |s2| && ToLower(s1) == ToLower(s2)
  }

  /** The server's `cmp_ignore_case`: a length check, then a character-by-character comparison
      of the lower-cased characters that stops at the first difference. */
  method CmpIgnoreCase(s1: string, s2: string) returns (r: bool)
    ensures r <==> IgnoreCaseEqual(s1, s2)
  {
    if |s1| != |s2| {
      return false;
    }
    var i := 0;
    while i < |s1|
      invariant 0 <= i <= |s1|
      invariant forall k :: 0 <= k < i ==> LowerChar(s1[k]) == LowerChar(s2[k])
    {
      var l1 := LowerChar(s1[i]);
      var l2 := LowerChar(s2[i]);
      if l1 != l2 {
        assert ToLower(s1)[i] != ToLower(s2)[i];
        return false;
      }
      i := i + 1;
    }
    assert ToLower(s1) == ToLower(s2);
    return true;
  }

  // ---------------------------------------------------------------------------
  // Substrings

  /** `t` occurs in `s` starting at position `j`. */
  predicate OccursAt(t: string, s: string, j: int) {
    0 <= j && j + |t| <= |s| && s[j..j + |t|] == t
  }

  predicate IsSubstring(t: string, s: string) {
    exists j :: 0 <= j <= |s| - |t| && OccursAt(t, s, j)
  }

  /** `s.substr(pos, count)`: the characters from `pos`, at most `count` of them. Only defined
      for `pos <= |s|`; a larger `pos` throws `std::out_of_range`. */
  function Substr(s: string, pos: nat, count: nat): (r: string)
    requires pos <= |s|
    ensures |r| <= count && |r| <= |s| - pos
    ensures pos + count <= |s| ==> r == s[pos..pos + count]
    ensures pos + count > |s| ==> r == s[pos..]
  {
    if pos + count <= |s| then s[pos..pos + count] else s[pos..]
  }

  /** `contains` with its loop bound computed in unbounded integers, which is what the server
      intends: every start position from 0 up to `|s1| - |s2|` is tried. */
  method ContainsText(s1: string, s2: string) returns (r: bool)
    ensures r <==> IsSubstring(s2, s1)
  {
    var l2 := |s2|;
    var i := 0;
    while i < |s1| - l2 + 1
      invariant 0 <= i
      invariant i <= |s1| - l2 + 1 || i == 0
      invariant forall j :: 0 <= j < i ==> !OccursAt(s2, s1, j)
      decreases |s1| - l2 + 1 - i
    {
      if Substr(s1, i, l2) == s2 {
        assert OccursAt(s2, s1, i);
        return true;
      }
      i := i + 1;
    }
    return false;
  }

  /** `contains` exactly as the server computes it: `s1.size() - l2 + 1` is evaluated in
      `size_t`, so for a target two or more characters longer than the cell it wraps to a huge
      bound, the scan walks past the end of the cell and `substr` throws. `None` stands for that
      exception, which nothing catches, so the server process terminates. */
  method ContainsAsWritten(s1: string, s2: string) returns (r: Option<bool>)
    requires |s1| <= IntMax && |s2| <= IntMax
    ensures |s2| <= |s1| + 1 ==> r == Some(IsSubstring(s2, s1))
    ensures |s2| >= |s1| + 2 ==> r == None
  {
    var l2 := |s2|;
    var bound := (|s1| - l2 + 1) % SizeModulus;
    assert |s2| <= |s1| + 1 ==> bound == |s1| - l2 + 1;
    assert |s2| >= |s1| + 2 ==> bound == |s1| - l2 + 1 + SizeModulus;
    var i := 0;
    while i < bound
      invariant 0 <= i <= bound && i <= |s1| + 1
      invariant forall j :: 0 <= j < i ==> !OccursAt(s2, s1, j)
      decreases bound - i
    {
      if i > |s1| {
        return None;
      }
      if Substr(s1, i, l2) == s2 {
        assert OccursAt(s2, s1, i);
        return Some(true);
      }
      i := i + 1;
    }
    return Some(false);
  }

  // ---------------------------------------------------------------------------
  // Operators

  /** What one operator says about one cell. */
  function CheckOperation(op: Operator, target: string, cell: string): bool {
    match op
    case Equal => cell == target
    case NotEqual => cell != target
    case CaseInsensitive => IgnoreCaseEqual(cell, target)
    case Contains => IsSubstring(target, cell)
  }

  /** The server's `check_operation`: dispatch on the operator. */
  method CheckOperationOf(op: Operator, target: string, cell: string) returns (r: bool)
    ensures op == Equal ==> (r <==> cell == target)
    ensures op == NotEqual ==> (r <==> cell != target)
    ensures op == CaseInsensitive ==>
              (r <==> (|cell| == |target| &&
                       forall k :: 0 <= k < |cell| ==> LowerChar(cell[k]) == LowerChar(target[k])))
    ensures op == Operator.Contains ==>
              (r <==> exists j :: 0 <= j <= |cell| - |target| && OccursAt(target, cell, j))
    ensures r == CheckOperation(op, target, cell)
  {
    match op
    case Equal => r := cell == target;
    case NotEqual => r := cell != target;
    case CaseInsensitive =>
      r := CmpIgnoreCase(cell, target);
      if |cell| == |target| && r {
        forall k | 0 <= k < |cell|
          ensures LowerChar(cell[k]) == LowerChar(target[k])
        {
          assert ToLower(cell)[k] == ToLower(target)[k];
        }
      }
      if |cell| == |target| && forall k :: 0 <= k < |cell| ==> LowerChar(cell[k]) == LowerChar(target[k]) {
        assert ToLower(cell) == ToLower(target);
      }
    case Contains =>
      r := ContainsText(cell, target);
  }

  /** How the operators relate: `!=` is the exact negation of `==`; `==` implies both `$=` and
      `&=`; an empty target is contained in every cell; `$=` never holds between strings of
      different lengths; and a target longer than the cell is never contained in it. */
  lemma OperatorSemantics(target: string, cell: string)
    ensures CheckOperation(NotEqual, target, cell) == !CheckOperation(Equal, target, cell)
    ensures CheckOperation(Equal, target, cell) ==> CheckOperation(CaseInsensitive, target, cell)
    ensures CheckOperation(Equal, target, cell) ==> CheckOperation(Operator.Contains, target, cell)
    ensures target == [] ==> CheckOperation(Operator.Contains, target, cell)
    ensures |target| != |cell| ==> !CheckOperation(CaseInsensitive, target, cell)
    ensures |target| > |cell| ==> !CheckOperation(Operator.Contains, target, cell)
  {
    if cell == target {
      assert OccursAt(target, cell, 0);
    }
    if target == [] {
      assert OccursAt(target, cell, 0);
    }
  }

  /** Case-insensitive equality is an equivalence: it is what equality of the lower-cased texts
      makes it. */
  lemma IgnoreCaseEquivalence(a: string, b: string, c: string)
    ensures IgnoreCaseEqual(a, a)
    ensures IgnoreCaseEqual(a, b) ==> IgnoreCaseEqual(b, a)
    ensures IgnoreCaseEqual(a, b) && IgnoreCaseEqual(b, c) ==> IgnoreCaseEqual(a, c)
  {
  }

  /** Only ASCII letters are folded: two strings with no letters in them are equal ignoring
      case exactly when they are equal. */
  lemma IgnoreCaseWithoutLetters(a: string, b: string)
    requires forall i :: 0 <= i < |a| ==> !('A' <= a[i] <= 'Z') && !('a' <= a[i] <= 'z')
    requires forall i :: 0 <= i < |b| ==> !('A' <= b[i] <= 'Z') && !('a' <= b[i] <= 'z')
    ensures IgnoreCaseEqual(a, b) <==> a == b
  {
    if IgnoreCaseEqual(a, b) {
      forall i | 0 <= i < |a|
        ensures a[i] == b[i]
      {
        assert ToLower(a)[i] == ToLower(b)[i];
      }
    }
  }

  // ---------------------------------------------------------------------------
  // Columns

  /** The server's `check_valid_column`: a linear search of the header row. */
  function ValidColumn(header: seq<string>, name: string): (r: bool)
    ensures r <==> name in header
  {
    if header == [] then false
    else header[0] == name || ValidColumn(header[1..], name)
  }

  /** The server's `get_column`: the first of the three header cells equal to `name`. Its
      `exit(-1)` when there is none is excluded by the precondition. */
  function ColumnIndex(header: Row, name: string): (i: nat)
    requires name in header
    ensures i < 3 && header[i] == name
    ensures forall k :: 0 <= k < i ==> header[k] != name
  {
    if header[0] == name then 0 else if header[1] == name then 1 else 2
  }

  /** Every named column of the group is a header cell. */
  predicate ColumnsKnown(g: Group, header: Row) {
    forall i :: 0 <= i < |g| ==> g[i].column == [] || g[i].column in header
  }

  /** An atom with an empty column matches if any of the three cells matches; otherwise it
      looks at the cell under the first header cell with its name. */
  predicate AtomHolds(a: Atom, header: Row, row: Row)
    requires a.column == [] || a.column in header
  {
    if a.column == [] then exists i :: 0 <= i < 3 && CheckOperation(a.op, a.target, row[i])
    else CheckOperation(a.op, a.target, row[ColumnIndex(header, a.column)])
  }

  /** An AND-group holds when every one of its atoms does. */
  predicate GroupHolds(g: Group, header: Row, row: Row)
    requires ColumnsKnown(g, header)
  {
    forall i :: 0 <= i < |g| ==> AtomHolds(g[i], header, row)
  }

  /** The OR of AND-groups holds when some group does. */
  predicate TreeHolds(t: Tree, header: Row, row: Row)
    requires forall i :: 0 <= i < |t| ==> ColumnsKnown(t[i], header)
  {
    exists i :: 0 <= i < |t| && GroupHolds(t[i], header, row)
  }

  /** The server's `check_predicates`: walk the atoms keeping a running AND, returning `false`
      as soon as it drops; an empty column tries the three cells left to right. */
  method CheckPredicates(g: Group, header: Row, row: Row) returns (r: bool)
    requires ColumnsKnown(g, header)
    ensures r <==> forall i :: 0 <= i < |g| ==> AtomHolds(g[i], header, row)
  {
    var condition := true;
    var i := 0;
    while i < |g|
      invariant 0 <= i <= |g|
      invariant condition <==> forall k :: 0 <= k < i ==> AtomHolds(g[k], header, row)
    {
      if !condition {
        return false;
      }
      var a := g[i];
      var holds: bool;
      if a.column == [] {
        holds := CheckOperationOf(a.op, a.target, row[0]);
        if !holds {
          holds := CheckOperationOf(a.op, a.target, row[1]);
        }
        if !holds {
          holds := CheckOperationOf(a.op, a.target, row[2]);
        }
      } else {
        holds := CheckOperationOf(a.op, a.target, row[ColumnIndex(header, a.column)]);
      }
      condition := condition && holds;
      i := i + 1;
    }
    return condition;
  }

  /** A group that names a column only through the empty column matches a row exactly when
      each of its atoms matches one of the row's cells, whatever the header says. */
  lemma AnyColumnIgnoresHeader(g: Group, h1: Row, h2: Row, row: Row)
    requires forall i :: 0 <= i < |g| ==> g[i].column == []
    ensures GroupHolds(g, h1, row) <==> GroupHolds(g, h2, row)
  {
  }

  /** Adding a group can only let more rows through, and the empty OR accepts no row. */
  lemma TreeMonotone(t: Tree, g: Group, header: Row, row: Row)
    requires forall i :: 0 <= i < |t| ==> ColumnsKnown(t[i], header)
    requires ColumnsKnown(g, header)
    ensures TreeHolds(t, header, row) ==> TreeHolds(t + [g], header, row)
    ensures GroupHolds(g, header, row) ==> TreeHolds(t + [g], header, row)
    ensures !TreeHolds([], header, row)
  {
    var t2 := t + [g];
    if TreeHolds(t, header, row) {
      var i :| 0 <= i < |t| && GroupHolds(t[i], header, row);
      assert t2[i] == t[i];
    }
    if GroupHolds(g, header, row) {
      assert t2[|t|] == g;
    }
  }
}
