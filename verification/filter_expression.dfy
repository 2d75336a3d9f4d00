/** The fragment of the dynamic-LINQ predicate language that filter strings use: comparisons on
    event properties, string method calls, `Not`/`!`, `And`, `Or` and parentheses. Tokenising is
    not modelled; a filter string reaches this module as a sequence of tokens, each comparison or
    method call already a single token. */
module FilterExpression {
  import opened Wrappers
  import opened Events
  import Text

  /** Integer-valued event properties. */
  datatype NumField = EventId | ErrorLevel | CategoryNumber | InstanceId | Index

  /** String-valued event properties; `EntryType` compares by member name. */
  datatype StrField = EntryTypeField | Source | Message | Category

  /** Comparison operators; `<>` and `!=` are two spellings of inequality. */
  datatype CmpOp = Eq | NotEqAngle | NotEqBang | Less | LessEq | Greater | GreaterEq

  datatype StrMethod = Contains | StartsWith | EndsWith

  /** A comparison or method call, the leaves of a filter expression. */
  datatype Comparison =
    | NumCompare(field: NumField, op: CmpOp, number: int)
    | StrCompare(sfield: StrField, sop: CmpOp, text: string)
    | Call(target: StrField, callee: StrMethod, arg: string)

  datatype Expr =
    | Leaf(c: Comparison)
    | Not(operand: Expr)
    | And(left: Expr, right: Expr)
    | Or(left: Expr, right: Expr)

  function NumValue(f: NumField, e: LogEvent): int {
    match f
    case EventId => e.eventId
    case ErrorLevel => e.errorLevel
    case CategoryNumber => e.categoryNumber
    case InstanceId => e.instanceId
    case Index => e.index
  }

  function StrValue(f: StrField, e: LogEvent): string {
    match f
    case EntryTypeField => EntryTypeName(e.entryType)
    case Source => e.source
    case Message => e.message
    case Category => e.category
  }

  predicate CompareNum(op: CmpOp, a: int, b: int) {
    match op
    case Eq => a == b
    case NotEqAngle => a != b
    case NotEqBang => a != b
    case Less => a < b
    case LessEq => a <= b
    case Greater => a > b
    case GreaterEq => a >= b
  }

  /** Strings order ordinally, by code unit. */
  predicate CompareStr(op: CmpOp, a: string, b: string) {
    match op
    case Eq => a == b
    case NotEqAngle => a != b
    case NotEqBang => a != b
    case Less => Text.OrdinalLess(a, b)
    case LessEq => a == b || Text.OrdinalLess(a, b)
    case Greater => Text.OrdinalLess(b, a)
    case GreaterEq => a == b || Text.OrdinalLess(b, a)
  }

  predicate CallHolds(m: StrMethod, s: string, arg: string) {
    match m
    case Contains => Text.Contains(s, arg)
    case StartsWith => Text.StartsWith(s, arg)
    case EndsWith => Text.EndsWith(s, arg)
  }

  predicate Holds(c: Comparison, e: LogEvent) {
    match c
    case NumCompare(f, op, n) => CompareNum(op, NumValue(f, e), n)
    case StrCompare(f, op, t) => CompareStr(op, StrValue(f, e), t)
    case Call(f, m, arg) => CallHolds(m, StrValue(f, e), arg)
  }

  /** The predicate a filter expression denotes. */
  predicate Eval(x: Expr, e: LogEvent) {
    match x
    case Leaf(c) => Holds(c, e)
    case Not(y) => !Eval(y, e)
    case And(l, r) => Eval(l, e) && Eval(r, e)
    case Or(l, r) => Eval(l, e) || Eval(r, e)
  }

  /** Both spellings of inequality are the negation of `=`, on numbers and on strings. */
  lemma InequalityNegatesEquality(c: Comparison, e: LogEvent)
    ensures c.NumCompare? && c.op in {NotEqAngle, NotEqBang}
            ==> (Holds(c, e) <==> !Holds(c.(op := Eq), e))
    ensures c.StrCompare? && c.sop in {NotEqAngle, NotEqBang}
            ==> (Holds(c, e) <==> !Holds(c.(sop := Eq), e))
  {
  }

  // ---------------------------------------------------------------------------------------
  // Tokens and the recursive-descent parser

  /** `NotWord(bang)`: `!` when `bang`, the keyword `Not` otherwise. */
  datatype Token = Atom(c: Comparison) | AndWord | OrWord | NotWord(bang: bool) | Open | Close

  /** A parsed expression and the index of the first token after it. */
  datatype Parsed = Parsed(x: Expr, next: nat)

  const ExpressionExpected := "Expression expected"
  const CloseParenOrOperatorExpected := "')' or operator expected"
  const SyntaxError := "Syntax error"

  /** Or-expression: and-expressions separated by `Or`, grouped to the left. */
  function ParseOr(ts: seq<Token>, pos: nat): (r: Result<Parsed, string>)
    requires pos <= |ts|
    ensures r.Success? ==> pos < r.value.next <= |ts|
    decreases |ts| - pos, 3
  {
    var first :- ParseAnd(ts, pos);
    ParseOrTail(ts, first.x, first.next)
  }

  function ParseOrTail(ts: seq<Token>, left: Expr, pos: nat): (r: Result<Parsed, string>)
    requires pos <= |ts|
    ensures r.Success? ==> pos <= r.value.next <= |ts|
    decreases |ts| - pos, 0
  {
    if pos < |ts| && ts[pos] == OrWord then
      var right :- ParseAnd(ts, pos + 1);
      ParseOrTail(ts, Or(left, right.x), right.next)
    else
      Success(Parsed(left, pos))
  }

  /** And-expression: unary expressions separated by `And`, grouped to the left. */
  function ParseAnd(ts: seq<Token>, pos: nat): (r: Result<Parsed, string>)
    requires pos <= |ts|
    ensures r.Success? ==> pos < r.value.next <= |ts|
    decreases |ts| - pos, 2
  {
    var first :- ParseUnary(ts, pos);
    ParseAndTail(ts, first.x, first.next)
  }

  function ParseAndTail(ts: seq<Token>, left: Expr, pos: nat): (r: Result<Parsed, string>)
    requires pos <= |ts|
    ensures r.Success? ==> pos <= r.value.next <= |ts|
    decreases |ts| - pos, 0
  {
    if pos < |ts| && ts[pos] == AndWord then
      var right :- ParseUnary(ts, pos + 1);
      ParseAndTail(ts, And(left, right.x), right.next)
    else
      Success(Parsed(left, pos))
  }

  /** The type of a comparison's left-hand property, by its .NET name; a method call is Boolean. */
  function OperandTypeName(c: Comparison): string {
    match c
    case NumCompare(f, _, _) =>
      (match f
       case EventId => "Int16"
       case CategoryNumber => "Int16"
       case ErrorLevel => "Int32"
       case Index => "Int32"
       case InstanceId => "Int64")
    case StrCompare(f, _, _) => if f == EntryTypeField then "EventLogEntryType" else "String"
    case Call(_, _, _) => "Boolean"
  }

  /** The error for `!`/`Not` applied to a property that is not Boolean. */
  function IncompatibleOperand(bang: bool, c: Comparison): string {
    "Operator '" + (if bang then "!" else "Not") + "' incompatible with operand type '"
      + OperandTypeName(c) + "'"
  }

  /** A comparison whose left-hand side is a property rather than a Boolean method call. */
  predicate IsComparison(t: Token) {
    t.Atom? && !t.c.Call?
  }

  /** Unary expression: a comparison, a parenthesised or-expression, or `Not`/`!` applied to a
      unary expression. Negation binds tighter than a comparison, so `Not` directly before a
      comparison negates its left-hand property, which is a type error; a method call and a
      parenthesised expression are Boolean and may be negated. */
  function ParseUnary(ts: seq<Token>, pos: nat): (r: Result<Parsed, string>)
    requires pos <= |ts|
    ensures r.Success? ==> pos < r.value.next <= |ts|
    decreases |ts| - pos, 1
  {
    if pos == |ts| then Failure(ExpressionExpected)
    else match ts[pos]
      case Atom(c) => Success(Parsed(Leaf(c), pos + 1))
      case NotWord(bang) =>
        if pos + 1 < |ts| && IsComparison(ts[pos + 1]) then
          Failure(IncompatibleOperand(bang, ts[pos + 1].c))
        else
          var inner :- ParseUnary(ts, pos + 1);
          Success(Parsed(Not(inner.x), inner.next))
      case Open =>
        var inner :- ParseOr(ts, pos + 1);
        if inner.next < |ts| && ts[inner.next] == Close then Success(Parsed(inner.x, inner.next + 1))
        else Failure(CloseParenOrOperatorExpected)
      case _ => Failure(ExpressionExpected)
  }

  /** A whole filter: one or-expression that uses up every token. */
  function Parse(ts: seq<Token>): (r: Result<Expr, string>)
    ensures |ts| == 0 ==> r.Failure?
  {
    var p :- ParseOr(ts, 0);
    if p.next == |ts| then Success(p.x) else Failure(SyntaxError)
  }

  /** `And` binds tighter than `Or`: `a And b Or c` reads as `(a And b) Or c`. */
  lemma AndBindsTighterThanOr(a: Comparison, b: Comparison, c: Comparison, e: LogEvent)
    ensures Parse([Atom(a), AndWord, Atom(b), OrWord, Atom(c)]) == Success(Or(And(Leaf(a), Leaf(b)), Leaf(c)))
    ensures Eval(Or(And(Leaf(a), Leaf(b)), Leaf(c)), e) <==> (Holds(a, e) && Holds(b, e)) || Holds(c, e)
  {
    var ts := [Atom(a), AndWord, Atom(b), OrWord, Atom(c)];
    var ab := And(Leaf(a), Leaf(b));
    assert ParseUnary(ts, 0) == Success(Parsed(Leaf(a), 1));
    assert ParseUnary(ts, 2) == Success(Parsed(Leaf(b), 3));
    assert ParseAndTail(ts, ab, 3) == Success(Parsed(ab, 3));
    assert ParseAndTail(ts, Leaf(a), 1) == Success(Parsed(ab, 3));
    assert ParseAnd(ts, 0) == Success(Parsed(ab, 3));
    assert ParseUnary(ts, 4) == Success(Parsed(Leaf(c), 5));
    assert ParseAndTail(ts, Leaf(c), 5) == Success(Parsed(Leaf(c), 5));
    assert ParseAnd(ts, 4) == Success(Parsed(Leaf(c), 5));
    assert ParseOrTail(ts, Or(ab, Leaf(c)), 5) == Success(Parsed(Or(ab, Leaf(c)), 5));
    assert ParseOrTail(ts, ab, 3) == Success(Parsed(Or(ab, Leaf(c)), 5));
    assert ParseOr(ts, 0) == Success(Parsed(Or(ab, Leaf(c)), 5));
    assert Parse(ts) == Success(Or(ab, Leaf(c)));
    assert Eval(ab, e) <==> Holds(a, e) && Holds(b, e);
  }

  /** Parentheses override the default grouping: `a And (b Or c)`. */
  lemma ParenthesesOverridePrecedence(a: Comparison, b: Comparison, c: Comparison)
    ensures Parse([Atom(a), AndWord, Open, Atom(b), OrWord, Atom(c), Close]) == Success(And(Leaf(a), Or(Leaf(b), Leaf(c))))
  {
    var ts := [Atom(a), AndWord, Open, Atom(b), OrWord, Atom(c), Close];
    var bc := Or(Leaf(b), Leaf(c));
    assert ParseUnary(ts, 3) == Success(Parsed(Leaf(b), 4));
    assert ParseAndTail(ts, Leaf(b), 4) == Success(Parsed(Leaf(b), 4));
    assert ParseAnd(ts, 3) == Success(Parsed(Leaf(b), 4));
    assert ParseUnary(ts, 5) == Success(Parsed(Leaf(c), 6));
    assert ParseAndTail(ts, Leaf(c), 6) == Success(Parsed(Leaf(c), 6));
    assert ParseAnd(ts, 5) == Success(Parsed(Leaf(c), 6));
    assert ParseOrTail(ts, bc, 6) == Success(Parsed(bc, 6));
    assert ParseOrTail(ts, Leaf(b), 4) == Success(Parsed(bc, 6));
    assert ParseOr(ts, 3) == Success(Parsed(bc, 6));
    assert ParseUnary(ts, 2) == Success(Parsed(bc, 7));
    assert ParseUnary(ts, 0) == Success(Parsed(Leaf(a), 1));
    assert ParseAndTail(ts, And(Leaf(a), bc), 7) == Success(Parsed(And(Leaf(a), bc), 7));
    assert ParseAndTail(ts, Leaf(a), 1) == Success(Parsed(And(Leaf(a), bc), 7));
    assert ParseAnd(ts, 0) == Success(Parsed(And(Leaf(a), bc), 7));
    assert ParseOrTail(ts, And(Leaf(a), bc), 7) == Success(Parsed(And(Leaf(a), bc), 7));
    assert ParseOr(ts, 0) == Success(Parsed(And(Leaf(a), bc), 7));
  }

  /** `!` and `Not` are accepted in the same places and give the same expression, and it
      denotes the negation. */
  lemma BangAndNotAgree(ts: seq<Token>, pos: nat, e: LogEvent)
    requires pos < |ts| && ts[pos].NotWord?
    ensures ParseUnary(ts[pos := NotWord(true)], pos).Success?
            <==> ParseUnary(ts[pos := NotWord(false)], pos).Success?
    ensures ParseUnary(ts[pos := NotWord(true)], pos).Success?
            ==> ParseUnary(ts[pos := NotWord(true)], pos) == ParseUnary(ts[pos := NotWord(false)], pos)
    ensures ParseUnary(ts, pos).Success? ==> ParseUnary(ts, pos).value.x.Not?
    ensures ParseUnary(ts, pos).Success? ==>
              (Eval(ParseUnary(ts, pos).value.x, e) <==> !Eval(ParseUnary(ts, pos).value.x.operand, e))
  {
    var t1, t2 := ts[pos := NotWord(true)], ts[pos := NotWord(false)];
    assert t1[pos + 1..] == t2[pos + 1..];
    UnaryDependsOnSuffix(t1, t2, pos + 1);
  }

  /** `Not a = b` is not the negation of the comparison: the parse fails because `Not` meets the
      non-Boolean property `a`. */
  lemma NotBeforeComparisonFails(bang: bool, c: Comparison, rest: seq<Token>)
    requires !c.Call?
    ensures Parse([NotWord(bang), Atom(c)] + rest) == Failure(IncompatibleOperand(bang, c))
  {
    var ts := [NotWord(bang), Atom(c)] + rest;
    assert ts[0] == NotWord(bang) && ts[1] == Atom(c);
    assert ParseUnary(ts, 0) == Failure(IncompatibleOperand(bang, c));
    assert ParseAnd(ts, 0) == Failure(IncompatibleOperand(bang, c));
    assert ParseOr(ts, 0) == Failure(IncompatibleOperand(bang, c));
  }

  /** `Not` negates a method call, and a comparison once it is parenthesised. */
  lemma NotNegatesCallOrParenthesis(bang: bool, c: Comparison, e: LogEvent)
    ensures c.Call? ==> Parse([NotWord(bang), Atom(c)]) == Success(Not(Leaf(c)))
    ensures Parse([NotWord(bang), Open, Atom(c), Close]) == Success(Not(Leaf(c)))
    ensures Eval(Not(Leaf(c)), e) <==> !Holds(c, e)
  {
    var ts := [NotWord(bang), Atom(c)];
    if c.Call? {
      assert ParseUnary(ts, 1) == Success(Parsed(Leaf(c), 2));
      assert ParseUnary(ts, 0) == Success(Parsed(Not(Leaf(c)), 2));
      assert ParseAndTail(ts, Not(Leaf(c)), 2) == Success(Parsed(Not(Leaf(c)), 2));
      assert ParseAnd(ts, 0) == Success(Parsed(Not(Leaf(c)), 2));
      assert ParseOrTail(ts, Not(Leaf(c)), 2) == Success(Parsed(Not(Leaf(c)), 2));
      assert ParseOr(ts, 0) == Success(Parsed(Not(Leaf(c)), 2));
    }
    var us := [NotWord(bang), Open, Atom(c), Close];
    ParseNegatedParenthesis(us, 0, c);
    assert ParseAndTail(us, Not(Leaf(c)), 4) == Success(Parsed(Not(Leaf(c)), 4));
    assert ParseAnd(us, 0) == Success(Parsed(Not(Leaf(c)), 4));
    assert ParseOrTail(us, Not(Leaf(c)), 4) == Success(Parsed(Not(Leaf(c)), 4));
    assert ParseOr(us, 0) == Success(Parsed(Not(Leaf(c)), 4));
  }

  /** Parsing `Not ( c )` at `pos`. */
  lemma ParseNegatedParenthesis(ts: seq<Token>, pos: nat, c: Comparison)
    requires pos + 3 < |ts| && ts[pos].NotWord? && ts[pos + 1] == Open
    requires ts[pos + 2] == Atom(c) && ts[pos + 3] == Close
    ensures ParseUnary(ts, pos) == Success(Parsed(Not(Leaf(c)), pos + 4))
  {
    assert ParseUnary(ts, pos + 2) == Success(Parsed(Leaf(c), pos + 3));
    assert ParseAndTail(ts, Leaf(c), pos + 3) == Success(Parsed(Leaf(c), pos + 3));
    assert ParseAnd(ts, pos + 2) == Success(Parsed(Leaf(c), pos + 3));
    assert ParseOrTail(ts, Leaf(c), pos + 3) == Success(Parsed(Leaf(c), pos + 3));
    assert ParseOr(ts, pos + 2) == Success(Parsed(Leaf(c), pos + 3));
    assert ParseUnary(ts, pos + 1) == Success(Parsed(Leaf(c), pos + 4));
  }

  // ---------------------------------------------------------------------------------------
  // Printing: every expression has a token form that parses back to it.

  /** The fully parenthesised token form of an expression; `Not` is written as the keyword, and
      a negated comparison is put in parentheses. */
  function Print(x: Expr): (ts: seq<Token>)
    ensures |ts| >= 1
    ensures IsComparison(ts[0]) <==> x.Leaf? && !x.c.Call?
  {
    match x
    case Leaf(c) => [Atom(c)]
    case Not(y) =>
      if y.Leaf? && !y.c.Call? then [NotWord(false), Open, Atom(y.c), Close]
      else [NotWord(false)] + Print(y)
    case And(l, r) => [Open] + Print(l) + [AndWord] + Print(r) + [Close]
    case Or(l, r) => [Open] + Print(l) + [OrWord] + Print(r) + [Close]
  }

  /** `ts` holds `part` starting at index `pos`. */
  predicate Occurs(ts: seq<Token>, pos: nat, part: seq<Token>) {
    pos + |part| <= |ts| && forall j :: 0 <= j < |part| ==> ts[pos + j] == part[j]
  }

  lemma OccursInside(ts: seq<Token>, pos: nat, a: seq<Token>, b: seq<Token>, c: seq<Token>)
    requires Occurs(ts, pos, a + b + c)
    ensures Occurs(ts, pos + |a|, b)
  {
    forall j | 0 <= j < |b| ensures ts[pos + |a| + j] == b[j] {
      assert (a + b + c)[|a| + j] == b[j];
    }
  }

  /** Parsing `( l And r )` from its parts. */
  lemma ParseParenthesisedAnd(ts: seq<Token>, pos: nat, l: Expr, m: nat, r: Expr, k: nat)
    requires pos < m < k < |ts|
    requires ts[pos] == Open && ts[m] == AndWord && ts[k] == Close
    requires ParseUnary(ts, pos + 1) == Success(Parsed(l, m))
    requires ParseUnary(ts, m + 1) == Success(Parsed(r, k))
    ensures ParseUnary(ts, pos) == Success(Parsed(And(l, r), k + 1))
  {
    assert ParseAndTail(ts, And(l, r), k) == Success(Parsed(And(l, r), k));
    assert ParseAndTail(ts, l, m) == Success(Parsed(And(l, r), k));
    assert ParseOrTail(ts, And(l, r), k) == Success(Parsed(And(l, r), k));
    assert ParseOr(ts, pos + 1) == Success(Parsed(And(l, r), k));
  }

  /** Parsing `( l Or r )` from its parts. */
  lemma ParseParenthesisedOr(ts: seq<Token>, pos: nat, l: Expr, m: nat, r: Expr, k: nat)
    requires pos < m < k < |ts|
    requires ts[pos] == Open && ts[m] == OrWord && ts[k] == Close
    requires ParseUnary(ts, pos + 1) == Success(Parsed(l, m))
    requires ParseUnary(ts, m + 1) == Success(Parsed(r, k))
    ensures ParseUnary(ts, pos) == Success(Parsed(Or(l, r), k + 1))
  {
    assert ParseAndTail(ts, l, m) == Success(Parsed(l, m));
    assert ParseAnd(ts, pos + 1) == Success(Parsed(l, m));
    assert ParseAndTail(ts, r, k) == Success(Parsed(r, k));
    assert ParseAnd(ts, m + 1) == Success(Parsed(r, k));
    assert ParseOrTail(ts, Or(l, r), k) == Success(Parsed(Or(l, r), k));
    assert ParseOrTail(ts, l, m) == Success(Parsed(Or(l, r), k));
    assert ParseOr(ts, pos + 1) == Success(Parsed(Or(l, r), k));
  }

  /** The tokens of a parenthesised binary form, located piece by piece. */
  lemma OccursBinary(ts: seq<Token>, pos: nat, pl: seq<Token>, op: Token, pr: seq<Token>)
    requires Occurs(ts, pos, [Open] + pl + [op] + pr + [Close])
    ensures Occurs(ts, pos + 1, pl) && Occurs(ts, pos + 1 + |pl| + 1, pr)
    ensures ts[pos] == Open && ts[pos + 1 + |pl|] == op && ts[pos + 1 + |pl| + 1 + |pr|] == Close
  {
    var p := [Open] + pl + [op] + pr + [Close];
    assert p == [Open] + pl + ([op] + pr + [Close]);
    OccursInside(ts, pos, [Open], pl, [op] + pr + [Close]);
    OccursInside(ts, pos, [Open] + pl + [op], pr, [Close]);
    assert ts[pos] == p[0];
    assert ts[pos + 1 + |pl|] == p[1 + |pl|];
    assert ts[pos + 1 + |pl| + 1 + |pr|] == p[|p| - 1];
  }

  /** A printed expression, wherever it occurs, parses as a unary expression back to itself and
      ends exactly where its tokens end. */
  lemma {:induction false} ParsePrinted(x: Expr, ts: seq<Token>, pos: nat)
    requires Occurs(ts, pos, Print(x))
    ensures ParseUnary(ts, pos) == Success(Parsed(x, pos + |Print(x)|))
    decreases x, 1
  {
    match x
    case Leaf(c) =>
      assert ts[pos] == Print(x)[0];
    case Not(y) =>
      assert ts[pos] == Print(x)[0];
      if y.Leaf? && !y.c.Call? {
        assert ts[pos + 1] == Print(x)[1] && ts[pos + 2] == Print(x)[2] && ts[pos + 3] == Print(x)[3];
        ParseNegatedParenthesis(ts, pos, y.c);
      } else {
        assert Print(x) == [NotWord(false)] + Print(y) + [];
        OccursInside(ts, pos, [NotWord(false)], Print(y), []);
        assert ts[pos + 1] == Print(y)[0];
        ParsePrinted(y, ts, pos + 1);
      }
    case And(l, r) => ParsePrintedAnd(l, r, ts, pos);
    case Or(l, r) => ParsePrintedOr(l, r, ts, pos);
  }

  lemma {:induction false} ParsePrintedAnd(l: Expr, r: Expr, ts: seq<Token>, pos: nat)
    requires Occurs(ts, pos, Print(And(l, r)))
    ensures ParseUnary(ts, pos) == Success(Parsed(And(l, r), pos + |Print(And(l, r))|))
    decreases And(l, r), 0
  {
    var pl, pr := Print(l), Print(r);
    assert Print(And(l, r)) == [Open] + pl + [AndWord] + pr + [Close];
    var m := pos + 1 + |pl|;
    OccursBinary(ts, pos, pl, AndWord, pr);
    ParsePrinted(l, ts, pos + 1);
    ParsePrinted(r, ts, m + 1);
    ParseParenthesisedAnd(ts, pos, l, m, r, m + 1 + |Print(r)|);
  }

  lemma {:induction false} ParsePrintedOr(l: Expr, r: Expr, ts: seq<Token>, pos: nat)
    requires Occurs(ts, pos, Print(Or(l, r)))
    ensures ParseUnary(ts, pos) == Success(Parsed(Or(l, r), pos + |Print(Or(l, r))|))
    decreases Or(l, r), 0
  {
    var pl, pr := Print(l), Print(r);
    assert Print(Or(l, r)) == [Open] + pl + [OrWord] + pr + [Close];
    var m := pos + 1 + |pl|;
    OccursBinary(ts, pos, pl, OrWord, pr);
    ParsePrinted(l, ts, pos + 1);
    ParsePrinted(r, ts, m + 1);
    ParseParenthesisedOr(ts, pos, l, m, r, m + 1 + |Print(r)|);
  }

  /** Round trip: parsing the printed form of any expression gives the expression back. */
  lemma ParsePrintRoundTrip(x: Expr)
    ensures Parse(Print(x)) == Success(x)
  {
    var ts := Print(x);
    ParsePrinted(x, ts, 0);
    assert ParseAndTail(ts, x, |ts|) == Success(Parsed(x, |ts|));
    assert ParseAnd(ts, 0) == Success(Parsed(x, |ts|));
    assert ParseOrTail(ts, x, |ts|) == Success(Parsed(x, |ts|));
    assert ParseOr(ts, 0) == Success(Parsed(x, |ts|));
  }

  // ---------------------------------------------------------------------------------------
  // Locality: a parse starting at `pos` reads only the tokens from `pos` on.

  lemma {:induction false} OrDependsOnSuffix(t1: seq<Token>, t2: seq<Token>, pos: nat)
    requires pos <= |t1| && pos <= |t2| && t1[pos..] == t2[pos..]
    ensures ParseOr(t1, pos) == ParseOr(t2, pos)
    decreases |t1| - pos, 3
  {
    AndDependsOnSuffix(t1, t2, pos);
    var r := ParseAnd(t1, pos);
    if r.Success? {
      assert t1[r.value.next..] == t2[r.value.next..] by {
        assert t1[r.value.next..] == t1[pos..][r.value.next - pos..];
        assert t2[r.value.next..] == t2[pos..][r.value.next - pos..];
      }
      OrTailDependsOnSuffix(t1, t2, r.value.x, r.value.next);
    }
  }

  lemma {:induction false} OrTailDependsOnSuffix(t1: seq<Token>, t2: seq<Token>, left: Expr, pos: nat)
    requires pos <= |t1| && pos <= |t2| && t1[pos..] == t2[pos..]
    ensures ParseOrTail(t1, left, pos) == ParseOrTail(t2, left, pos)
    decreases |t1| - pos, 0
  {
    assert |t1| == |t2|;
    if pos < |t1| && t1[pos] == OrWord {
      assert t2[pos] == t1[pos..][0];
      assert t1[pos + 1..] == t2[pos + 1..] by {
        assert t1[pos + 1..] == t1[pos..][1..];
        assert t2[pos + 1..] == t2[pos..][1..];
      }
      AndDependsOnSuffix(t1, t2, pos + 1);
      var r := ParseAnd(t1, pos + 1);
      if r.Success? {
        assert t1[r.value.next..] == t2[r.value.next..] by {
          assert t1[r.value.next..] == t1[pos..][r.value.next - pos..];
          assert t2[r.value.next..] == t2[pos..][r.value.next - pos..];
        }
        OrTailDependsOnSuffix(t1, t2, Or(left, r.value.x), r.value.next);
      }
    } else if pos < |t1| {
      assert t2[pos] == t1[pos..][0];
    }
  }

  lemma {:induction false} AndDependsOnSuffix(t1: seq<Token>, t2: seq<Token>, pos: nat)
    requires pos <= |t1| && pos <= |t2| && t1[pos..] == t2[pos..]
    ensures ParseAnd(t1, pos) == ParseAnd(t2, pos)
    decreases |t1| - pos, 2
  {
    UnaryDependsOnSuffix(t1, t2, pos);
    var r := ParseUnary(t1, pos);
    if r.Success? {
      assert t1[r.value.next..] == t2[r.value.next..] by {
        assert t1[r.value.next..] == t1[pos..][r.value.next - pos..];
        assert t2[r.value.next..] == t2[pos..][r.value.next - pos..];
      }
      AndTailDependsOnSuffix(t1, t2, r.value.x, r.value.next);
    }
  }

  lemma {:induction false} AndTailDependsOnSuffix(t1: seq<Token>, t2: seq<Token>, left: Expr, pos: nat)
    requires pos <= |t1| && pos <= |t2| && t1[pos..] == t2[pos..]
    ensures ParseAndTail(t1, left, pos) == ParseAndTail(t2, left, pos)
    decreases |t1| - pos, 0
  {
    assert |t1| == |t2|;
    if pos < |t1| && t1[pos] == AndWord {
      assert t2[pos] == t1[pos..][0];
      assert t1[pos + 1..] == t2[pos + 1..] by {
        assert t1[pos + 1..] == t1[pos..][1..];
        assert t2[pos + 1..] == t2[pos..][1..];
      }
      UnaryDependsOnSuffix(t1, t2, pos + 1);
      var r := ParseUnary(t1, pos + 1);
      if r.Success? {
        assert t1[r.value.next..] == t2[r.value.next..] by {
          assert t1[r.value.next..] == t1[pos..][r.value.next - pos..];
          assert t2[r.value.next..] == t2[pos..][r.value.next - pos..];
        }
        AndTailDependsOnSuffix(t1, t2, And(left, r.value.x), r.value.next);
      }
    } else if pos < |t1| {
      assert t2[pos] == t1[pos..][0];
    }
  }

  lemma {:induction false} UnaryDependsOnSuffix(t1: seq<Token>, t2: seq<Token>, pos: nat)
    requires pos <= |t1| && pos <= |t2| && t1[pos..] == t2[pos..]
    ensures ParseUnary(t1, pos) == ParseUnary(t2, pos)
    decreases |t1| - pos, 1
  {
    assert |t1| == |t2|;
    if pos < |t1| {
      assert t2[pos] == t1[pos..][0];
      assert t1[pos + 1..] == t2[pos + 1..] by {
        assert t1[pos + 1..] == t1[pos..][1..];
        assert t2[pos + 1..] == t2[pos..][1..];
      }
      match t1[pos]
      case NotWord(_) =>
        if pos + 1 < |t1| {
          assert t2[pos + 1] == t1[pos..][1];
        }
        UnaryDependsOnSuffix(t1, t2, pos + 1);
      case Open =>
        OrDependsOnSuffix(t1, t2, pos + 1);
        var r := ParseOr(t1, pos + 1);
        if r.Success? {
          assert t1[r.value.next..] == t2[r.value.next..] by {
            assert t1[r.value.next..] == t1[pos..][r.value.next - pos..];
            assert t2[r.value.next..] == t2[pos..][r.value.next - pos..];
          }
          if r.value.next < |t1| {
            assert t2[r.value.next] == t1[r.value.next..][0];
          }
        }
      case _ =>
    }
  }
}
