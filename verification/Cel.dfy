/** Checked expressions of the Common Expression Language, as far as filters use it, and their values. */
module Cel {
  import opened FilterIr
  import opened FilterSql
  import opened FilterTags
  import opened Texts

  datatype Expr =
    | Const(lit: Literal)
    | Ident(name: string)
    | Call(fn: string, target: Option<Expr>, args: seq<Expr>)
    | ListOf(elements: seq<Expr>)
    | Comprehension(iterVar: string, iterRange: Expr, accuVar: string, accuInit: Expr, loopCondition: Expr,
                    loopStep: Expr, result: Expr)

  // ----- Values -----

  /** Strings that are items of a list in the database are kept apart: it may compare them in another way. */
  datatype CelValue =
    | VNull | VInt(i: int) | VStr(s: string) | VTag(s: string) | VBool(b: bool) | VList(items: seq<CelValue>) | VError
  {
    predicate IsString() { VStr? || VTag? }
  }

  type Env = string -> CelValue

  function Bind(env: Env, x: string, v: CelValue): Env { y => if y == x then v else env(y) }

  function LiteralOf(lit: Literal): CelValue {
    match lit
    case NullLiteral => VNull
    case Number(i) => VInt(i)
    case Text(s) => VStr(s)
    case Boolean(b) => VBool(b)
  }

  const MIN_INT64 := -0x8000_0000_0000_0000
  const MAX_INT64 := 0x7FFF_FFFF_FFFF_FFFF

  /** An integer result; leaving the range is an error. */
  function Integer(i: int): CelValue { if MIN_INT64 <= i <= MAX_INT64 then VInt(i) else VError }

  /** One false operand decides a conjunction, and one true operand a disjunction, even if the other is an error. */
  function AndValue(a: CelValue, b: CelValue): CelValue {
    if a == VBool(false) || b == VBool(false) then VBool(false)
    else if a == VBool(true) && b == VBool(true) then VBool(true)
    else VError
  }

  function OrValue(a: CelValue, b: CelValue): CelValue {
    if a == VBool(true) || b == VBool(true) then VBool(true)
    else if a == VBool(false) && b == VBool(false) then VBool(false)
    else VError
  }

  function NotValue(a: CelValue): CelValue { if a.VBool? then VBool(!a.b) else VError }

  predicate InfixAt(text: string, s: string, k: int) { 0 <= k <= |text| - |s| && text[k..k + |s|] == s }

  predicate IsInfix(text: string, s: string) {
    exists k :: 0 <= k <= |text| && InfixAt(text, s, k)
  }

  predicate IsPrefix(text: string, s: string) { |s| <= |text| && text[..|s|] == s }

  predicate IsSuffix(text: string, s: string) { |s| <= |text| && text[|text| - |s|..] == s }

  predicate Holds(w: Where, t: string, v: string) {
    match w
    case Whole => t == v
    case AtStart => IsPrefix(t, v)
    case AtEnd => IsSuffix(t, v)
    case Anywhere => IsInfix(t, v)
  }

  /** The order of strings by their characters. */
  function Lexicographic(a: string, b: string): int {
    if a == "" || b == "" then |a| - |b|
    else if a[0] != b[0] then a[0] as int - b[0] as int
    else Lexicographic(a[1..], b[1..])
  }

  /** How strings are compared: their order, `contains` on a text, membership in a list, and the tests on its items. */
  datatype Reading = Reading(order: (string, string) -> int, has: (string, string) -> bool,
                             member: (string, string) -> bool, item: (Where, string, string) -> bool)

  /** The comparisons of the language itself. */
  const PLAINLY := Reading(Lexicographic, (t, v) => IsInfix(t, v), (t: string, v: string) => t == v,
                           (w, t, v) => Holds(w, t, v))

  predicate CompareStrings(rd: Reading, a: CelValue, op: Operator, b: CelValue)
    requires a.IsString() && b.IsString()
  {
    if (op == Eq || op == Neq) && a.VTag? != b.VTag? then
      rd.item(Whole, if a.VTag? then a.s else b.s, if a.VTag? then b.s else a.s) == (op == Eq)
    else Ordered(op, rd.order(a.s, b.s))
  }

  function CompareCel(rd: Reading, a: CelValue, op: Operator, b: CelValue): CelValue {
    if a.VInt? && b.VInt? then VBool(Ordered(op, a.i - b.i))
    else if a.IsString() && b.IsString() then VBool(CompareStrings(rd, a, op, b))
    else if a.VBool? && b.VBool? then VBool(Ordered(op, (if a.b then 1 else 0) - (if b.b then 1 else 0)))
    else if (a.VInt? || a.IsString() || a.VBool?) && b.VNull? && op == Eq then VBool(false)
    else if (a.VInt? || a.IsString() || a.VBool?) && b.VNull? && op == Neq then VBool(true)
    else VError
  }

  function StringCall(rd: Reading, fn: string, a: CelValue, b: CelValue): CelValue {
    if !a.IsString() || !b.IsString() then VError
    else if fn == "contains" then VBool(if a.VTag? then rd.item(Anywhere, a.s, b.s) else rd.has(a.s, b.s))
    else if fn == "startsWith" then VBool(if a.VTag? then rd.item(AtStart, a.s, b.s) else IsPrefix(a.s, b.s))
    else if fn == "endsWith" then VBool(if a.VTag? then rd.item(AtEnd, a.s, b.s) else IsSuffix(a.s, b.s))
    else VError
  }

  function ItemEquals(rd: Reading, a: CelValue, item: CelValue): CelValue {
    if a.VStr? && item.VTag? then VBool(rd.member(item.s, a.s)) else CompareCel(rd, a, Eq, item)
  }

  /** Membership: true if some item equals, else an error if some item cannot be compared. */
  function MemberOf(rd: Reading, a: CelValue, items: seq<CelValue>): CelValue {
    if items == [] then VBool(false)
    else OrValue(ItemEquals(rd, a, items[0]), MemberOf(rd, a, items[1..]))
  }

  function ArithmeticOf(fn: string, a: CelValue, b: CelValue): CelValue {
    if !a.VInt? || !b.VInt? then VError
    else if fn == "_+_" then Integer(a.i + b.i)
    else if fn == "_-_" then Integer(a.i - b.i)
    else if fn == "_*_" then Integer(a.i * b.i)
    else VError
  }

  function OperatorOf(fn: string): Option<Operator> {
    if fn == "_==_" then Some(Eq)
    else if fn == "_!=_" then Some(Neq)
    else if fn == "_<_" then Some(Lt)
    else if fn == "_>_" then Some(Gt)
    else if fn == "_<=_" then Some(Lte)
    else if fn == "_>=_" then Some(Gte)
    else None
  }

  // ----- Evaluation -----

  /** What a function does to the values of its arguments. */
  function Apply(rd: Reading, now: int, fn: string, target: Option<CelValue>, args: seq<CelValue>): CelValue {
    if fn == "_&&_" && |args| == 2 then AndValue(args[0], args[1])
    else if fn == "_||_" && |args| == 2 then OrValue(args[0], args[1])
    else if fn == "!_" && |args| == 1 then NotValue(args[0])
    else if fn == "@not_strictly_false" && |args| == 1 then VBool(args[0] != VBool(false))
    else if OperatorOf(fn).Some? && |args| == 2 then CompareCel(rd, args[0], OperatorOf(fn).value, args[1])
    else if fn == "@in" && |args| == 2 && !args[0].VError? && args[1].VList? then MemberOf(rd, args[0], args[1].items)
    else if target.Some? && |args| == 1 then StringCall(rd, fn, target.value, args[0])
    else if fn == "size" && |args| == 1 && args[0].VList? then VInt(|args[0].items|)
    else if fn == "now" && args == [] then VInt(now)
    else if |args| == 2 then ArithmeticOf(fn, args[0], args[1])
    else VError
  }

  function Evaluate(rd: Reading, now: int, env: Env, e: Expr): CelValue
    decreases e, 1, 0
  {
    match e
    case Const(lit) => LiteralOf(lit)
    case Ident(x) => env(x)
    case ListOf(elements) =>
      VList(seq(|elements|, i requires 0 <= i < |elements| => Evaluate(rd, now, env, elements[i])))
    case Call(fn, target, args) =>
      var values := seq(|args|, i requires 0 <= i < |args| => Evaluate(rd, now, env, args[i]));
      Apply(rd, now, fn, if target.None? then None else Some(Evaluate(rd, now, env, target.value)), values)
    case Comprehension(_, iterRange, accuVar, accuInit, _, _, result) =>
      var list := Evaluate(rd, now, env, iterRange);
      if !list.VList? then VError
      else
        var accu := Loop(rd, now, env, e, list.items, Evaluate(rd, now, env, accuInit));
        Evaluate(rd, now, Bind(env, accuVar, accu), result)
  }

  /** The loop of a comprehension: it ends with the list, or when its condition is false. */
  function Loop(rd: Reading, now: int, env: Env, e: Expr, items: seq<CelValue>, accu: CelValue): CelValue
    requires e.Comprehension?
    decreases e, 0, |items|
  {
    if items == [] then accu
    else
      var inner := Bind(Bind(env, e.iterVar, items[0]), e.accuVar, accu);
      if Evaluate(rd, now, inner, e.loopCondition) == VBool(false) then accu
      else Loop(rd, now, env, e, items[1..], Evaluate(rd, now, inner, e.loopStep))
  }

  // ----- Macros -----

  datatype Macro = ExistsMacro | AllMacro | ExistsOneMacro | MapMacro | FilterMacro

  function Calling(fn: string, args: seq<Expr>): Expr { Call(fn, None, args) }

  /** The comprehension that a macro over `range` with the variable `x` and the body `p` stands for. */
  function Expand(m: Macro, accu: string, range: Expr, x: string, p: Expr): Expr {
    var a := Ident(accu);
    match m
    case ExistsMacro =>
      Comprehension(x, range, accu, Const(Boolean(false)), Calling("@not_strictly_false", [Calling("!_", [a])]),
                    Calling("_||_", [a, p]), a)
    case AllMacro =>
      Comprehension(x, range, accu, Const(Boolean(true)), Calling("@not_strictly_false", [a]),
                    Calling("_&&_", [a, p]), a)
    case ExistsOneMacro =>
      Comprehension(x, range, accu, Const(Number(0)), Const(Boolean(true)),
                    Calling("_?_:_", [p, Calling("_+_", [a, Const(Number(1))]), a]),
                    Calling("_==_", [a, Const(Number(1))]))
    case MapMacro =>
      Comprehension(x, range, accu, ListOf([]), Const(Boolean(true)), Calling("_+_", [a, ListOf([p])]), a)
    case FilterMacro =>
      Comprehension(x, range, accu, ListOf([]), Const(Boolean(true)),
                    Calling("_?_:_", [p, Calling("_+_", [a, ListOf([Ident(x)])]), a]), a)
  }

  // ----- Steps of evaluation -----

  lemma EvaluateCall1(rd: Reading, now: int, env: Env, fn: string, a: Expr)
    ensures Evaluate(rd, now, env, Calling(fn, [a])) == Apply(rd, now, fn, None, [Evaluate(rd, now, env, a)])
  {
    hide Apply;
    var e := Calling(fn, [a]);
    var values := seq(|e.args|, i requires 0 <= i < |e.args| => Evaluate(rd, now, env, e.args[i]));
    assert values == [Evaluate(rd, now, env, a)];
  }

  lemma EvaluateCall2(rd: Reading, now: int, env: Env, fn: string, a: Expr, b: Expr)
    ensures Evaluate(rd, now, env, Calling(fn, [a, b])) ==
      Apply(rd, now, fn, None, [Evaluate(rd, now, env, a), Evaluate(rd, now, env, b)])
  {
    hide Apply;
    var e := Calling(fn, [a, b]);
    var values := seq(|e.args|, i requires 0 <= i < |e.args| => Evaluate(rd, now, env, e.args[i]));
    assert values == [Evaluate(rd, now, env, a), Evaluate(rd, now, env, b)];
  }

  /** The loop of `exists` over a list on whose items the body is true or false computes that some item satisfies it. */
  lemma {:induction false} ExistsLoop(rd: Reading, now: int, env: Env, accu: string, range: Expr, x: string,
                                      p: Expr, items: seq<CelValue>, so: bool, holds: CelValue -> bool)
    requires forall v, a | v in items :: Evaluate(rd, now, Bind(Bind(env, x, v), accu, VBool(a)), p) == VBool(holds(v))
    ensures Loop(rd, now, env, Expand(ExistsMacro, accu, range, x, p), items, VBool(so)) ==
      VBool(so || exists v :: v in items && holds(v))
    decreases |items|
  {
    if items != [] {
      var e := Expand(ExistsMacro, accu, range, x, p);
      var inner := Bind(Bind(env, x, items[0]), accu, VBool(so));
      ExistsStep(rd, now, inner, accu, p, so, holds(items[0]));
      assert forall v :: v in items <==> v == items[0] || v in items[1..];
      if !so {
        ExistsLoop(rd, now, env, accu, range, x, p, items[1..], holds(items[0]), holds);
      }
    }
  }

  lemma ExistsStep(rd: Reading, now: int, env: Env, accu: string, p: Expr, so: bool, holds: bool)
    requires env(accu) == VBool(so) && Evaluate(rd, now, env, p) == VBool(holds)
    ensures Evaluate(rd, now, env, Calling("@not_strictly_false", [Calling("!_", [Ident(accu)])])) == VBool(!so)
    ensures Evaluate(rd, now, env, Calling("_||_", [Ident(accu), p])) == VBool(so || holds)
  {
    hide Evaluate;
    EvaluateIdent(rd, now, env, accu);
    EvaluateCall1(rd, now, env, "!_", Ident(accu));
    EvaluateCall1(rd, now, env, "@not_strictly_false", Calling("!_", [Ident(accu)]));
    EvaluateCall2(rd, now, env, "_||_", Ident(accu), p);
  }

  lemma EvaluateIdent(rd: Reading, now: int, env: Env, x: string)
    ensures Evaluate(rd, now, env, Ident(x)) == env(x)
  {
  }

  /** An `exists` over a list means that some item satisfies its body. */
  lemma ExistsMeans(rd: Reading, now: int, env: Env, accu: string, range: Expr, x: string, p: Expr,
                    items: seq<CelValue>, holds: CelValue -> bool)
    requires Evaluate(rd, now, env, range) == VList(items)
    requires forall v, a | v in items :: Evaluate(rd, now, Bind(Bind(env, x, v), accu, VBool(a)), p) == VBool(holds(v))
    ensures Evaluate(rd, now, env, Expand(ExistsMacro, accu, range, x, p)) == VBool(exists v :: v in items && holds(v))
  {
    var e := Expand(ExistsMacro, accu, range, x, p);
    ExistsLoop(rd, now, env, accu, range, x, p, items, false, holds);
    assert Evaluate(rd, now, env, e.accuInit) == VBool(false);
  }

  // ----- The language in plain terms -----

  /** Two numbers compare as integers do. */
  lemma ComparesNumbers(rd: Reading, now: int, env: Env, a: int, b: int)
    ensures var x, y := Const(Number(a)), Const(Number(b));
      && Evaluate(rd, now, env, Calling("_==_", [x, y])) == VBool(a == b)
      && Evaluate(rd, now, env, Calling("_!=_", [x, y])) == VBool(a != b)
      && Evaluate(rd, now, env, Calling("_<_", [x, y])) == VBool(a < b)
      && Evaluate(rd, now, env, Calling("_<=_", [x, y])) == VBool(a <= b)
      && Evaluate(rd, now, env, Calling("_>_", [x, y])) == VBool(a > b)
      && Evaluate(rd, now, env, Calling("_>=_", [x, y])) == VBool(a >= b)
  {
    hide Evaluate;
    var x, y := Const(Number(a)), Const(Number(b));
    EvaluateConst(rd, now, env, Number(a));
    EvaluateConst(rd, now, env, Number(b));
    EvaluateCall2(rd, now, env, "_==_", x, y);
    EvaluateCall2(rd, now, env, "_!=_", x, y);
    EvaluateCall2(rd, now, env, "_<_", x, y);
    EvaluateCall2(rd, now, env, "_<=_", x, y);
    EvaluateCall2(rd, now, env, "_>_", x, y);
    EvaluateCall2(rd, now, env, "_>=_", x, y);
  }

  lemma EvaluateConst(rd: Reading, now: int, env: Env, lit: Literal)
    ensures Evaluate(rd, now, env, Const(lit)) == LiteralOf(lit)
  {
  }

  /** Two texts are equal if they are the same, and ordered by the first character in which they differ. */
  lemma ComparesTexts(now: int, env: Env, p: string, a: string, b: string)
    requires a == "" || b == "" || a[0] != b[0]
    ensures var x, y := Const(Text(p + a)), Const(Text(p + b));
      && Evaluate(PLAINLY, now, env, Calling("_==_", [x, y])) == VBool(p + a == p + b)
      && Evaluate(PLAINLY, now, env, Calling("_!=_", [x, y])) == VBool(p + a != p + b)
      && Evaluate(PLAINLY, now, env, Calling("_<_", [x, y])) == VBool(b != "" && (a == "" || a[0] < b[0]))
      && Evaluate(PLAINLY, now, env, Calling("_>_", [x, y])) == VBool(a != "" && (b == "" || a[0] > b[0]))
  {
    hide Evaluate, Lexicographic;
    var x, y := Const(Text(p + a)), Const(Text(p + b));
    EvaluateConst(PLAINLY, now, env, Text(p + a));
    EvaluateConst(PLAINLY, now, env, Text(p + b));
    EvaluateCall2(PLAINLY, now, env, "_==_", x, y);
    EvaluateCall2(PLAINLY, now, env, "_!=_", x, y);
    EvaluateCall2(PLAINLY, now, env, "_<_", x, y);
    EvaluateCall2(PLAINLY, now, env, "_>_", x, y);
    LexicographicAfter(p, a, b);
    LexicographicAfter(p, b, a);
    LexicographicAt(a, b);
    LexicographicAt(b, a);
    assert (p + a)[|p|..] == a && (p + b)[|p|..] == b;
  }

  lemma {:induction false} LexicographicAfter(p: string, a: string, b: string)
    ensures Lexicographic(p + a, p + b) == Lexicographic(a, b)
  {
    if p == "" {
      assert p + a == a && p + b == b;
    } else {
      LexicographicAfter(p[1..], a, b);
      assert (p + a)[1..] == p[1..] + a && (p + b)[1..] == p[1..] + b;
    }
  }

  lemma LexicographicAt(a: string, b: string)
    requires a == "" || b == "" || a[0] != b[0]
    ensures Lexicographic(a, b) < 0 <==> b != "" && (a == "" || a[0] < b[0])
    ensures Lexicographic(a, b) == 0 <==> a == b
  {
  }

  /** Connectives are those of logic, where their operands are true or false, ... */
  lemma Connects(rd: Reading, now: int, env: Env, a: Expr, p: bool, b: Expr, q: bool)
    requires Evaluate(rd, now, env, a) == VBool(p) && Evaluate(rd, now, env, b) == VBool(q)
    ensures Evaluate(rd, now, env, Calling("_&&_", [a, b])) == VBool(p && q)
    ensures Evaluate(rd, now, env, Calling("_||_", [a, b])) == VBool(p || q)
    ensures Evaluate(rd, now, env, Calling("!_", [a])) == VBool(!p)
  {
    hide Evaluate;
    EvaluateCall2(rd, now, env, "_&&_", a, b);
    EvaluateCall2(rd, now, env, "_||_", a, b);
    EvaluateCall1(rd, now, env, "!_", a);
  }

  /** ... and arithmetic is that of the integers, where the result fits in 64 bits. */
  lemma Calculates(rd: Reading, now: int, env: Env, a: Expr, i: int, b: Expr, j: int)
    requires Evaluate(rd, now, env, a) == VInt(i) && Evaluate(rd, now, env, b) == VInt(j)
    ensures -0x8000_0000_0000_0000 <= i + j < 0x8000_0000_0000_0000 ==>
      Evaluate(rd, now, env, Calling("_+_", [a, b])) == VInt(i + j)
    ensures -0x8000_0000_0000_0000 <= i - j < 0x8000_0000_0000_0000 ==>
      Evaluate(rd, now, env, Calling("_-_", [a, b])) == VInt(i - j)
    ensures -0x8000_0000_0000_0000 <= i * j < 0x8000_0000_0000_0000 ==>
      Evaluate(rd, now, env, Calling("_*_", [a, b])) == VInt(i * j)
  {
    hide Evaluate;
    EvaluateCall2(rd, now, env, "_+_", a, b);
    EvaluateCall2(rd, now, env, "_-_", a, b);
    EvaluateCall2(rd, now, env, "_*_", a, b);
  }

  /** The tests on the text of a variable: what it holds, starts with and ends with. */
  lemma TestsText(now: int, env: Env, x: string, t: string, v: string)
    requires env(x) == VStr(t) || env(x) == VTag(t)
    ensures var arg, target := [Const(Text(v))], Some(Ident(x));
      && Evaluate(PLAINLY, now, env, Call("contains", target, arg)) ==
           VBool(exists before: string, after: string :: t == before + v + after)
      && Evaluate(PLAINLY, now, env, Call("startsWith", target, arg)) == VBool(|v| <= |t| && t[..|v|] == v)
      && Evaluate(PLAINLY, now, env, Call("endsWith", target, arg)) == VBool(|v| <= |t| && t[|t| - |v|..] == v)
      && Evaluate(PLAINLY, now, env, Calling("_==_", [Ident(x), Const(Text(v))])) == VBool(t == v)
  {
    hide Lexicographic, IsInfix;
    var arg, target := [Const(Text(v))], Some(Ident(x));
    EvaluateTest(now, env, "contains", x, v);
    EvaluateTest(now, env, "startsWith", x, v);
    EvaluateTest(now, env, "endsWith", x, v);
    EvaluateCall2(PLAINLY, now, env, "_==_", Ident(x), Const(Text(v)));
    LexicographicEqual(t, v);
    InfixBetween(t, v);
  }

  lemma InfixBetween(t: string, v: string)
    ensures IsInfix(t, v) <==> exists before: string, after: string :: t == before + v + after
  {
    if IsInfix(t, v) {
      var k :| 0 <= k <= |t| && InfixAt(t, v, k);
      assert t == t[..k] + v + t[k + |v|..];
    }
    if before: string, after: string :| t == before + v + after {
      assert InfixAt(t, v, |before|);
    }
  }

  lemma EvaluateTest(now: int, env: Env, fn: string, x: string, v: string)
    ensures Evaluate(PLAINLY, now, env, Call(fn, Some(Ident(x)), [Const(Text(v))])) ==
      Apply(PLAINLY, now, fn, Some(env(x)), [VStr(v)])
  {
    hide Apply;
    var e := Call(fn, Some(Ident(x)), [Const(Text(v))]);
    var values := seq(|e.args|, i requires 0 <= i < |e.args| => Evaluate(PLAINLY, now, env, e.args[i]));
    assert values == [VStr(v)];
  }

  lemma {:induction false} LexicographicEqual(a: string, b: string)
    ensures Lexicographic(a, b) == 0 <==> a == b
  {
    if a != "" && b != "" {
      LexicographicEqual(a[1..], b[1..]);
      assert a == [a[0]] + a[1..] && b == [b[0]] + b[1..];
    }
  }
}
