/** Building condition trees from checked expressions, and what the trees have to do with them. */
module FilterBuild {
  import opened Cel
  import opened FilterExact
  import opened FilterIr
  import opened FilterQuery
  import opened FilterRender
  import opened FilterSql
  import opened FilterTags
  import opened Texts

  // ----- Constants -----

  const TWO_64 := 0x1_0000_0000_0000_0000

  /** What 64-bit arithmetic keeps of an integer. */
  function Wrap(i: int): int { (i - MIN_INT64) % TWO_64 + MIN_INT64 }

  predicate IsArithmetic(fn: string) { fn == "_+_" || fn == "_-_" || fn == "_*_" }

  function Calculate(fn: string, a: int, b: int): int
    requires IsArithmetic(fn)
  {
    if fn == "_+_" then a + b else if fn == "_-_" then a - b else a * b
  }

  function EvaluateNumeric(now: int, e: Expr): Option<int> {
    match e
    case Const(lit) => if lit.Number? then Some(lit.i) else None
    case Call(fn, _, args) =>
      if fn == "now" then Some(now)
      else if !IsArithmetic(fn) || |args| != 2 then None
      else
        var a, b := EvaluateNumeric(now, args[0]), EvaluateNumeric(now, args[1]);
        if a.None? || b.None? then None else Some(Wrap(Calculate(fn, a.value, b.value)))
    case _ => None
  }

  function EvaluateBool(e: Expr): Option<bool> {
    match e
    case Const(lit) => if lit.Boolean? then Some(lit.b) else None
    case Call(fn, _, args) =>
      if fn != "!_" || |args| != 1 then None
      else
        var a := EvaluateBool(args[0]);
        if a.None? then None else Some(!a.value)
    case _ => None
  }

  // ----- Building -----

  function BuildValue(s: Schema, now: int, e: Expr): Option<ValueExpr> {
    if e.Ident? then (if e.name in s then Some(FieldRef(e.name)) else None)
    else if e.Const? then Some(LiteralValue(e.lit))
    else if EvaluateNumeric(now, e).Some? then Some(LiteralValue(Number(EvaluateNumeric(now, e).value)))
    else if EvaluateBool(e).Some? then Some(LiteralValue(Boolean(EvaluateBool(e).value)))
    else if e.Call? && e.fn == "size" && |e.args| == 1 then
      var arg := BuildValue(s, now, e.args[0]);
      if arg.None? then None else Some(FunctionValue("size", [arg.value]))
    else None
  }

  function BuildValues(s: Schema, now: int, es: seq<Expr>): Option<seq<ValueExpr>> {
    if es == [] then Some([])
    else
      var n := |es| - 1;
      var front, last := BuildValues(s, now, es[..n]), BuildValue(s, now, es[n]);
      if front.None? || last.None? then None else Some(front.value + [last.value])
  }

  /** Whether the schema lets a field be compared so; anything may be said of what is not a field. */
  predicate Allowed(s: Schema, left: ValueExpr, op: Operator) {
    left.FieldRef? ==>
      var def := ResolveAlias(s, left.name);
      def.Some? && (def.value.allowedOps.Some? ==> op in def.value.allowedOps.value)
  }

  function BuildComparison(s: Schema, now: int, op: Operator, args: seq<Expr>): Option<Condition> {
    if |args| != 2 then None
    else
      var left, right := BuildValue(s, now, args[0]), BuildValue(s, now, args[1]);
      if left.None? || right.None? || !Allowed(s, left.value, op) then None
      else Some(Comparison(left.value, op, right.value))
  }

  function BuildIn(s: Schema, now: int, args: seq<Expr>): Option<Condition> {
    if |args| != 2 then None
    else if args[0].Ident? && ResolveAlias(s, args[0].name).None? then None
    else if args[0].Ident? && args[1].ListOf? then
      var values := BuildValues(s, now, args[1].elements);
      if values.None? then None else Some(In(FieldRef(args[0].name), values.value))
    else if args[1].Ident? && args[1].name in s then
      var element := BuildValue(s, now, args[0]);
      if element.None? then None else Some(ElementIn(element.value, args[1].name))
    else None
  }

  /** The same with the list of values built in a loop. */
  method BuildInCondition(s: Schema, now: int, args: seq<Expr>) returns (r: Option<Condition>)
    ensures r == BuildIn(s, now, args)
  {
    if |args| != 2 {
      return None;
    }
    if args[0].Ident? {
      if ResolveAlias(s, args[0].name).None? {
        return None;
      }
      if args[1].ListOf? {
        var elements, values := args[1].elements, [];
        for i := 0 to |elements|
          invariant BuildValues(s, now, elements[..i]) == Some(values)
        {
          assert elements[..i + 1][..i] == elements[..i];
          var value := BuildValue(s, now, elements[i]);
          if value.None? {
            NotAllBuilt(s, now, elements, i);
            return None;
          }
          values := values + [value.value];
        }
        assert elements[..|elements|] == elements;
        return Some(In(FieldRef(args[0].name), values));
      }
    }
    if args[1].Ident? && args[1].name in s {
      var element := BuildValue(s, now, args[0]);
      r := if element.None? then None else Some(ElementIn(element.value, args[1].name));
    } else {
      r := None;
    }
  }

  lemma {:induction false} NotAllBuilt(s: Schema, now: int, es: seq<Expr>, i: nat)
    requires i < |es| && BuildValue(s, now, es[i]).None?
    ensures BuildValues(s, now, es).None?
  {
    hide BuildValue;
    if i < |es| - 1 {
      NotAllBuilt(s, now, es[..|es| - 1], i);
    }
  }

  function TextArgument(args: seq<Expr>): Option<string> {
    if |args| == 1 && args[0].Const? && args[0].lit.Text? then Some(args[0].lit.s) else None
  }

  function BuildContains(s: Schema, target: Option<Expr>, args: seq<Expr>): Option<Condition> {
    if target.None? || !target.value.Ident? || target.value.name !in s then None
    else if !s[target.value.name].supportsContains then None
    else if TextArgument(args).None? then None
    else Some(Contains(target.value.name, TextArgument(args).value))
  }

  /** Only a loop that starts with something other than true and joins by OR is taken for `exists`. */
  predicate LooksLikeExists(e: Expr)
    requires e.Comprehension?
  {
    && e.accuInit.Const? && e.accuInit.lit != Boolean(true)
    && e.loopStep.Call? && e.loopStep.fn == "_||_" && |e.loopStep.args| == 2
  }

  function BuildPredicate(x: string, p: Expr): Option<Predicate> {
    if !p.Call? then None
    else if p.fn == "_==_" then
      if |p.args| != 2 then None
      else
        var c := if p.args[0] == Ident(x) then p.args[1] else p.args[0];
        if (p.args[0] == Ident(x) || p.args[1] == Ident(x)) && c.Const? && c.lit.Text? then Some(Equals(c.lit.s))
        else None
    else if p.target != Some(Ident(x)) || TextArgument(p.args).None? then None
    else
      var v := TextArgument(p.args).value;
      if p.fn == "startsWith" then Some(HasPrefix(v))
      else if p.fn == "endsWith" then Some(HasSuffix(v))
      else if p.fn == "contains" then Some(HasPart(v))
      else None
  }

  function BuildComprehension(s: Schema, e: Expr): Option<Condition>
    requires e.Comprehension?
  {
    if !LooksLikeExists(e) || !e.iterRange.Ident? || !HasKind(s, e.iterRange.name, JsonList) then None
    else
      var p := BuildPredicate(e.iterVar, e.loopStep.args[1]);
      if p.None? then None else Some(Exists(e.iterRange.name, p.value))
  }

  function Build(s: Schema, now: int, e: Expr): Option<Condition> {
    match e
    case Const(lit) => if lit.Boolean? then Some(Constant(lit.b)) else None
    case Ident(f) => if f in s && s[f].fieldType == BoolType then Some(FieldPredicate(f)) else None
    case Comprehension(_, _, _, _, _, _, _) => BuildComprehension(s, e)
    case ListOf(_) => None
    case Call(fn, target, args) =>
      if fn == "_&&_" || fn == "_||_" then
        if |args| != 2 then None
        else
          var a, b := Build(s, now, args[0]), Build(s, now, args[1]);
          if a.None? || b.None? then None
          else Some(Logical(if fn == "_&&_" then AndOf else OrOf, a.value, b.value))
      else if fn == "!_" then
        if |args| != 1 then None
        else
          var a := Build(s, now, args[0]);
          if a.None? then None else Some(NotOf(a.value))
      else if OperatorOf(fn).Some? then BuildComparison(s, now, OperatorOf(fn).value, args)
      else if fn == "@in" then BuildIn(s, now, args)
      else if fn == "contains" then BuildContains(s, target, args)
      else None
  }

  // ----- Arithmetic -----

  /** The value of a constant expression over the integers. */
  function Exactly(now: int, e: Expr): Option<int> {
    match e
    case Const(lit) => if lit.Number? then Some(lit.i) else None
    case Call(fn, _, args) =>
      if fn == "now" then Some(now)
      else if !IsArithmetic(fn) || |args| != 2 then None
      else
        var a, b := Exactly(now, args[0]), Exactly(now, args[1]);
        if a.None? || b.None? then None else Some(Calculate(fn, a.value, b.value))
    case _ => None
  }

  predicate InRange(i: int) { MIN_INT64 <= i <= MAX_INT64 }

  /** Every number written in the expression fits. */
  predicate Fits(e: Expr) {
    match e
    case Const(lit) => lit.Number? ==> InRange(lit.i)
    case Call(_, _, args) => forall i | 0 <= i < |args| :: Fits(args[i])
    case _ => true
  }

  lemma WrapIs(i: int)
    ensures InRange(Wrap(i)) && (Wrap(i) == i <==> InRange(i))
    ensures exists k :: Wrap(i) == i + k * TWO_64
  {
    var k := -((i - MIN_INT64) / TWO_64);
    assert Wrap(i) == i + k * TWO_64;
  }

  lemma WrapUnique(i: int, k: int)
    ensures Wrap(i + k * TWO_64) == Wrap(i)
  {
    var j := i - MIN_INT64;
    assert (j + k * TWO_64) % TWO_64 == j % TWO_64;
  }

  /** Wrapping operands first does not change the wrapped result. */
  lemma WrapCalculate(fn: string, a: int, b: int)
    requires IsArithmetic(fn)
    ensures Wrap(Calculate(fn, Wrap(a), Wrap(b))) == Wrap(Calculate(fn, a, b))
  {
    hide Wrap;
    WrapIs(a);
    WrapIs(b);
    var k :| Wrap(a) == a + k * TWO_64;
    var m :| Wrap(b) == b + m * TWO_64;
    if fn == "_+_" {
      WrapUnique(a + b, k + m);
      assert Wrap(a) + Wrap(b) == a + b + (k + m) * TWO_64;
    } else if fn == "_-_" {
      WrapUnique(a - b, k - m);
      assert Wrap(a) - Wrap(b) == a - b + (k - m) * TWO_64;
    } else {
      Product(a, k, b, m, TWO_64);
      WrapUnique(a * b, a * m + k * b + k * m * TWO_64);
    }
  }

  lemma Product(a: int, k: int, b: int, m: int, n: int)
    ensures (a + k * n) * (b + m * n) == a * b + (a * m + k * b + k * m * n) * n
  {
  }

  /** Folding a constant expression gives its value modulo 2^64: it is right exactly if the value fits, whatever happens
      in between. */
  lemma {:induction false} FoldsModulo(now: int, e: Expr)
    requires Fits(e) && InRange(now)
    ensures EvaluateNumeric(now, e).Some? <==> Exactly(now, e).Some?
    ensures Exactly(now, e).Some? ==> EvaluateNumeric(now, e).value == Wrap(Exactly(now, e).value)
    ensures EvaluateNumeric(now, e) == Exactly(now, e) <==> Exactly(now, e).None? || InRange(Exactly(now, e).value)
  {
    hide Wrap, Calculate;
    match e
    case Const(lit) =>
      if lit.Number? {
        WrapIs(lit.i);
      }
    case Call(fn, _, args) =>
      WrapIs(now);
      if fn != "now" && IsArithmetic(fn) && |args| == 2 {
        FoldsModulo(now, args[0]);
        FoldsModulo(now, args[1]);
        var a, b := Exactly(now, args[0]), Exactly(now, args[1]);
        if a.Some? && b.Some? {
          WrapCalculate(fn, a.value, b.value);
          WrapIs(Calculate(fn, a.value, b.value));
        }
      }
    case _ =>
  }

  // ----- Rows as environments -----

  /** A missing value is an error to an expression. */
  function ColumnOf(v: Value): CelValue {
    match v
    case Null => VError
    case Int(i) => VInt(i)
    case Str(t) => VStr(t)
    case Bool(b) => VBool(b)
  }

  function Items(tags: seq<string>): seq<CelValue> {
    seq(|tags|, i requires 0 <= i < |tags| => VTag(tags[i]))
  }

  /** The tags of a row; a list that is not stored is empty. */
  function TagsOf(r: Row, f: string): seq<string> { if r.list(f).Some? then r.list(f).value else [] }

  /** What the fields of a schema are on a row; JSON booleans and aliases are left out. */
  function FieldValue(s: Schema, r: Row, f: string): CelValue {
    if f !in s then VError
    else match s[f].kind
      case JsonList => VList(Items(TagsOf(r, f)))
      case Scalar => ColumnOf(r.column(f))
      case BoolColumn => ColumnOf(r.column(f))
      case _ => VError
  }

  function EnvOf(s: Schema, r: Row): Env { f => FieldValue(s, r, f) }

  /** The reading compares strings as the database does in the tests of this leaf. */
  ghost predicate ReadsLeaf(rd: Reading, g: Engine, d: Dialect, c: Condition)
    requires c.IsLeaf()
  {
    match c
    case Comparison(FieldRef(_), op, right) => TextOf(right).Some? ==> SameOrder(rd, g, op, TextOf(right).value)
    case In(FieldRef(_), values) => forall v | v in values && TextOf(v).Some? :: SameOrder(rd, g, Eq, TextOf(v).value)
    case ElementIn(e, _) =>
      TextOf(e).Some? ==>
        forall t :: rd.member(t, TextOf(e).value) <==> Matches(MemberFold(g, d), Whole, t, TextOf(e).value)
    case Contains(_, v) => forall t :: rd.has(t, v) <==> Matches(g.textFold, Anywhere, t, v)
    case Exists(_, p) => forall t :: rd.item(WhereOf(p), t, p.v) <==> Matches(TestFold(g, d, p), WhereOf(p), t, p.v)
    case _ => true
  }

  ghost predicate SameOrder(rd: Reading, g: Engine, op: Operator, v: string) {
    forall t :: Ordered(op, rd.order(t, v)) <==> Ordered(op, g.collate(t, v))
  }

  ghost predicate Reads(rd: Reading, g: Engine, d: Dialect, c: Condition) {
    match c
    case Logical(_, a, b) => Reads(rd, g, d, a) && Reads(rd, g, d, b)
    case NotOf(a) => Reads(rd, g, d, a)
    case Constant(_) => true
    case _ => ReadsLeaf(rd, g, d, c)
  }

  /** The lists are stored for the membership tests that decide on this side: under an even number of negations on which
      rows the tree is false, under an odd number on which it is true. */
  predicate HasLists(r: Row, c: Condition, side: bool) {
    match c
    case Logical(_, a, b) => HasLists(r, a, side) && HasLists(r, b, side)
    case NotOf(a) => HasLists(r, a, !side)
    case ElementIn(_, f) => side || r.list(f).Some?
    case _ => true
  }

  ghost predicate TagIsAlias(s: Schema) { "tag" in s ==> s["tag"].kind == VirtualAlias }

  /** Every comprehension stands for a macro, as in every expression that was read from text. */
  ghost predicate Expanded(e: Expr) {
    match e
    case Call(_, _, args) => forall i | 0 <= i < |args| :: Expanded(args[i])
    case Comprehension(x, range, accu, _, _, _, _) => x != accu && exists m, p :: e == Expand(m, accu, range, x, p)
    case _ => true
  }

  /** Where the expression has a truth value, the tree has it too. */
  ghost predicate Agrees(v: CelValue, t: Truth) { v.VBool? ==> t == TruthOf(v.b) }

  /** Where the expression has a truth value, it is true exactly if the tree is, or false exactly if the tree is. */
  ghost predicate AgreesOn(side: bool, v: CelValue, t: Truth) { v.VBool? ==> (v.b == side <==> t == TruthOf(side)) }

  // ----- Values -----

  lemma {:induction false} NumericMeaning(rd: Reading, now: int, env: Env, e: Expr)
    requires EvaluateNumeric(now, e).Some? && Evaluate(rd, now, env, e) != VError
    ensures Evaluate(rd, now, env, e) == VInt(EvaluateNumeric(now, e).value)
  {
    if e.Call? && e.fn != "now" {
      var a, b := e.args[0], e.args[1];
      var values := seq(|e.args|, i requires 0 <= i < |e.args| => Evaluate(rd, now, env, e.args[i]));
      assert values[0] == Evaluate(rd, now, env, a) && values[1] == Evaluate(rd, now, env, b);
      NumericMeaning(rd, now, env, a);
      NumericMeaning(rd, now, env, b);
      WrapIs(Calculate(e.fn, EvaluateNumeric(now, a).value, EvaluateNumeric(now, b).value));
    }
  }

  lemma {:induction false} BoolMeaning(rd: Reading, now: int, env: Env, e: Expr)
    requires EvaluateBool(e).Some?
    ensures Evaluate(rd, now, env, e) == VBool(EvaluateBool(e).value)
  {
    if e.Call? {
      BoolMeaning(rd, now, env, e.args[0]);
      var values := seq(|e.args|, i requires 0 <= i < |e.args| => Evaluate(rd, now, env, e.args[i]));
      assert values == [Evaluate(rd, now, env, e.args[0])];
    }
  }

  /** A literal that a value expression was built to is the value of that expression. */
  lemma LiteralMeaning(rd: Reading, s: Schema, now: int, env: Env, e: Expr)
    requires BuildValue(s, now, e).Some? && BuildValue(s, now, e).value.LiteralValue? &&
      Evaluate(rd, now, env, e) != VError
    ensures Evaluate(rd, now, env, e) == LiteralOf(BuildValue(s, now, e).value.lit)
  {
    hide EvaluateNumeric, EvaluateBool;
    if !e.Const? {
      if EvaluateNumeric(now, e).Some? {
        NumericMeaning(rd, now, env, e);
      } else {
        BoolMeaning(rd, now, env, e);
      }
    }
  }

  lemma FieldMeaning(rd: Reading, s: Schema, now: int, r: Row, e: Expr)
    requires BuildValue(s, now, e).Some? && BuildValue(s, now, e).value.FieldRef?
    ensures Evaluate(rd, now, EnvOf(s, r), e) == FieldValue(s, r, BuildValue(s, now, e).value.name)
  {
    hide EvaluateNumeric, EvaluateBool;
    assert e.Ident?;
  }

  lemma SizeMeaning(rd: Reading, s: Schema, now: int, r: Row, e: Expr)
    requires BuildValue(s, now, e).Some? && BuildValue(s, now, e).value.FunctionValue?
    requires var v := BuildValue(s, now, e).value;
      |v.args| == 1 && v.args[0].FieldRef? && HasKind(s, v.args[0].name, JsonList)
    ensures var f, v := BuildValue(s, now, e).value.args[0].name, Evaluate(rd, now, EnvOf(s, r), e);
      v == VError || v == VInt(|TagsOf(r, f)|)
  {
    hide EvaluateNumeric, EvaluateBool;
    FieldMeaning(rd, s, now, r, e.args[0]);
    var values := seq(|e.args|, i requires 0 <= i < |e.args| => Evaluate(rd, now, EnvOf(s, r), e.args[i]));
    assert values == [Evaluate(rd, now, EnvOf(s, r), e.args[0])];
  }

  // ----- Comparisons -----

  lemma Compared(rd: Reading, g: Engine, v: Value, op: Operator, lit: Literal)
    requires lit.Number? || lit.Text? || lit.Boolean?
    requires lit.Text? ==> SameOrder(rd, g, op, lit.s)
    ensures var w := if lit.Number? then Int(lit.i) else if lit.Text? then Str(lit.s) else Bool(lit.b);
      Agrees(CompareCel(rd, ColumnOf(v), op, LiteralOf(lit)), CompareValues(g, v, op, w))
  {
  }

  lemma ComparisonMeaning(rd: Reading, g: Engine, d: Dialect, s: Schema, r: Row, now: int, op: Operator,
                          args: seq<Expr>)
    requires BuildComparison(s, now, op, args).Some? && Renderable(s, d, BuildComparison(s, now, op, args).value)
    requires Reads(rd, g, d, BuildComparison(s, now, op, args).value)
    ensures Agrees(CompareCel(rd, Evaluate(rd, now, EnvOf(s, r), args[0]), op,
                              Evaluate(rd, now, EnvOf(s, r), args[1])),
                   TreeTruth(g, d, s, r, BuildComparison(s, now, op, args).value))
  {
    hide BuildValue, Evaluate;
    var c := BuildComparison(s, now, op, args).value;
    var a, b := Evaluate(rd, now, EnvOf(s, r), args[0]), Evaluate(rd, now, EnvOf(s, r), args[1]);
    assert c.rhs.LiteralValue?;
    if b != VError {
      LiteralMeaning(rd, s, now, EnvOf(s, r), args[1]);
    }
    if c.lhs.FieldRef? {
      FieldMeaning(rd, s, now, r, args[0]);
      if !c.rhs.lit.NullLiteral? {
        Compared(rd, g, r.column(c.lhs.name), op, c.rhs.lit);
      }
    } else {
      SizeMeaning(rd, s, now, r, args[0]);
    }
  }

  // ----- Membership -----

  lemma {:induction false} ItemsAre(rd: Reading, a: CelValue, tags: seq<string>)
    ensures a.VStr? ==> MemberOf(rd, a, Items(tags)) == VBool(exists t :: t in tags && rd.member(t, a.s))
  {
    var items := Items(tags);
    if tags != [] {
      ItemsAre(rd, a, tags[1..]);
      assert items[1..] == Items(tags[1..]) && items[0] == VTag(tags[0]);
      assert forall t :: t in tags <==> t == tags[0] || t in tags[1..];
    }
  }

  lemma ElementMeaning(rd: Reading, g: Engine, d: Dialect, s: Schema, r: Row, now: int, e: Expr, f: string, side: bool)
    requires BuildValue(s, now, e).Some? && TextOf(BuildValue(s, now, e).value).Some?
    requires var c := ElementIn(BuildValue(s, now, e).value, f); ReadsLeaf(rd, g, d, c) && HasLists(r, c, side)
    ensures var a := Evaluate(rd, now, EnvOf(s, r), e);
      a != VError ==> AgreesOn(side, MemberOf(rd, a, Items(TagsOf(r, f))),
                               LeafTruth(g, d, s, r, ElementIn(BuildValue(s, now, e).value, f)))
  {
    hide BuildValue, Evaluate, Matches;
    var v := TextOf(BuildValue(s, now, e).value).value;
    var a := Evaluate(rd, now, EnvOf(s, r), e);
    if a != VError {
      LiteralMeaning(rd, s, now, EnvOf(s, r), e);
      ItemsAre(rd, a, TagsOf(r, f));
    }
  }

  lemma {:induction false} AnyEqualMeaning(rd: Reading, g: Engine, s: Schema, now: int, env: Env, v: Value,
                                           t: FieldType, es: seq<Expr>, n: nat)
    requires n <= |es| && BuildValues(s, now, es).Some? && |BuildValues(s, now, es).value| == |es|
    requires forall i | 0 <= i < |es| :: BuildValue(s, now, es[i]) == Some(BuildValues(s, now, es).value[i])
    requires ScalarValues(t, BuildValues(s, now, es).value[n..]).Some?
    requires forall w | w in BuildValues(s, now, es).value && TextOf(w).Some? :: SameOrder(rd, g, Eq, TextOf(w).value)
    ensures var items := seq(|es| - n, i requires 0 <= i < |es| - n => Evaluate(rd, now, env, es[n + i]));
      Agrees(MemberOf(rd, ColumnOf(v), items),
             AnyEqual(g, v, ScalarValues(t, BuildValues(s, now, es).value[n..]).value))
    decreases |es| - n
  {
    hide BuildValue, BuildValues, Evaluate, ItemEquals, CompareValues, Or, SameOrder;
    var vs := BuildValues(s, now, es).value;
    var items := seq(|es| - n, i requires 0 <= i < |es| - n => Evaluate(rd, now, env, es[n + i]));
    if n < |es| {
      var rest := seq(|es| - (n + 1), i requires 0 <= i < |es| - (n + 1) => Evaluate(rd, now, env, es[n + 1 + i]));
      assert vs[n..][0] == vs[n] && vs[n..][1..] == vs[n + 1..];
      assert items[0] == Evaluate(rd, now, env, es[n]);
      forall i | 0 <= i < |rest|
        ensures items[1..][i] == rest[i]
      {
        assert items[1..][i] == items[i + 1];
      }
      assert items[1..] == rest;
      AnyEqualMeaning(rd, g, s, now, env, v, t, es, n + 1);
      EqualMeaning(rd, g, s, now, env, v, t, es[n]);
      var first := ScalarValue(t, vs[n]).value;
      OrAgrees(ItemEquals(rd, ColumnOf(v), items[0]), CompareValues(g, v, Eq, first),
               MemberOf(rd, ColumnOf(v), rest), AnyEqual(g, v, ScalarValues(t, vs[n + 1..]).value));
    }
  }

  lemma EqualMeaning(rd: Reading, g: Engine, s: Schema, now: int, env: Env, v: Value, t: FieldType, e: Expr)
    requires BuildValue(s, now, e).Some? && ScalarValue(t, BuildValue(s, now, e).value).Some?
    requires var w := BuildValue(s, now, e).value; TextOf(w).Some? ==> SameOrder(rd, g, Eq, TextOf(w).value)
    ensures Agrees(ItemEquals(rd, ColumnOf(v), Evaluate(rd, now, env, e)),
                   CompareValues(g, v, Eq, ScalarValue(t, BuildValue(s, now, e).value).value))
  {
    hide BuildValue, Evaluate;
    if Evaluate(rd, now, env, e) != VError {
      LiteralMeaning(rd, s, now, env, e);
      Compared(rd, g, v, Eq, BuildValue(s, now, e).value.lit);
    }
  }

  lemma {:induction false} BuildValuesIs(s: Schema, now: int, es: seq<Expr>)
    requires BuildValues(s, now, es).Some?
    ensures |BuildValues(s, now, es).value| == |es|
    ensures forall i | 0 <= i < |es| :: BuildValue(s, now, es[i]) == Some(BuildValues(s, now, es).value[i])
  {
    hide BuildValue;
    if es != [] {
      BuildValuesIs(s, now, es[..|es| - 1]);
    }
  }

  lemma InMeaning(rd: Reading, g: Engine, d: Dialect, s: Schema, r: Row, now: int, args: seq<Expr>, side: bool)
    requires TagIsAlias(s) && BuildIn(s, now, args).Some? && Renderable(s, d, BuildIn(s, now, args).value)
    requires Reads(rd, g, d, BuildIn(s, now, args).value) && HasLists(r, BuildIn(s, now, args).value, side)
    ensures var a, b := Evaluate(rd, now, EnvOf(s, r), args[0]), Evaluate(rd, now, EnvOf(s, r), args[1]);
      a != VError && b.VList? ==>
        AgreesOn(side, MemberOf(rd, a, b.items), TreeTruth(g, d, s, r, BuildIn(s, now, args).value))
  {
    hide ReadsLeaf, LeafTruth;
    var c := BuildIn(s, now, args).value;
    var env := EnvOf(s, r);
    if c.ElementIn? {
      var f := args[1].name;
      assert Evaluate(rd, now, env, args[1]) == FieldValue(s, r, f);
      ElementMeaning(rd, g, d, s, r, now, args[0], f, side);
    } else if Evaluate(rd, now, env, args[0]) != VError {
      ListedMeaning(rd, g, d, s, r, now, args[0].name, args[1].elements);
    }
  }

  lemma ListedMeaning(rd: Reading, g: Engine, d: Dialect, s: Schema, r: Row, now: int, f: string, es: seq<Expr>)
    requires TagIsAlias(s) && FieldValue(s, r, f) != VError && BuildValues(s, now, es).Some?
    requires LeafText(s, d, In(FieldRef(f), BuildValues(s, now, es).value)).Some?
    requires ReadsLeaf(rd, g, d, In(FieldRef(f), BuildValues(s, now, es).value))
    ensures var items := seq(|es|, i requires 0 <= i < |es| => Evaluate(rd, now, EnvOf(s, r), es[i]));
      Agrees(MemberOf(rd, FieldValue(s, r, f), items),
             LeafTruth(g, d, s, r, In(FieldRef(f), BuildValues(s, now, es).value)))
  {
    hide BuildValue, BuildValues, Evaluate, MemberOf, AnyEqual, SameOrder;
    var vs := BuildValues(s, now, es).value;
    var items := seq(|es|, i requires 0 <= i < |es| => Evaluate(rd, now, EnvOf(s, r), es[i]));
    var from := seq(|es| - 0, i requires 0 <= i < |es| - 0 => Evaluate(rd, now, EnvOf(s, r), es[0 + i]));
    assert f != "tag" && s[f].kind == Scalar;
    BuildValuesIs(s, now, es);
    assert vs[0..] == vs;
    AnyEqualMeaning(rd, g, s, now, EnvOf(s, r), r.column(f), s[f].fieldType, es, 0);
    assert items == from;
  }

  // ----- Connectives -----

  lemma OrAgrees(a: CelValue, t: Truth, b: CelValue, u: Truth)
    requires Agrees(a, t) && Agrees(b, u)
    ensures Agrees(OrValue(a, b), Or(t, u))
  {
  }

  lemma SidesAgree(side: bool, a: CelValue, t: Truth, b: CelValue, u: Truth)
    requires AgreesOn(side, a, t) && AgreesOn(side, b, u)
    ensures AgreesOn(side, AndValue(a, b), And(t, u)) && AgreesOn(side, OrValue(a, b), Or(t, u))
  {
  }

  lemma NotAgrees(side: bool, a: CelValue, t: Truth)
    requires AgreesOn(!side, a, t)
    ensures AgreesOn(side, NotValue(a), Not(t))
  {
  }

  // ----- Comprehensions -----

  /** The body of an `exists`, on an item. */
  lemma PredicateMeaning(rd: Reading, now: int, env: Env, x: string, p: Expr, t: string)
    requires BuildPredicate(x, p).Some? && env(x) == VTag(t)
    ensures var q := BuildPredicate(x, p).value; Evaluate(rd, now, env, p) == VBool(rd.item(WhereOf(q), t, q.v))
  {
    var values := seq(|p.args|, i requires 0 <= i < |p.args| => Evaluate(rd, now, env, p.args[i]));
    if p.fn == "_==_" {
      assert values == [Evaluate(rd, now, env, p.args[0]), Evaluate(rd, now, env, p.args[1])];
    } else {
      assert values == [VStr(TextArgument(p.args).value)];
    }
  }

  /** Of the macros only `exists` is taken for one. */
  lemma OnlyExists(e: Expr)
    requires e.Comprehension? && Expanded(e) && LooksLikeExists(e)
    ensures e == Expand(ExistsMacro, e.accuVar, e.iterRange, e.iterVar, e.loopStep.args[1])
  {
    var m, p :| e == Expand(m, e.accuVar, e.iterRange, e.iterVar, p);
    assert m == ExistsMacro;
    assert e.loopStep.args[1] == p;
  }

  lemma ComprehensionMeaning(rd: Reading, g: Engine, d: Dialect, s: Schema, r: Row, now: int, e: Expr)
    requires e.Comprehension? && Expanded(e) && BuildComprehension(s, e).Some?
    requires ReadsLeaf(rd, g, d, BuildComprehension(s, e).value)
    ensures Agrees(Evaluate(rd, now, EnvOf(s, r), e), TreeTruth(g, d, s, r, BuildComprehension(s, e).value))
  {
    hide Matches;
    var env, f, x, accu := EnvOf(s, r), e.iterRange.name, e.iterVar, e.accuVar;
    var body := e.loopStep.args[1];
    var p := BuildPredicate(x, body).value;
    OnlyExists(e);
    var tags := TagsOf(r, f);
    var items := Items(tags);
    assert Evaluate(rd, now, env, e.iterRange) == VList(items);
    var holds := (v: CelValue) => v.VTag? && rd.item(WhereOf(p), v.s, p.v);
    forall v, a | v in items
      ensures Evaluate(rd, now, Bind(Bind(env, x, v), accu, VBool(a)), body) == VBool(holds(v))
    {
      PredicateMeaning(rd, now, Bind(Bind(env, x, v), accu, VBool(a)), x, body, v.s);
    }
    ExistsMeans(rd, now, env, accu, e.iterRange, x, body, items, holds);
    SomeItem(tags, t => rd.item(WhereOf(p), t, p.v), holds);
    assert Satisfies(g, d, p, tags) <==> exists t :: t in tags && rd.item(WhereOf(p), t, p.v);
  }

  lemma SomeItem(tags: seq<string>, p: string -> bool, holds: CelValue -> bool)
    requires forall t :: holds(VTag(t)) == p(t)
    ensures (exists v :: v in Items(tags) && holds(v)) <==> exists t :: t in tags && p(t)
  {
    var items := Items(tags);
    if t :| t in tags && p(t) {
      var i :| 0 <= i < |tags| && tags[i] == t;
      assert items[i] == VTag(t) && items[i] in items;
    }
    if v :| v in items && holds(v) {
      var i :| 0 <= i < |items| && items[i] == v;
      assert v == VTag(tags[i]) && tags[i] in tags;
    }
  }

  // ----- Whole expressions -----

  lemma ContainsMeaning(rd: Reading, g: Engine, d: Dialect, s: Schema, r: Row, now: int, target: Option<Expr>,
                        args: seq<Expr>)
    requires BuildContains(s, target, args).Some? && ReadsLeaf(rd, g, d, BuildContains(s, target, args).value)
    ensures Agrees(Evaluate(rd, now, EnvOf(s, r), Call("contains", target, args)),
                   TreeTruth(g, d, s, r, BuildContains(s, target, args).value))
  {
    hide Occurs;
    var f, v := target.value.name, TextArgument(args).value;
    var e := Call("contains", target, args);
    var values := seq(|e.args|, i requires 0 <= i < |e.args| => Evaluate(rd, now, EnvOf(s, r), e.args[i]));
    assert values == [VStr(v)];
    assert Evaluate(rd, now, EnvOf(s, r), target.value) == FieldValue(s, r, f);
  }

  /** Wherever a filter expression has a truth value on a row, read with the comparisons of the database in its tests,
      the condition tree built from it is true on the same rows, and false on the same rows where the lists it asks for
      are stored. */
  lemma {:induction false} BuildMeaning(rd: Reading, g: Engine, d: Dialect, s: Schema, r: Row, now: int, e: Expr,
                                        side: bool)
    requires TagIsAlias(s) && Expanded(e)
    requires Build(s, now, e).Some? && Renderable(s, d, Build(s, now, e).value)
    requires Reads(rd, g, d, Build(s, now, e).value) && HasLists(r, Build(s, now, e).value, side)
    ensures AgreesOn(side, Evaluate(rd, now, EnvOf(s, r), e), TreeTruth(g, d, s, r, Build(s, now, e).value))
    decreases e, 1
  {
    match e
    case Const(_) =>
    case Ident(_) =>
    case Comprehension(_, _, _, _, _, _, _) => ComprehensionMeaning(rd, g, d, s, r, now, e);
    case Call(fn, target, args) => CallMeaning(rd, g, d, s, r, now, e, side);
  }

  lemma {:induction false} CallMeaning(rd: Reading, g: Engine, d: Dialect, s: Schema, r: Row, now: int, e: Expr,
                                       side: bool)
    requires e.Call? && TagIsAlias(s) && Expanded(e)
    requires Build(s, now, e).Some? && Renderable(s, d, Build(s, now, e).value)
    requires Reads(rd, g, d, Build(s, now, e).value) && HasLists(r, Build(s, now, e).value, side)
    ensures AgreesOn(side, Evaluate(rd, now, EnvOf(s, r), e), TreeTruth(g, d, s, r, Build(s, now, e).value))
    decreases e, 0
  {
    hide CompareCel, MemberOf, LeafText, LeafTruth, BuildValue, TagIsAlias, ReadsLeaf;
    var fn, args, env := e.fn, e.args, EnvOf(s, r);
    var values := seq(|e.args|, i requires 0 <= i < |e.args| => Evaluate(rd, now, env, e.args[i]));
    if fn == "contains" {
      ContainsMeaning(rd, g, d, s, r, now, e.target, args);
    } else if fn == "!_" {
      var a := args[0];
      BuildMeaning(rd, g, d, s, r, now, a, !side);
      assert values == [Evaluate(rd, now, env, a)];
      NotAgrees(side, values[0], TreeTruth(g, d, s, r, Build(s, now, a).value));
    } else {
      var a, b := args[0], args[1];
      assert values == [Evaluate(rd, now, env, a), Evaluate(rd, now, env, b)];
      if fn == "_&&_" || fn == "_||_" {
        BuildMeaning(rd, g, d, s, r, now, a, side);
        BuildMeaning(rd, g, d, s, r, now, b, side);
        SidesAgree(side, values[0], TreeTruth(g, d, s, r, Build(s, now, a).value),
                   values[1], TreeTruth(g, d, s, r, Build(s, now, b).value));
      } else if fn == "@in" {
        InMeaning(rd, g, d, s, r, now, args, side);
      } else {
        ComparisonMeaning(rd, g, d, s, r, now, OperatorOf(fn).value, args);
      }
    }
  }

  /** The negation of a membership test selects the rows that its expression selects if and only if the list is stored:
      the expression is true of a list that is not, the condition unknown. */
  lemma NegatedMembership(rd: Reading, g: Engine, d: Dialect, s: Schema, r: Row, now: int, f: string, v: string)
    requires HasKind(s, f, JsonList) && ReadsLeaf(rd, g, d, ElementIn(LiteralValue(Text(v)), f))
    ensures var e := Calling("!_", [Calling("@in", [Const(Text(v)), Ident(f)])]);
      var c := NotOf(ElementIn(LiteralValue(Text(v)), f));
      && Build(s, now, e) == Some(c) && Evaluate(rd, now, EnvOf(s, r), e).VBool?
      && ((TreeTruth(g, d, s, r, c) == True <==> Evaluate(rd, now, EnvOf(s, r), e) == VBool(true)) <==> r.list(f).Some?)
  {
    hide Matches;
    var env, inner := EnvOf(s, r), Calling("@in", [Const(Text(v)), Ident(f)]);
    EvaluateCall1(rd, now, env, "!_", inner);
    EvaluateCall2(rd, now, env, "@in", Const(Text(v)), Ident(f));
    EvaluateIdent(rd, now, env, f);
    assert Evaluate(rd, now, env, Const(Text(v))) == VStr(v);
    ItemsAre(rd, VStr(v), TagsOf(r, f));
    assert BuildIn(s, now, inner.args) == Some(ElementIn(LiteralValue(Text(v)), f));
    assert Build(s, now, inner) == Some(ElementIn(LiteralValue(Text(v)), f));
  }

  // ----- Readings -----

  /** Strings compared as the database does. */
  function AsStored(g: Engine, d: Dialect): Reading {
    Reading(g.collate, (t, v) => Matches(g.textFold, Anywhere, t, v), (t, v) => Matches(MemberFold(g, d), Whole, t, v),
            (w, t, v) => Matches(if w == Whole then EqualsFold(g, d) else g.listFold, w, t, v))
  }

  lemma {:induction false} StoredReads(g: Engine, d: Dialect, c: Condition)
    ensures Reads(AsStored(g, d), g, d, c)
  {
    hide Matches;
    match c
    case Logical(_, a, b) =>
      StoredReads(g, d, a);
      StoredReads(g, d, b);
    case NotOf(a) => StoredReads(g, d, a);
    case _ =>
  }

  /** The folding takes no other character for one of the text. */
  ghost predicate Undisturbed(fold: Folding, v: string) {
    forall c, x | c in v :: fold(x) == fold(c) ==> x == c
  }

  /** In an undisturbed text SQLite's LIKE is exact: it holds no letter of ASCII. */
  lemma AsciiUndisturbed(v: string)
    ensures Undisturbed(AsciiLower, v) <==> forall c | c in v :: !('A' <= c <= 'Z') && !('a' <= c <= 'z')
  {
    if c :| c in v && ('A' <= c <= 'Z' || 'a' <= c <= 'z') {
      var x := if c <= 'Z' then c - 'A' + 'a' else c - 'a' + 'A';
      assert x != c && AsciiLower(x) == AsciiLower(c);
    }
  }

  /** The database compares the texts of the leaf as the language does. */
  ghost predicate PlainLeaf(g: Engine, d: Dialect, c: Condition)
    requires c.IsLeaf()
  {
    match c
    case Comparison(FieldRef(_), op, right) => TextOf(right).Some? ==> SameOrder(PLAINLY, g, op, TextOf(right).value)
    case In(FieldRef(_), values) =>
      forall v | v in values && TextOf(v).Some? :: SameOrder(PLAINLY, g, Eq, TextOf(v).value)
    case ElementIn(e, _) => TextOf(e).Some? ==> Undisturbed(MemberFold(g, d), TextOf(e).value)
    case Contains(_, v) => Undisturbed(g.textFold, v)
    case Exists(_, p) => Undisturbed(TestFold(g, d, p), p.v)
    case _ => true
  }

  ghost predicate PlainTree(g: Engine, d: Dialect, c: Condition) {
    match c
    case Logical(_, a, b) => PlainTree(g, d, a) && PlainTree(g, d, b)
    case NotOf(a) => PlainTree(g, d, a)
    case Constant(_) => true
    case _ => PlainLeaf(g, d, c)
  }

  lemma UndisturbedAt(fold: Folding, t: string, v: string, k: int)
    requires Undisturbed(fold, v)
    ensures OccursAt(fold, t, v, k) <==> InfixAt(t, v, k)
  {
    if 0 <= k <= k + |v| <= |t| {
      var piece := t[k..k + |v|];
      forall i | 0 <= i < |v|
        ensures fold(t[k + i]) == fold(v[i]) <==> piece[i] == v[i]
      {
        assert v[i] in v && piece[i] == t[k + i];
      }
      if OccursAt(fold, t, v, k) {
        assert piece == v;
      }
    }
  }

  lemma UndisturbedMatches(fold: Folding, w: Where, t: string, v: string)
    requires Undisturbed(fold, v)
    ensures Matches(fold, w, t, v) <==> Holds(w, t, v)
  {
    hide OccursAt, InfixAt, Undisturbed;
    forall k
      ensures OccursAt(fold, t, v, k) <==> InfixAt(t, v, k)
    {
      UndisturbedAt(fold, t, v, k);
    }
    UndisturbedWhole(fold, t, v);
    Ends(t, v);
  }

  lemma UndisturbedWhole(fold: Folding, t: string, v: string)
    requires Undisturbed(fold, v)
    ensures Same(fold, t, v) <==> t == v
  {
    if Same(fold, t, v) {
      forall i | 0 <= i < |t|
        ensures t[i] == v[i]
      {
        assert v[i] in v;
      }
    }
  }

  lemma Ends(t: string, v: string)
    ensures IsPrefix(t, v) <==> InfixAt(t, v, 0)
    ensures IsSuffix(t, v) <==> InfixAt(t, v, |t| - |v|)
  {
    if |v| <= |t| {
      assert t[|t| - |v|..|t| - |v| + |v|] == t[|t| - |v|..] && t[0..0 + |v|] == t[..|v|];
    }
  }

  /** Where the texts are undisturbed, the comparisons of the language are those of the database. */
  lemma {:induction false} PlainReads(g: Engine, d: Dialect, c: Condition)
    requires PlainTree(g, d, c)
    ensures Reads(PLAINLY, g, d, c)
  {
    hide Undisturbed, Matches, Holds, IsInfix, SameOrder;
    match c
    case Logical(_, a, b) =>
      PlainReads(g, d, a);
      PlainReads(g, d, b);
    case NotOf(a) => PlainReads(g, d, a);
    case ElementIn(e, _) =>
      if TextOf(e).Some? {
        forall t
          ensures PLAINLY.member(t, TextOf(e).value) <==> Matches(MemberFold(g, d), Whole, t, TextOf(e).value)
        {
          UndisturbedMatches(MemberFold(g, d), Whole, t, TextOf(e).value);
          HoldsIs(t, TextOf(e).value);
        }
      }
    case Contains(_, v) =>
      forall t
        ensures PLAINLY.has(t, v) <==> Matches(g.textFold, Anywhere, t, v)
      {
        UndisturbedMatches(g.textFold, Anywhere, t, v);
        HoldsIs(t, v);
      }
    case Exists(_, p) =>
      forall t
        ensures PLAINLY.item(WhereOf(p), t, p.v) <==> Matches(TestFold(g, d, p), WhereOf(p), t, p.v)
      {
        UndisturbedMatches(TestFold(g, d, p), WhereOf(p), t, p.v);
      }
    case _ =>
  }

  lemma HoldsIs(t: string, v: string)
    ensures Holds(Whole, t, v) <==> t == v
    ensures Holds(Anywhere, t, v) <==> IsInfix(t, v)
  {
  }

  // ----- From expressions to the rows of a query -----

  ghost predicate Compiled(s: Schema, d: Dialect, now: int, es: seq<Expr>, cs: seq<Condition>) {
    && |cs| == |es|
    && forall i | 0 <= i < |es| :: Expanded(es[i]) && Build(s, now, es[i]) == Some(cs[i]) && Renderable(s, d, cs[i])
  }

  /** Every filter has a truth value on the row. */
  ghost predicate Decided(rd: Reading, s: Schema, r: Row, now: int, es: seq<Expr>) {
    forall e | e in es :: Evaluate(rd, now, EnvOf(s, r), e).VBool?
  }

  ghost predicate AllHold(rd: Reading, s: Schema, r: Row, now: int, es: seq<Expr>) {
    forall e | e in es :: Evaluate(rd, now, EnvOf(s, r), e) == VBool(true)
  }

  /** The tests written for the tree find what the expression says of the row. */
  ghost predicate Faithful(rd: Reading, g: Engine, d: Dialect, r: Row, c: Condition) {
    Clean(g.separator, d, c) && Reads(rd, g, d, c) && HasLists(r, c, true)
  }

  lemma {:induction false} ConjoinedIs(rd: Reading, g: Engine, d: Dialect, s: Schema, r: Row, now: int, es: seq<Expr>,
                                       cs: seq<Condition>)
    requires Sane(g, r) && TagIsAlias(s) && Compiled(s, d, now, es, cs) && Decided(rd, s, r, now, es)
    requires forall c | c in cs :: Faithful(rd, g, d, r, c)
    ensures Conjoined(g, d, s, r, cs) == True <==> AllHold(rd, s, r, now, es)
    decreases |es|
  {
    hide TagIsAlias, Build, Renderable, Evaluate, TreeTruth, TreeFinds, Expanded, Sane, Reads, Clean, HasLists;
    if es != [] {
      var n := |es| - 1;
      ConjoinedIs(rd, g, d, s, r, now, es[..n], cs[..n]);
      assert cs[n] in cs && es[n] in es;
      BuildMeaning(rd, g, d, s, r, now, es[n], true);
      TreeIsMeant(g, d, s, r, cs[n]);
      assert forall e :: e in es <==> e in es[..n] || e == es[n];
    }
  }

  /** From expressions to rows: after filters were appended to a query, the text that the database gets for it selects
      exactly the rows that meet the query's own condition and every filter expression, among the rows on which all of
      them have a truth value. */
  lemma FiltersSelect(rd: Reading, g: Engine, d: Dialect, s: Schema, r: Row, now: int, q: Clauses,
                      texts: seq<seq<Token<Value>>>, own: Sql<Value>, es: seq<Expr>, cs: seq<Condition>,
                      text: seq<Token<Value>>) returns (e: Sql<Value>)
    requires Compiled(s, d, now, es, cs) && q.where != [] && texts != []
    requires Bound(d, q, Joined(AndWord, texts)) && AndChain(d, Joined(AndWord, texts), own)
    requires Bound(d, AppendAll(s, d, q, cs), text) && !AnyBreaks(d, cs)
    requires Sane(g, r) && TagIsAlias(s) && Decided(rd, s, r, now, es)
    requires forall c | c in cs :: Faithful(rd, g, d, r, c)
    ensures Parse(d, text) == Some(e)
    ensures Eval(g, r, e) == True <==> Eval(g, r, own) == True && AllHold(rd, s, r, now, es)
  {
    hide TagIsAlias, Build, Evaluate, Expanded, Sane, AnyBreaks, Parse, Eval, AllHold, Decided, Bound, AndChain, Joined,
         Conjoined, Renderable, Faithful, AppendAll;
    ConjoinedIs(rd, g, d, s, r, now, es, cs);
    e := QueryMeaning(g, d, s, r, q, texts, own, cs, text);
  }

  /** The same with strings compared as the database compares them, for every database and with no restriction on its
      foldings and its order. */
  lemma StoredSelect(g: Engine, d: Dialect, s: Schema, r: Row, now: int, q: Clauses, texts: seq<seq<Token<Value>>>,
                     own: Sql<Value>, es: seq<Expr>, cs: seq<Condition>, text: seq<Token<Value>>)
    returns (e: Sql<Value>)
    requires Compiled(s, d, now, es, cs) && q.where != [] && texts != []
    requires Bound(d, q, Joined(AndWord, texts)) && AndChain(d, Joined(AndWord, texts), own)
    requires Bound(d, AppendAll(s, d, q, cs), text) && !AnyBreaks(d, cs)
    requires Sane(g, r) && TagIsAlias(s) && Decided(AsStored(g, d), s, r, now, es)
    requires forall c | c in cs :: Clean(g.separator, d, c) && HasLists(r, c, true)
    ensures Parse(d, text) == Some(e)
    ensures Eval(g, r, e) == True <==> Eval(g, r, own) == True && AllHold(AsStored(g, d), s, r, now, es)
  {
    hide TagIsAlias, Build, Evaluate, Expanded, Sane, AnyBreaks, Parse, Eval, AllHold, Decided, Bound, AndChain, Joined,
         Conjoined, Renderable, AppendAll, Clean, HasLists, Reads, AsStored;
    forall c | c in cs
      ensures Faithful(AsStored(g, d), g, d, r, c)
    {
      StoredReads(g, d, c);
    }
    e := FiltersSelect(AsStored(g, d), g, d, s, r, now, q, texts, own, es, cs, text);
  }
}
