/** Which filters are compiled, and which rows each form of test selects, in terms of columns and lists alone. */
module FilterPlain {
  import opened Cel
  import opened FilterBuild
  import opened FilterExact
  import opened FilterIr
  import opened FilterRender
  import opened FilterSafe
  import opened FilterSql
  import opened FilterTags
  import opened Texts

  // ----- Comparison by name -----

  predicate IsComparison(fn: string) {
    fn == "_==_" || fn == "_!=_" || fn == "_<_" || fn == "_<=_" || fn == "_>_" || fn == "_>=_"
  }

  /** Two numbers stand in the relation that the function is named after. */
  predicate Related(fn: string, a: int, b: int) {
    || (fn == "_==_" && a == b) || (fn == "_!=_" && a != b)
    || (fn == "_<_" && a < b) || (fn == "_<=_" && a <= b)
    || (fn == "_>_" && a > b) || (fn == "_>=_" && a >= b)
  }

  /** The field may be compared so: it lists no operators, or lists this one. */
  predicate Permits(def: Field, fn: string) {
    def.allowedOps.Some? ==>
      var ops := def.allowedOps.value;
      || (fn == "_==_" && Eq in ops) || (fn == "_!=_" && Neq in ops)
      || (fn == "_<_" && Lt in ops) || (fn == "_<=_" && Lte in ops)
      || (fn == "_>_" && Gt in ops) || (fn == "_>=_" && Gte in ops)
  }

  lemma OperatorsByName(fn: string, c: int, def: Field)
    ensures OperatorOf(fn).Some? <==> IsComparison(fn)
    ensures IsComparison(fn) ==> (Ordered(OperatorOf(fn).value, c) <==> Related(fn, c, 0))
    ensures IsComparison(fn) ==>
      (Permits(def, fn) <==> (def.allowedOps.Some? ==> OperatorOf(fn).value in def.allowedOps.value))
    ensures OperatorOf(fn) == Some(Eq) <==> fn == "_==_"
    ensures OperatorOf(fn) == Some(Neq) <==> fn == "_!=_"
  {
  }

  // ----- The value of a filter on a row -----

  ghost predicate Accepted(s: Schema, d: Dialect, now: int, e: Expr) {
    Build(s, now, e).Some? && Renderable(s, d, Build(s, now, e).value)
  }

  /** The filter is compiled, and the text written for it is read as a condition with this value on the row; a filter
      that is always true is written as no text at all. */
  ghost predicate HasValue(g: Engine, d: Dialect, s: Schema, r: Row, now: int, e: Expr, value: Truth) {
    Accepted(s, d, now, e) &&
    var t := Ideal(s, d, Build(s, now, e).value);
    if t.trivial then value == True else exists sql :: Parse(d, t.sql) == Some(sql) && Eval(g, r, sql) == value
  }

  lemma ValueIs(g: Engine, d: Dialect, s: Schema, r: Row, now: int, e: Expr, c: Condition, value: Truth)
    requires Build(s, now, e) == Some(c) && Renderable(s, d, c)
    ensures HasValue(g, d, s, r, now, e, value) <==> !Breaks(d, c) && TreeFinds(g, d, s, r, c) == value
  {
    hide Build, Parse, TreeFinds, Eval, Unit, Broken, AndChain, BrokenAnd;
    var sql := TreeMeaning(g, d, s, r, c);
    FoldIsTruth(g, d, s, r, c);
    var t := Ideal(s, d, c);
    if FoldOf(c) == Never {
      NeverIsFalse(g, d, r);
    } else if FoldOf(c) == Depends {
      if Breaks(d, c) {
        BrokenIsBroken(d, t.sql, sql);
      } else {
        UnitIsChain(d, t.sql, sql);
      }
      ParseChain(d, t.sql, sql);
    }
  }

  lemma NeverIsFalse(g: Engine, d: Dialect, r: Row)
    ensures Parse(d, Falsely<Value>().sql) == Some(Leaf(Falsehood, [])) && Eval(g, r, Leaf(Falsehood, [])) == False
  {
    UnitAtom<Value>(d, Falsehood, []);
    UnitIsChain<Value>(d, [Atom(Falsehood, [])], Leaf(Falsehood, []));
    ParseChain<Value>(d, [Atom(Falsehood, [])], Leaf(Falsehood, []));
  }

  lemma LeafValue(g: Engine, d: Dialect, s: Schema, r: Row, now: int, e: Expr, c: Condition)
    requires Build(s, now, e) == Some(c) && c.IsLeaf() && LeafText(s, d, c).Some? && !LeafBreaks(d, c)
    ensures HasValue(g, d, s, r, now, e, LeafFinds(g, d, s, r, c))
  {
    hide Build, HasValue, LeafText, LeafFinds, LeafBreaks;
    ValueIs(g, d, s, r, now, e, c, LeafFinds(g, d, s, r, c));
  }

  // ----- Connectives -----

  /** Filters joined by a connective are compiled exactly if each of them is, and have the value that the connective
      gives them. */
  lemma Connected(g: Engine, d: Dialect, s: Schema, r: Row, now: int, a: Expr, b: Expr)
    ensures Accepted(s, d, now, Calling("_&&_", [a, b])) <==> Accepted(s, d, now, a) && Accepted(s, d, now, b)
    ensures Accepted(s, d, now, Calling("_||_", [a, b])) <==> Accepted(s, d, now, a) && Accepted(s, d, now, b)
    ensures Accepted(s, d, now, Calling("!_", [a])) <==> Accepted(s, d, now, a)
    ensures forall p, q | HasValue(g, d, s, r, now, a, TruthOf(p)) && HasValue(g, d, s, r, now, b, TruthOf(q)) ::
      && HasValue(g, d, s, r, now, Calling("_&&_", [a, b]), TruthOf(p && q))
      && HasValue(g, d, s, r, now, Calling("_||_", [a, b]), TruthOf(p || q))
    ensures forall p | HasValue(g, d, s, r, now, a, TruthOf(p)) ::
      HasValue(g, d, s, r, now, Calling("!_", [a]), TruthOf(!p))
  {
    hide HasValue;
    forall p, q | HasValue(g, d, s, r, now, a, TruthOf(p)) && HasValue(g, d, s, r, now, b, TruthOf(q))
      ensures HasValue(g, d, s, r, now, Calling("_&&_", [a, b]), TruthOf(p && q))
      ensures HasValue(g, d, s, r, now, Calling("_||_", [a, b]), TruthOf(p || q))
    {
      JunctionValue(g, d, s, r, now, a, TruthOf(p), b, TruthOf(q));
    }
    forall p | HasValue(g, d, s, r, now, a, TruthOf(p))
      ensures HasValue(g, d, s, r, now, Calling("!_", [a]), TruthOf(!p))
    {
      NegationValue(g, d, s, r, now, a, TruthOf(p));
    }
    assert Build(s, now, Calling("!_", [a])) ==
      if Build(s, now, a).None? then None else Some(NotOf(Build(s, now, a).value));
  }

  lemma JunctionValue(g: Engine, d: Dialect, s: Schema, r: Row, now: int, a: Expr, p: Truth, b: Expr, q: Truth)
    requires HasValue(g, d, s, r, now, a, p) && HasValue(g, d, s, r, now, b, q)
    ensures HasValue(g, d, s, r, now, Calling("_&&_", [a, b]), And(p, q))
    ensures HasValue(g, d, s, r, now, Calling("_||_", [a, b]), Or(p, q))
  {
    assert Accepted(s, d, now, a) && Accepted(s, d, now, b);
    hide HasValue, Build, LeafText, LeafFinds, LeafBreaks;
    var ca, cb := Build(s, now, a).value, Build(s, now, b).value;
    JunctionBuilt(s, now, "_&&_", a, b);
    JunctionBuilt(s, now, "_||_", a, b);
    ValueIs(g, d, s, r, now, a, ca, p);
    ValueIs(g, d, s, r, now, b, cb, q);
    ValueIs(g, d, s, r, now, Calling("_&&_", [a, b]), Logical(AndOf, ca, cb), And(p, q));
    ValueIs(g, d, s, r, now, Calling("_||_", [a, b]), Logical(OrOf, ca, cb), Or(p, q));
  }

  lemma JunctionBuilt(s: Schema, now: int, fn: string, a: Expr, b: Expr)
    requires Build(s, now, a).Some? && Build(s, now, b).Some? && (fn == "_&&_" || fn == "_||_")
    ensures Build(s, now, Calling(fn, [a, b])) ==
      Some(Logical(if fn == "_&&_" then AndOf else OrOf, Build(s, now, a).value, Build(s, now, b).value))
  {
    hide BuildComparison, BuildIn, BuildContains, BuildComprehension, OperatorOf;
    var e := Calling(fn, [a, b]);
    assert e.args[0] == a && e.args[1] == b;
  }

  lemma NegationValue(g: Engine, d: Dialect, s: Schema, r: Row, now: int, a: Expr, p: Truth)
    requires HasValue(g, d, s, r, now, a, p)
    ensures HasValue(g, d, s, r, now, Calling("!_", [a]), Not(p))
  {
    assert Accepted(s, d, now, a);
    hide HasValue, LeafText, LeafFinds;
    var ca := Build(s, now, a).value;
    ValueIs(g, d, s, r, now, a, ca, p);
    ValueIs(g, d, s, r, now, Calling("!_", [a]), NotOf(ca), Not(p));
  }

  // ----- Columns -----

  /** A column of numbers or times against a number. */
  lemma NumberTest(g: Engine, d: Dialect, s: Schema, r: Row, now: int, f: string, fn: string, i: int)
    requires HasKind(s, f, Scalar) && (s[f].fieldType == IntType || s[f].fieldType == TimestampType) && IsComparison(fn)
    ensures var e := Calling(fn, [Ident(f), Const(Number(i))]);
      && (Accepted(s, d, now, e) <==> Permits(s[f], fn))
      && (Permits(s[f], fn) && r.column(f).Int? ==>
            HasValue(g, d, s, r, now, e, TruthOf(Related(fn, r.column(f).i, i))))
      && (Permits(s[f], fn) && r.column(f).Null? ==> HasValue(g, d, s, r, now, e, Unknown))
  {
    hide HasValue, Related;
    var e, op := Calling(fn, [Ident(f), Const(Number(i))]), OperatorOf(fn).value;
    OperatorsByName(fn, 0, s[f]);
    ComparisonBuilt(s, now, f, fn, Number(i));
    if Permits(s[f], fn) {
      LeafValue(g, d, s, r, now, e, Comparison(FieldRef(f), op, LiteralValue(Number(i))));
      if r.column(f).Int? {
        OperatorsByName(fn, r.column(f).i - i, s[f]);
        RelatedShift(fn, r.column(f).i, i);
      }
    }
  }

  lemma RelatedShift(fn: string, a: int, b: int)
    ensures Related(fn, a - b, 0) <==> Related(fn, a, b)
  {
  }

  lemma ComparisonBuilt(s: Schema, now: int, f: string, fn: string, lit: Literal)
    requires f in s && s[f].kind != VirtualAlias && IsComparison(fn)
    ensures OperatorOf(fn).Some?
    ensures Build(s, now, Calling(fn, [Ident(f), Const(lit)])) ==
      if Permits(s[f], fn) then Some(Comparison(FieldRef(f), OperatorOf(fn).value, LiteralValue(lit))) else None
  {
    OperatorsByName(fn, 0, s[f]);
  }

  /** A column of text against a text, in the order of the database. */
  lemma TextTest(g: Engine, d: Dialect, s: Schema, r: Row, now: int, f: string, fn: string, v: string)
    requires HasKind(s, f, Scalar) && s[f].fieldType == StringType && IsComparison(fn)
    ensures var e := Calling(fn, [Ident(f), Const(Text(v))]);
      && (Accepted(s, d, now, e) <==> Permits(s[f], fn))
      && (Permits(s[f], fn) && r.column(f).Str? ==>
            HasValue(g, d, s, r, now, e, TruthOf(Related(fn, g.collate(r.column(f).s, v), 0))))
      && (Permits(s[f], fn) && r.column(f).Null? ==> HasValue(g, d, s, r, now, e, Unknown))
  {
    hide HasValue, Related;
    var e, op := Calling(fn, [Ident(f), Const(Text(v))]), OperatorOf(fn).value;
    OperatorsByName(fn, 0, s[f]);
    ComparisonBuilt(s, now, f, fn, Text(v));
    if Permits(s[f], fn) {
      LeafValue(g, d, s, r, now, e, Comparison(FieldRef(f), op, LiteralValue(Text(v))));
      if r.column(f).Str? {
        OperatorsByName(fn, g.collate(r.column(f).s, v), s[f]);
      }
    }
  }

  /** A column against null: only whether there is a value can be asked. */
  lemma NullTest(g: Engine, d: Dialect, s: Schema, r: Row, now: int, f: string, fn: string)
    requires HasKind(s, f, Scalar) && IsComparison(fn)
    ensures var e := Calling(fn, [Ident(f), Const(NullLiteral)]);
      && (Accepted(s, d, now, e) <==> (fn == "_==_" || fn == "_!=_") && Permits(s[f], fn))
      && (fn == "_==_" && Permits(s[f], fn) ==> HasValue(g, d, s, r, now, e, TruthOf(r.column(f) == Null)))
      && (fn == "_!=_" && Permits(s[f], fn) ==> HasValue(g, d, s, r, now, e, TruthOf(r.column(f) != Null)))
  {
    hide HasValue;
    var e, op := Calling(fn, [Ident(f), Const(NullLiteral)]), OperatorOf(fn).value;
    OperatorsByName(fn, 0, s[f]);
    ComparisonBuilt(s, now, f, fn, NullLiteral);
    if Permits(s[f], fn) && (fn == "_==_" || fn == "_!=_") {
      LeafValue(g, d, s, r, now, e, Comparison(FieldRef(f), op, LiteralValue(NullLiteral)));
    }
  }

  function Bit(b: bool): int { if b then 1 else 0 }

  /** A column of booleans against a boolean, false before true, and by itself. */
  lemma FlagTest(g: Engine, d: Dialect, s: Schema, r: Row, now: int, f: string, fn: string, b: bool)
    requires HasKind(s, f, BoolColumn) && s[f].fieldType == BoolType && IsComparison(fn)
    ensures HasValue(g, d, s, r, now, Ident(f), TruthOf(r.column(f) == Bool(true)))
    ensures var e := Calling(fn, [Ident(f), Const(Boolean(b))]);
      && (Accepted(s, d, now, e) <==> Permits(s[f], fn))
      && (Permits(s[f], fn) && r.column(f).Bool? ==>
            HasValue(g, d, s, r, now, e, TruthOf(Related(fn, Bit(r.column(f).b), Bit(b)))))
      && (Permits(s[f], fn) && r.column(f).Null? ==> HasValue(g, d, s, r, now, e, Unknown))
  {
    hide HasValue, Related;
    LeafValue(g, d, s, r, now, Ident(f), FieldPredicate(f));
    OperatorsByName(fn, 0, s[f]);
    ComparisonBuilt(s, now, f, fn, Boolean(b));
    if Permits(s[f], fn) {
      LeafValue(g, d, s, r, now, Calling(fn, [Ident(f), Const(Boolean(b))]),
                Comparison(FieldRef(f), OperatorOf(fn).value, LiteralValue(Boolean(b))));
      if r.column(f).Bool? {
        OperatorsByName(fn, Bit(r.column(f).b) - Bit(b), s[f]);
        RelatedShift(fn, Bit(r.column(f).b), Bit(b));
      }
    }
  }

  /** A JSON boolean by itself and against a boolean is what the database makes of it. */
  lemma JsonFlagTest(g: Engine, d: Dialect, s: Schema, r: Row, now: int, f: string, b: bool)
    requires HasKind(s, f, JsonBool) && s[f].fieldType == BoolType
    ensures HasValue(g, d, s, r, now, Ident(f), r.jsonTrue(f))
    ensures Permits(s[f], "_==_") ==>
      HasValue(g, d, s, r, now, Calling("_==_", [Ident(f), Const(Boolean(b))]), r.jsonCompare(f, Eq, b))
    ensures Permits(s[f], "_!=_") ==>
      HasValue(g, d, s, r, now, Calling("_!=_", [Ident(f), Const(Boolean(b))]), r.jsonCompare(f, Neq, b))
  {
    hide HasValue;
    LeafValue(g, d, s, r, now, Ident(f), FieldPredicate(f));
    JsonFlagCompared(g, d, s, r, now, f, "_==_", b);
    JsonFlagCompared(g, d, s, r, now, f, "_!=_", b);
  }

  lemma JsonFlagCompared(g: Engine, d: Dialect, s: Schema, r: Row, now: int, f: string, fn: string, b: bool)
    requires HasKind(s, f, JsonBool) && (fn == "_==_" || fn == "_!=_")
    ensures Permits(s[f], fn) ==> HasValue(g, d, s, r, now, Calling(fn, [Ident(f), Const(Boolean(b))]),
                                           r.jsonCompare(f, if fn == "_==_" then Eq else Neq, b))
  {
    hide HasValue;
    ComparisonBuilt(s, now, f, fn, Boolean(b));
    OperatorsByName(fn, 0, s[f]);
    if Permits(s[f], fn) {
      LeafValue(g, d, s, r, now, Calling(fn, [Ident(f), Const(Boolean(b))]),
                Comparison(FieldRef(f), OperatorOf(fn).value, LiteralValue(Boolean(b))));
    }
  }

  /** A text in a column. */
  lemma ContainsTest(g: Engine, d: Dialect, s: Schema, r: Row, now: int, f: string, v: string)
    requires f in s && r.column(f).Str? && Plain(v) && Undisturbed(g.textFold, v)
    ensures var e, t := Call("contains", Some(Ident(f)), [Const(Text(v))]), r.column(f).s;
      && (Accepted(s, d, now, e) <==> s[f].supportsContains)
      && (s[f].supportsContains ==>
            HasValue(g, d, s, r, now, e, TruthOf(exists before: string, after: string :: t == before + v + after)))
  {
    hide HasValue, Like, Pattern, IsInfix, Undisturbed;
    var e, t := Call("contains", Some(Ident(f)), [Const(Text(v))]), r.column(f).s;
    if s[f].supportsContains {
      LeafValue(g, d, s, r, now, e, Contains(f, v));
      ContainsIsMeant(g.textFold, v, t);
      UndisturbedMatches(g.textFold, Anywhere, t, v);
      InfixBetween(t, v);
    }
  }

  // ----- Lists of constants -----

  function Numbers(ns: seq<int>): seq<Expr> {
    seq(|ns|, i requires 0 <= i < |ns| => Const(Number(ns[i])))
  }

  function Strings(vs: seq<string>): seq<Expr> {
    seq(|vs|, i requires 0 <= i < |vs| => Const(Text(vs[i])))
  }

  /** A column of numbers in a list of numbers. */
  lemma NumberListTest(g: Engine, d: Dialect, s: Schema, r: Row, now: int, f: string, ns: seq<int>)
    requires HasKind(s, f, Scalar) && s[f].fieldType == IntType && f != "tag" && r.column(f).Int? && ns != []
    ensures HasValue(g, d, s, r, now, Calling("@in", [Ident(f), ListOf(Numbers(ns))]), TruthOf(r.column(f).i in ns))
  {
    hide HasValue, BuildValue, BuildValues, ScalarValues, AnyEqual;
    var e := Calling("@in", [Ident(f), ListOf(Numbers(ns))]);
    NumbersBuilt(s, now, ns);
    assert Build(s, now, e) == Some(In(FieldRef(f), NumberLiterals(ns)));
    AnyNumber(g, r.column(f).i, ns);
    LeafValue(g, d, s, r, now, e, In(FieldRef(f), NumberLiterals(ns)));
  }

  function NumberLiterals(ns: seq<int>): seq<ValueExpr> {
    seq(|ns|, i requires 0 <= i < |ns| => LiteralValue(Number(ns[i])))
  }

  lemma {:induction false} NumbersBuilt(s: Schema, now: int, ns: seq<int>)
    ensures BuildValues(s, now, Numbers(ns)) == Some(NumberLiterals(ns))
  {
    if ns == [] {
      assert Numbers(ns) == [] && NumberLiterals(ns) == [];
    } else {
      var n := |ns| - 1;
      NumbersBuilt(s, now, ns[..n]);
      assert Numbers(ns)[..n] == Numbers(ns[..n]);
      assert NumberLiterals(ns) == NumberLiterals(ns[..n]) + [LiteralValue(Number(ns[n]))];
    }
  }

  lemma {:induction false} AnyNumber(g: Engine, i: int, ns: seq<int>)
    ensures ScalarValues(IntType, NumberLiterals(ns)).Some?
    ensures AnyEqual(g, Int(i), ScalarValues(IntType, NumberLiterals(ns)).value) == TruthOf(i in ns)
  {
    if ns != [] {
      AnyNumber(g, i, ns[1..]);
      assert NumberLiterals(ns)[1..] == NumberLiterals(ns[1..]);
      var rest := ScalarValues(IntType, NumberLiterals(ns[1..])).value;
      assert ScalarValues(IntType, NumberLiterals(ns)).value == [Int(ns[0])] + rest;
      assert ([Int(ns[0])] + rest)[1..] == rest;
    }
  }

  /** A column of text in a list of texts. */
  lemma TextListTest(g: Engine, d: Dialect, s: Schema, r: Row, now: int, f: string, vs: seq<string>)
    requires HasKind(s, f, Scalar) && s[f].fieldType == StringType && f != "tag" && r.column(f).Str? && vs != []
    ensures HasValue(g, d, s, r, now, Calling("@in", [Ident(f), ListOf(Strings(vs))]),
                     TruthOf(exists v :: v in vs && g.collate(r.column(f).s, v) == 0))
  {
    hide HasValue, BuildValue, BuildValues, ScalarValues, AnyEqual;
    var e := Calling("@in", [Ident(f), ListOf(Strings(vs))]);
    StringsBuilt(s, now, vs);
    assert Build(s, now, e) == Some(In(FieldRef(f), Literals(vs)));
    AnyText(g, r.column(f).s, vs);
    LeafValue(g, d, s, r, now, e, In(FieldRef(f), Literals(vs)));
  }

  function Literals(vs: seq<string>): seq<ValueExpr> {
    seq(|vs|, i requires 0 <= i < |vs| => LiteralValue(Text(vs[i])))
  }

  lemma {:induction false} StringsBuilt(s: Schema, now: int, vs: seq<string>)
    ensures BuildValues(s, now, Strings(vs)) == Some(Literals(vs))
  {
    if vs == [] {
      assert Strings(vs) == [] && Literals(vs) == [];
    } else {
      var n := |vs| - 1;
      StringsBuilt(s, now, vs[..n]);
      assert Strings(vs)[..n] == Strings(vs[..n]);
      assert Literals(vs) == Literals(vs[..n]) + [LiteralValue(Text(vs[n]))];
    }
  }

  lemma {:induction false} AnyText(g: Engine, t: string, vs: seq<string>)
    ensures ScalarValues(StringType, Literals(vs)).Some?
    ensures AnyEqual(g, Str(t), ScalarValues(StringType, Literals(vs)).value) ==
      TruthOf(exists v :: v in vs && g.collate(t, v) == 0)
  {
    if vs != [] {
      AnyText(g, t, vs[1..]);
      assert Literals(vs)[1..] == Literals(vs[1..]);
      var rest := ScalarValues(StringType, Literals(vs[1..])).value;
      assert ScalarValues(StringType, Literals(vs)).value == [Str(vs[0])] + rest;
      assert ([Str(vs[0])] + rest)[1..] == rest;
      assert forall v :: v in vs <==> v == vs[0] || v in vs[1..];
    }
  }

  // ----- Lists of tags -----

  /** The tests on tags can be trusted with the text: it consists of characters of tags without wildcards, and the
      database takes no other character for one of them. */
  ghost predicate Trusted(g: Engine, r: Row, v: string) {
    Sane(g, r) && IsTag(v) && Plain(v) && Undisturbed(g.listFold, v)
  }

  /** A tag in the list of a row. */
  lemma MemberTest(g: Engine, d: Dialect, s: Schema, r: Row, now: int, f: string, v: string)
    requires HasKind(s, f, JsonList) && Trusted(g, r, v)
    ensures HasValue(g, d, s, r, now, Calling("@in", [Const(Text(v)), Ident(f)]),
                     if r.list(f).None? then Unknown else TruthOf(v in r.list(f).value))
  {
    hide HasValue, Undisturbed, Matches;
    var c := ElementIn(LiteralValue(Text(v)), f);
    LeafValue(g, d, s, r, now, Calling("@in", [Const(Text(v)), Ident(f)]), c);
    LeafIsMeant(g, d, s, r, c);
    if r.list(f).Some? {
      forall t
        ensures Matches(MemberFold(g, d), Whole, t, v) <==> t == v
      {
        UndisturbedMatches(g.listFold, Whole, t, v);
        ExactlyWhole(t, v);
      }
    }
  }

  lemma ExactlyWhole(t: string, v: string)
    ensures Matches(EXACTLY, Whole, t, v) <==> t == v
  {
    ExactlySame(t, v);
  }

  /** `list.exists(x, x == v)` and its like. */
  function SomeItem(accu: string, f: string, x: string, fn: string, v: string): Expr {
    var arg := Const(Text(v));
    Expand(ExistsMacro, accu, Ident(f), x,
           if fn == "_==_" then Calling(fn, [Ident(x), arg]) else Call(fn, Some(Ident(x)), [arg]))
  }

  /** Some tag of the row equals the text, ... */
  lemma SomeEquals(g: Engine, d: Dialect, s: Schema, r: Row, now: int, f: string, x: string, accu: string, v: string)
    requires HasKind(s, f, JsonList) && Trusted(g, r, v)
    ensures HasValue(g, d, s, r, now, SomeItem(accu, f, x, "_==_", v),
                     TruthOf(r.list(f).Some? && v in r.list(f).value))
  {
    hide HasValue, SomeItem, Holds, Trusted, HasKind;
    ExistsBuilt(s, now, f, x, accu, v);
    ExistsValue(g, d, s, r, now, f, SomeItem(accu, f, x, "_==_", v), Equals(v));
    forall t
      ensures Holds(Whole, t, v) <==> t == v
    {
      HoldsRaw(t, v);
    }
  }

  /** ... starts with it, ... */
  lemma SomeStarts(g: Engine, d: Dialect, s: Schema, r: Row, now: int, f: string, x: string, accu: string, v: string)
    requires HasKind(s, f, JsonList) && Trusted(g, r, v)
    ensures HasValue(g, d, s, r, now, SomeItem(accu, f, x, "startsWith", v),
                     TruthOf(r.list(f).Some? && exists t :: t in r.list(f).value && |v| <= |t| && t[..|v|] == v))
  {
    hide HasValue, SomeItem, Holds, Trusted, HasKind;
    ExistsBuilt(s, now, f, x, accu, v);
    ExistsValue(g, d, s, r, now, f, SomeItem(accu, f, x, "startsWith", v), HasPrefix(v));
    forall t
      ensures Holds(AtStart, t, v) <==> |v| <= |t| && t[..|v|] == v
    {
      HoldsRaw(t, v);
    }
  }

  /** ... ends with it, ... */
  lemma SomeEnds(g: Engine, d: Dialect, s: Schema, r: Row, now: int, f: string, x: string, accu: string, v: string)
    requires HasKind(s, f, JsonList) && Trusted(g, r, v)
    ensures HasValue(g, d, s, r, now, SomeItem(accu, f, x, "endsWith", v),
                     TruthOf(r.list(f).Some? && exists t :: t in r.list(f).value && |v| <= |t| && t[|t| - |v|..] == v))
  {
    hide HasValue, SomeItem, Holds, Trusted, HasKind;
    ExistsBuilt(s, now, f, x, accu, v);
    ExistsValue(g, d, s, r, now, f, SomeItem(accu, f, x, "endsWith", v), HasSuffix(v));
    forall t
      ensures Holds(AtEnd, t, v) <==> |v| <= |t| && t[|t| - |v|..] == v
    {
      HoldsRaw(t, v);
    }
  }

  /** ... or holds it. */
  lemma SomeHolds(g: Engine, d: Dialect, s: Schema, r: Row, now: int, f: string, x: string, accu: string, v: string)
    requires HasKind(s, f, JsonList) && Trusted(g, r, v)
    ensures HasValue(g, d, s, r, now, SomeItem(accu, f, x, "contains", v),
                     TruthOf(r.list(f).Some? && exists before: string, after: string ::
                               before + v + after in r.list(f).value))
  {
    hide HasValue, SomeItem, Holds, Trusted, HasKind;
    ExistsBuilt(s, now, f, x, accu, v);
    ExistsValue(g, d, s, r, now, f, SomeItem(accu, f, x, "contains", v), HasPart(v));
    forall t
      ensures Holds(Anywhere, t, v) <==> exists before: string, after: string :: t == before + v + after
    {
      HoldsRaw(t, v);
    }
  }

  lemma HoldsRaw(t: string, v: string)
    ensures Holds(Whole, t, v) <==> t == v
    ensures Holds(AtStart, t, v) <==> |v| <= |t| && t[..|v|] == v
    ensures Holds(AtEnd, t, v) <==> |v| <= |t| && t[|t| - |v|..] == v
    ensures Holds(Anywhere, t, v) <==> exists before: string, after: string :: t == before + v + after
  {
    InfixBetween(t, v);
  }

  lemma ExistsBuilt(s: Schema, now: int, f: string, x: string, accu: string, v: string)
    requires HasKind(s, f, JsonList)
    ensures Build(s, now, SomeItem(accu, f, x, "_==_", v)) == Some(Exists(f, Equals(v)))
    ensures Build(s, now, SomeItem(accu, f, x, "startsWith", v)) == Some(Exists(f, HasPrefix(v)))
    ensures Build(s, now, SomeItem(accu, f, x, "endsWith", v)) == Some(Exists(f, HasSuffix(v)))
    ensures Build(s, now, SomeItem(accu, f, x, "contains", v)) == Some(Exists(f, HasPart(v)))
  {
  }

  lemma ExistsValue(g: Engine, d: Dialect, s: Schema, r: Row, now: int, f: string, e: Expr, p: Predicate)
    requires HasKind(s, f, JsonList) && Trusted(g, r, p.v) && Build(s, now, e) == Some(Exists(f, p))
    ensures HasValue(g, d, s, r, now, e,
                     TruthOf(r.list(f).Some? && exists t :: t in r.list(f).value && Holds(WhereOf(p), t, p.v)))
  {
    hide HasValue, Build, Matches, Holds, Undisturbed;
    var c := Exists(f, p);
    LeafValue(g, d, s, r, now, e, c);
    LeafIsMeant(g, d, s, r, c);
    forall t
      ensures Matches(TestFold(g, d, p), WhereOf(p), t, p.v) <==> Holds(WhereOf(p), t, p.v)
    {
      UndisturbedMatches(g.listFold, WhereOf(p), t, p.v);
      ExactlyWhole(t, p.v);
      HoldsRaw(t, p.v);
    }
  }

  /** A tag is another one or lies below it in the hierarchy. */
  predicate Under(t: string, v: string) {
    t == v || (|v| < |t| && t[..|v|] == v && t[|v|] == '/')
  }

  /** The tags named in a list, and all tags below them in the hierarchy. */
  lemma TagListTest(g: Engine, d: Dialect, s: Schema, r: Row, now: int, vs: seq<string>)
    requires HasKind(s, "tag", VirtualAlias) && s["tag"].aliasFor in s && vs != []
    requires Undisturbed(g.listFold, "/") && forall v | v in vs :: Trusted(g, r, v)
    ensures var list := r.list(s[s["tag"].aliasFor].name);
      HasValue(g, d, s, r, now, Calling("@in", [Ident("tag"), ListOf(Strings(vs))]),
               if list.None? then Unknown
               else TruthOf(exists t, v :: t in list.value && v in vs && Under(t, v)))
  {
    hide HasValue, Build, TextsOf, Listed, Trusted, Undisturbed, CleanTag, Sane, Under, LeafText;
    var e, c := Calling("@in", [Ident("tag"), ListOf(Strings(vs))]), In(FieldRef("tag"), Literals(vs));
    var list := r.list(s[s["tag"].aliasFor].name);
    TagListBuilt(s, d, now, vs);
    TextsAre(vs);
    forall v | v in vs
      ensures Sane(g, r) && CleanTag(g.separator, d, v)
    {
      TrustedIsClean(g, d, r, v);
    }
    assert vs[0] in vs;
    LeafValue(g, d, s, r, now, e, c);
    LeafIsMeant(g, d, s, r, c);
    if list.Some? {
      forall v | v in vs
        ensures Listed(g, d, list.value, v) <==> exists t :: t in list.value && Under(t, v)
      {
        ListedRaw(g, d, r, list.value, v);
      }
    }
  }

  lemma TagListBuilt(s: Schema, d: Dialect, now: int, vs: seq<string>)
    requires HasKind(s, "tag", VirtualAlias) && s["tag"].aliasFor in s
    ensures var c := In(FieldRef("tag"), Literals(vs));
      Build(s, now, Calling("@in", [Ident("tag"), ListOf(Strings(vs))])) == Some(c) && LeafText(s, d, c).Some?
  {
    hide BuildValue, BuildValues, TextsOf;
    StringsBuilt(s, now, vs);
    TextsAre(vs);
  }

  lemma {:induction false} TextsAre(vs: seq<string>)
    ensures TextsOf(Literals(vs)) == Some(vs)
  {
    if vs != [] {
      TextsAre(vs[1..]);
      assert Literals(vs)[1..] == Literals(vs[1..]);
      assert [vs[0]] + vs[1..] == vs;
    }
  }

  lemma TrustedIsClean(g: Engine, d: Dialect, r: Row, v: string)
    requires Trusted(g, r, v)
    ensures Sane(g, r) && CleanTag(g.separator, d, v)
  {
    assert Unescaped(v);
    Below(v);
  }

  lemma ListedRaw(g: Engine, d: Dialect, r: Row, tags: seq<string>, v: string)
    requires Trusted(g, r, v) && Undisturbed(g.listFold, "/")
    ensures Listed(g, d, tags, v) <==> exists t :: t in tags && Under(t, v)
  {
    hide Matches, Sane;
    assert Undisturbed(g.listFold, v + "/") by {
      assert '/' in "/";
      assert forall c | c in v + "/" :: c in v || c == '/';
    }
    hide Undisturbed;
    forall t
      ensures Matches(MemberFold(g, d), Whole, t, v) <==> t == v
      ensures Matches(g.listFold, AtStart, t, v + "/") <==> |v| < |t| && t[..|v|] == v && t[|v|] == '/'
    {
      UndisturbedMatches(g.listFold, Whole, t, v);
      UndisturbedMatches(g.listFold, AtStart, t, v + "/");
      ExactlyWhole(t, v);
      PrefixSlash(t, v);
    }
  }

  lemma PrefixSlash(t: string, v: string)
    ensures IsPrefix(t, v + "/") <==> |v| < |t| && t[..|v|] == v && t[|v|] == '/'
  {
    if |v| < |t| {
      assert t[..|v| + 1] == t[..|v|] + [t[|v|]];
    }
  }

  /** The number of tags of a row, none if there is no list. */
  lemma SizeTest(g: Engine, d: Dialect, s: Schema, r: Row, now: int, f: string, fn: string, n: int)
    requires HasKind(s, f, JsonList) && IsComparison(fn)
    ensures var tags := if r.list(f).Some? then r.list(f).value else [];
      HasValue(g, d, s, r, now, Calling(fn, [Calling("size", [Ident(f)]), Const(Number(n))]),
               TruthOf(Related(fn, |tags|, n)))
  {
    hide HasValue, Related;
    var tags := if r.list(f).Some? then r.list(f).value else [];
    var size := Calling("size", [Ident(f)]);
    var e := Calling(fn, [size, Const(Number(n))]);
    OperatorsByName(fn, |tags| - n, s[f]);
    RelatedShift(fn, |tags|, n);
    assert BuildValue(s, now, size) == Some(FunctionValue("size", [FieldRef(f)]));
    LeafValue(g, d, s, r, now, e,
              Comparison(FunctionValue("size", [FieldRef(f)]), OperatorOf(fn).value, LiteralValue(Number(n))));
  }
}
