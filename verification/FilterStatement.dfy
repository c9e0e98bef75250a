/** The renderer as it runs: one pass over a tree that pushes arguments as it goes, and the statements it makes. */
module FilterStatement {
  import opened FilterArgs
  import opened FilterIr
  import opened FilterRender
  import opened FilterSql
  import opened FilterTags
  import opened Texts

  type Text = seq<Token<Value>>
  type Marked = seq<Token<Placeholder>>

  // ----- Writing text -----

  /** `out` is the text `ts` with its values moved to the end of the arguments. */
  ghost predicate Emits(d: Dialect, offset: nat, before: seq<Value>, ts: Text, out: Marked, after: seq<Value>) {
    out == Label(d, offset, |before|, ts) && after == before + Params(ts)
  }

  lemma EmitsConcat(d: Dialect, offset: nat, before: seq<Value>, a: Text, outA: Marked, between: seq<Value>, b: Text,
                    outB: Marked, after: seq<Value>)
    requires Emits(d, offset, before, a, outA, between) && Emits(d, offset, between, b, outB, after)
    ensures Emits(d, offset, before, a + b, outA + outB, after)
  {
    hide Label, Params;
    LabelConcat(d, offset, |before|, a, b);
    ParamsConcat(a, b);
  }

  lemma EmitsNothing(d: Dialect, offset: nat, args: seq<Value>)
    ensures Emits(d, offset, args, [], [], args)
  {
  }

  lemma EmitsAtom(d: Dialect, offset: nat, before: seq<Value>, kind: Kind, params: seq<Value>, marks: seq<Placeholder>)
    requires |marks| == |params| && forall i | 0 <= i < |params| :: marks[i] == Place(d, offset, |before| + i)
    ensures Emits(d, offset, before, [Atom(kind, params)], [Atom(kind, marks)], before + params)
  {
    var t: Token<Value> := Atom(kind, params);
    assert [t][1..] == [];
    var l := LabelToken(d, offset, |before|, t);
    forall i | 0 <= i < |params|
      ensures l.params[i] == marks[i]
    {
      assert l.params[i] == Place(d, offset, |before| + i);
    }
    assert l.params == marks;
  }

  lemma EmitsWord(d: Dialect, offset: nat, args: seq<Value>, w: Token<Value>)
    requires !w.Atom?
    ensures Emits(d, offset, args, [w], [LabelToken(d, offset, 0, w)], args)
  {
    assert [w][1..] == [];
  }

  lemma EmitsParens(d: Dialect, offset: nat, before: seq<Value>, ts: Text, out: Marked, after: seq<Value>)
    requires Emits(d, offset, before, ts, out, after)
    ensures Emits(d, offset, before, InParens(ts), InParens(out), after)
  {
    hide Emits;
    EmitsWord(d, offset, before, LeftParen);
    EmitsWord(d, offset, after, RightParen);
    EmitsConcat(d, offset, before, [LeftParen], [LeftParen], before, ts, out, after);
    EmitsConcat(d, offset, before, [LeftParen] + ts, [LeftParen] + out, after, [RightParen], [RightParen], after);
  }

  lemma EmitsJoined(d: Dialect, offset: nat, before: seq<Value>, a: Text, outA: Marked, between: seq<Value>,
                    w: Token<Value>, b: Text, outB: Marked, after: seq<Value>)
    requires !w.Atom? && Emits(d, offset, before, a, outA, between) && Emits(d, offset, between, b, outB, after)
    ensures Emits(d, offset, before, a + [w] + b, outA + [LabelToken(d, offset, 0, w)] + outB, after)
  {
    hide Emits, LabelToken;
    EmitsWord(d, offset, between, w);
    EmitsConcat(d, offset, before, a, outA, between, [w], [LabelToken(d, offset, 0, w)], between);
    EmitsConcat(d, offset, before, a + [w], outA + [LabelToken(d, offset, 0, w)], between, b, outB, after);
  }

  lemma EmitsDisjunction(d: Dialect, offset: nat, before: seq<Value>, a: Text, outA: Marked, between: seq<Value>,
                         b: Text, outB: Marked, after: seq<Value>)
    requires Emits(d, offset, before, a, outA, between) && Emits(d, offset, between, b, outB, after)
    ensures Emits(d, offset, before, Disjunction(a, b), Disjunction(outA, outB), after)
  {
    hide Emits;
    EmitsJoined(d, offset, before, a, outA, between, OrWord, b, outB, after);
    EmitsParens(d, offset, before, a + [OrWord] + b, outA + [OrWord] + outB, after);
  }

  // ----- Lists of alternatives -----

  lemma {:induction false} TextsOfIs(vs: seq<ValueExpr>)
    ensures TextsOf(vs).Some? <==> forall v | v in vs :: TextOf(v).Some?
    ensures TextsOf(vs).Some? ==> |TextsOf(vs).value| == |vs|
    ensures TextsOf(vs).Some? ==>
      forall i | 0 <= i < |vs| :: TextOf(vs[i]) == Some(TextsOf(vs).value[i])
  {
    if vs != [] {
      TextsOfIs(vs[1..]);
      assert forall v :: v in vs <==> v == vs[0] || v in vs[1..];
    }
  }

  lemma TextsOfSnoc(vs: seq<ValueExpr>, i: nat)
    requires i < |vs| && TextsOf(vs[..i]).Some?
    ensures TextOf(vs[i]).None? ==> TextsOf(vs).None?
    ensures TextOf(vs[i]).Some? ==> TextsOf(vs[..i + 1]) == Some(TextsOf(vs[..i]).value + [TextOf(vs[i]).value])
  {
    hide TextsOf, TextOf;
    TextsOfIs(vs);
    TextsOfIs(vs[..i]);
    TextsOfIs(vs[..i + 1]);
    assert vs[..i + 1] == vs[..i] + [vs[i]];
    if TextOf(vs[i]).Some? {
      assert TextsOf(vs[..i + 1]).value == TextsOf(vs[..i]).value + [TextOf(vs[i]).value];
    }
  }

  lemma {:induction false} ScalarValuesIs(t: FieldType, vs: seq<ValueExpr>)
    ensures ScalarValues(t, vs).Some? <==>
      vs == [] || (t != TimestampType && forall v | v in vs :: ScalarValue(t, v).Some?)
    ensures ScalarValues(t, vs).Some? ==> |ScalarValues(t, vs).value| == |vs|
    ensures ScalarValues(t, vs).Some? ==>
      forall i | 0 <= i < |vs| :: ScalarValue(t, vs[i]) == Some(ScalarValues(t, vs).value[i])
  {
    hide ScalarValue;
    if vs != [] {
      ScalarValuesIs(t, vs[1..]);
      assert forall v :: v in vs <==> v == vs[0] || v in vs[1..];
    }
  }

  lemma ScalarValuesSnoc(t: FieldType, vs: seq<ValueExpr>, i: nat)
    requires i < |vs| && ScalarValues(t, vs[..i]).Some?
    ensures t == TimestampType || ScalarValue(t, vs[i]).None? ==> ScalarValues(t, vs).None?
    ensures t != TimestampType && ScalarValue(t, vs[i]).Some? ==>
      ScalarValues(t, vs[..i + 1]) == Some(ScalarValues(t, vs[..i]).value + [ScalarValue(t, vs[i]).value])
  {
    hide ScalarValue, ScalarValues;
    ScalarValuesIs(t, vs);
    ScalarValuesIs(t, vs[..i]);
    ScalarValuesIs(t, vs[..i + 1]);
    assert vs[..i + 1] == vs[..i] + [vs[i]];
    assert vs[i] in vs;
    if t != TimestampType && ScalarValue(t, vs[i]).Some? {
      assert ScalarValues(t, vs[..i + 1]).value == ScalarValues(t, vs[..i]).value + [ScalarValue(t, vs[i]).value];
    }
  }

  /** Adding one more alternative to a list of tag tests. */
  lemma EmitsTagTest(d: Dialect, offset: nat, before: seq<Value>, f: string, vs: seq<string>, outs: seq<Marked>,
                     between: seq<Value>, v: string, out: Marked, after: seq<Value>)
    requires |outs| == |vs| &&
      Emits(d, offset, before, Joined(OrWord, TagTests(d, f, vs)), Joined(OrWord, outs), between)
    requires Emits(d, offset, between, TagTest(d, f, v), out, after)
    ensures Emits(d, offset, before, Joined(OrWord, TagTests(d, f, vs + [v])), Joined(OrWord, outs + [out]), after)
  {
    hide Emits, TagTest, Joined;
    assert TagTests(d, f, vs + [v]) == TagTests(d, f, vs) + [TagTest(d, f, v)];
    JoinedSnoc(OrWord, TagTests(d, f, vs), TagTest(d, f, v));
    JoinedSnoc(OrWord, outs, out);
    if vs == [] {
      NoText(TagTests(d, f, vs), outs);
      EmitsConcat(d, offset, before, [], [], between, TagTest(d, f, v), out, after);
      assert [] + out == out && [] + TagTest(d, f, v) == TagTest(d, f, v);
    } else {
      EmitsJoined(d, offset, before, Joined(OrWord, TagTests(d, f, vs)), Joined(OrWord, outs), between, OrWord,
                  TagTest(d, f, v), out, after);
    }
  }

  lemma NoText(a: seq<Text>, b: seq<Marked>)
    ensures a == [] ==> Joined(OrWord, a) == []
    ensures b == [] ==> Joined(OrWord, b) == []
  {
  }

  // ----- The renderer -----

  class Renderer {
    const schema: Schema
    const dialect: Dialect
    const offset: nat
    var counter: nat
    var args: seq<Value>

    ghost predicate Valid()
      reads this
    {
      counter == |args|
    }

    constructor (schema: Schema, dialect: Dialect, offset: nat)
      ensures Valid() && args == []
      ensures this.schema == schema && this.dialect == dialect && this.offset == offset
    {
      this.schema, this.dialect, this.offset := schema, dialect, offset;
      counter, args := 0, [];
    }

    /** A leaf was written: exactly if it has a text, and then that text with its values pushed. */
    twostate predicate Wrote(new ts: Option<Text>, new out: Option<Marked>)
      reads this
    {
      && Valid() && (out.Some? <==> ts.Some?)
      && (out.Some? ==> Emits(dialect, offset, old(args), ts.value, out.value, args))
    }

    method AddArg(v: Value) returns (p: Placeholder)
      requires Valid()
      modifies this
      ensures Valid() && args == old(args) + [v] && p == Place(dialect, offset, |old(args)|)
    {
      counter := counter + 1;
      args := args + [v];
      p := if dialect == Postgres then Dollar(offset + counter) else Question;
    }

    method AddBoolArg(b: bool) returns (p: Placeholder)
      requires Valid()
      modifies this
      ensures Valid() && args == old(args) + [BoolArg(dialect, b)] && p == Place(dialect, offset, |old(args)|)
    {
      p := AddArg(if dialect == SQLite then Int(if b then 1 else 0) else Bool(b));
    }

    /** An atom with one parameter. */
    method Test(kind: Kind, v: Value) returns (out: Marked)
      requires Valid()
      modifies this
      ensures Valid() && Emits(dialect, offset, old(args), [Atom(kind, [v])], out, args)
    {
      var p := AddArg(v);
      out := [Atom(kind, [p])];
      EmitsAtom(dialect, offset, old(args), kind, [v], [p]);
    }

    /** An atom without parameters. */
    lemma Bare(kind: Kind)
      ensures Emits(dialect, offset, args, [Atom(kind, [])], [Atom(kind, [])], args)
    {
      EmitsAtom(dialect, offset, args, kind, [], []);
      assert args + [] == args;
    }

    method RenderFieldPredicate(f: string) returns (r: Option<Marked>)
      requires Valid()
      modifies this
      ensures Wrote(LeafText(schema, dialect, FieldPredicate(f)), r)
    {
      hide Emits;
      if f !in schema {
        return None;
      }
      match schema[f].kind
      case BoolColumn =>
        Bare(IsTrue(f));
        r := Some([Atom(IsTrue(f), [])]);
      case JsonBool =>
        Bare(JsonTrue(f));
        r := Some([Atom(JsonTrue(f), [])]);
      case _ => r := None;
    }

    method RenderComparison(lhs: ValueExpr, op: Operator, rhs: ValueExpr) returns (r: Option<Marked>)
      requires Valid()
      modifies this
      ensures Wrote(LeafText(schema, dialect, Comparison(lhs, op, rhs)), r)
    {
      hide Emits;
      match lhs
      case FieldRef(f) =>
        if f !in schema {
          return None;
        }
        match schema[f].kind {
          case BoolColumn => r := RenderBoolColumnComparison(f, op, rhs);
          case JsonBool => r := RenderJsonBoolComparison(f, op, rhs);
          case Scalar => r := RenderScalarComparison(f, op, rhs);
          case _ => r := None;
        }
      case FunctionValue(fn, fnArgs) => r := RenderFunctionComparison(fn, fnArgs, op, rhs);
      case _ => r := None;
    }

    method RenderBoolColumnComparison(f: string, op: Operator, rhs: ValueExpr) returns (r: Option<Marked>)
      requires Valid() && HasKind(schema, f, BoolColumn)
      modifies this
      ensures Wrote(ComparisonText(schema, dialect, f, op, rhs), r)
    {
      var value := BoolOf(rhs);
      if value.None? {
        return None;
      }
      var p := AddBoolArg(value.value);
      r := Some([Atom(Compare(f, op), [p])]);
      EmitsAtom(dialect, offset, old(args), Compare(f, op), [BoolArg(dialect, value.value)], [p]);
    }

    method RenderJsonBoolComparison(f: string, op: Operator, rhs: ValueExpr) returns (r: Option<Marked>)
      requires Valid() && HasKind(schema, f, JsonBool)
      modifies this
      ensures Wrote(ComparisonText(schema, dialect, f, op, rhs), r)
    {
      hide Emits;
      var value := BoolOf(rhs);
      if value.None? {
        return None;
      }
      var kind := JsonCompare(f, op, value.value);
      match dialect
      case SQLite =>
        if op != Eq && op != Neq {
          return None;
        }
        Bare(kind);
        r := Some([Atom(kind, [])]);
      case MySQL =>
        Bare(kind);
        r := Some([Atom(kind, [])]);
      case Postgres =>
        var out := Test(kind, Bool(value.value));
        r := Some(out);
    }

    method RenderScalarComparison(f: string, op: Operator, rhs: ValueExpr) returns (r: Option<Marked>)
      requires Valid() && HasKind(schema, f, Scalar)
      modifies this
      ensures Wrote(ComparisonText(schema, dialect, f, op, rhs), r)
    {
      hide Emits;
      if !rhs.LiteralValue? {
        return None;
      }
      if rhs.lit.NullLiteral? {
        match op
        case Eq =>
          Bare(IsNull(f));
          return Some([Atom(IsNull(f), [])]);
        case Neq =>
          Bare(IsNotNull(f));
          return Some([Atom(IsNotNull(f), [])]);
        case _ => return None;
      }
      var value := ScalarValue(schema[f].fieldType, rhs);
      if value.None? {
        return None;
      }
      var out := Test(Compare(f, op), value.value);
      r := Some(out);
    }

    method RenderFunctionComparison(fn: string, fnArgs: seq<ValueExpr>, op: Operator, rhs: ValueExpr)
      returns (r: Option<Marked>)
      requires Valid()
      modifies this
      ensures Wrote(SizeText(schema, fn, fnArgs, op, rhs), r)
    {
      hide Emits;
      if fn != "size" || |fnArgs| != 1 || !fnArgs[0].FieldRef? || !HasKind(schema, fnArgs[0].name, JsonList) {
        return None;
      }
      var value := IntOf(rhs);
      if value.None? {
        return None;
      }
      var out := Test(ListCount(fnArgs[0].name, op), Int(value.value));
      r := Some(out);
    }

    method RenderIn(element: ValueExpr, values: seq<ValueExpr>) returns (r: Option<Marked>)
      requires Valid()
      modifies this
      ensures Wrote(LeafText(schema, dialect, In(element, values)), r)
    {
      hide Emits;
      if !element.FieldRef? {
        return None;
      }
      if element.name == "tag" {
        r := RenderTagInList(values);
      } else if !HasKind(schema, element.name, Scalar) {
        r := None;
      } else {
        r := RenderScalarIn(element.name, values);
      }
    }

    method RenderTagInList(values: seq<ValueExpr>) returns (r: Option<Marked>)
      requires Valid()
      modifies this
      ensures Wrote(InText(schema, dialect, "tag", values), r)
    {
      hide Emits, TagTest, Joined;
      var field := ResolveAlias(schema, "tag");
      if field.None? {
        return None;
      }
      var f := field.value.name;
      var conditions: seq<Marked> := [];
      ghost var vs: seq<string> := [];
      NoText(TagTests(dialect, f, vs), conditions);
      EmitsNothing(dialect, offset, args);
      for i := 0 to |values|
        invariant Valid() && |conditions| == |vs| == i
        invariant TextsOf(values[..i]) == Some(vs)
        invariant Emits(dialect, offset, old(args), Joined(OrWord, TagTests(dialect, f, vs)),
                        Joined(OrWord, conditions), args)
      {
        TextsOfSnoc(values, i);
        var text := TextOf(values[i]);
        if text.None? {
          return None;
        }
        ghost var between := args;
        var condition := RenderTag(f, text.value);
        EmitsTagTest(dialect, offset, old(args), f, vs, conditions, between, text.value, condition, args);
        conditions := conditions + [condition];
        vs := vs + [text.value];
      }
      assert values[..|values|] == values;
      if |conditions| == 1 {
        AloneIsJoined(TagTests(dialect, f, vs));
        AloneIsJoined(conditions);
        return Some(conditions[0]);
      }
      EmitsParens(dialect, offset, old(args), Joined(OrWord, TagTests(dialect, f, vs)), Joined(OrWord, conditions),
                  args);
      r := Some(InParens(Joined(OrWord, conditions)));
    }

    /** A tag or anything below it. */
    method RenderTag(f: string, v: string) returns (out: Marked)
      requires Valid()
      modifies this
      ensures Valid() && Emits(dialect, offset, old(args), TagTest(dialect, f, v), out, args)
    {
      hide Emits;
      var exact := RenderHas(dialect == SQLite, f, v);
      ghost var between := args;
      var prefix := Test(ListLike(f), Str(Pattern(AtStart, v + "/")));
      EmitsDisjunction(dialect, offset, old(args), [HasTest(dialect == SQLite, f, v)], exact, between,
                       [LikeTest(f, Pattern(AtStart, v + "/"))], prefix, args);
      out := Disjunction(exact, prefix);
    }

    method RenderHas(byText: bool, f: string, v: string) returns (out: Marked)
      requires Valid()
      modifies this
      ensures Valid() && Emits(dialect, offset, old(args), [HasTest(byText, f, v)], out, args)
    {
      hide Emits;
      if byText {
        out := Test(ListLike(f), Str(Pattern(Whole, v)));
      } else {
        out := Test(ListHas(f), Str(Quoted(v)));
      }
    }

    method RenderScalarIn(f: string, values: seq<ValueExpr>) returns (r: Option<Marked>)
      requires Valid() && f != "tag" && HasKind(schema, f, Scalar)
      modifies this
      ensures Wrote(InText(schema, dialect, f, values), r)
    {
      hide ScalarValue, ScalarValues;
      var t := schema[f].fieldType;
      var placeholders: seq<Placeholder> := [];
      ghost var vs: seq<Value> := [];
      ScalarValuesIs(t, values[..0]);
      for i := 0 to |values|
        invariant Valid() && |placeholders| == |vs| == i
        invariant ScalarValues(t, values[..i]) == Some(vs)
        invariant args == old(args) + vs
        invariant forall j | 0 <= j < i :: placeholders[j] == Place(dialect, offset, |old(args)| + j)
      {
        ScalarValuesSnoc(t, values, i);
        var value := ScalarValue(t, values[i]);
        if t == TimestampType || value.None? {
          return None;
        }
        var p := AddArg(value.value);
        placeholders := placeholders + [p];
        vs := vs + [value.value];
      }
      assert values[..|values|] == values;
      EmitsAtom(dialect, offset, old(args), InList(f), vs, placeholders);
      r := Some([Atom(InList(f), placeholders)]);
    }

    method RenderElementIn(element: ValueExpr, f: string) returns (r: Option<Marked>)
      requires Valid()
      modifies this
      ensures Wrote(LeafText(schema, dialect, ElementIn(element, f)), r)
    {
      hide Emits;
      if !HasKind(schema, f, JsonList) || TextOf(element).None? {
        return None;
      }
      var out := RenderHas(dialect == SQLite, f, TextOf(element).value);
      r := Some(out);
    }

    method RenderContains(f: string, v: string) returns (r: Option<Marked>)
      requires Valid()
      modifies this
      ensures Wrote(LeafText(schema, dialect, Contains(f, v)), r)
    {
      hide Emits;
      if f !in schema {
        return None;
      }
      var out := Test(TextLike(f), Str("%" + v + "%"));
      r := Some(out);
    }

    method RenderExists(f: string, p: Predicate) returns (r: Option<Marked>)
      requires Valid()
      modifies this
      ensures Wrote(LeafText(schema, dialect, Exists(f, p)), r)
    {
      hide Emits, TestText;
      if !HasKind(schema, f, JsonList) {
        return None;
      }
      var test := RenderTest(f, p);
      EmitsGuarded(dialect, offset, old(args), f, TestText(dialect, f, p), test, args);
      r := Some(WithNullCheck(f, test));
    }

    method RenderTest(f: string, p: Predicate) returns (out: Marked)
      requires Valid()
      modifies this
      ensures Valid() && Emits(dialect, offset, old(args), TestText(dialect, f, p), out, args)
    {
      hide Emits;
      match p
      case Equals(v) => out := RenderHas(dialect != Postgres, f, v);
      case HasPrefix(v) =>
        var exact := RenderHas(dialect != Postgres, f, v);
        ghost var between := args;
        var prefix := Test(ListLike(f), Str(Pattern(AtStart, v)));
        EmitsDisjunction(dialect, offset, old(args), [HasTest(dialect != Postgres, f, v)], exact, between,
                         [LikeTest(f, Pattern(AtStart, v))], prefix, args);
        out := Disjunction(exact, prefix);
      case HasSuffix(v) => out := Test(ListLike(f), Str(Pattern(AtEnd, v)));
      case HasPart(v) => out := Test(ListLike(f), Str(Pattern(Anywhere, v)));
    }

    /** One pass over a tree. It fails exactly on a leaf that does not fit the schema; else its text is the tree's text
        with the placeholders of the arguments it pushed. */
    method RenderCondition(c: Condition) returns (r: Option<Rendered<Placeholder>>)
      requires Valid()
      modifies this
      ensures Valid() && (r.Some? <==> Renderable(schema, dialect, c))
      ensures r.Some? ==> r.value == Rendering(schema, dialect, offset, |old(args)|, c)
      ensures r.Some? ==> args == old(args) + ArgsOf(schema, dialect, c)
      decreases c
    {
      hide LeafText, Label, Params, Combine, CombineNot;
      match c
      case Logical(op, a, b) =>
        var left := RenderCondition(a);
        if left.None? {
          return None;
        }
        var right := RenderCondition(b);
        if right.None? {
          return None;
        }
        r := Some(Combine(op, left.value, right.value));
      case NotOf(a) =>
        var child := RenderCondition(a);
        if child.None? {
          return None;
        }
        r := Some(CombineNot(child.value));
      case Constant(b) => r := Some(if b then Truly() else Falsely());
      case _ =>
        var leaf := RenderLeaf(c);
        r := if leaf.None? then None else Some(Plainly(leaf.value));
    }

    method RenderLeaf(c: Condition) returns (r: Option<Marked>)
      requires Valid() && c.IsLeaf()
      modifies this
      ensures Wrote(LeafText(schema, dialect, c), r)
    {
      hide LeafText, Emits;
      match c
      case FieldPredicate(f) => r := RenderFieldPredicate(f);
      case Comparison(lhs, op, rhs) => r := RenderComparison(lhs, op, rhs);
      case In(element, values) => r := RenderIn(element, values);
      case ElementIn(element, f) => r := RenderElementIn(element, f);
      case Contains(f, v) => r := RenderContains(f, v);
      case Exists(f, p) => r := RenderExists(f, p);
    }

    method Render(c: Condition) returns (r: Option<Statement>)
      requires Valid() && args == []
      modifies this
      ensures r.Some? <==> Renderable(schema, dialect, c)
      ensures r.Some? ==> r.value == StatementOf(schema, dialect, offset, c)
    {
      var result := RenderCondition(c);
      if result.None? {
        return None;
      }
      r := Some(Statement(FinalSql(result.value), args));
    }
  }

  lemma EmitsGuarded(d: Dialect, offset: nat, before: seq<Value>, f: string, ts: Text, out: Marked, after: seq<Value>)
    requires Emits(d, offset, before, ts, out, after)
    ensures Emits(d, offset, before, WithNullCheck(f, ts), WithNullCheck(f, out), after)
  {
    hide Emits;
    var p: Text, q: Text := [Atom(ListPresent(f), [])], [Atom(ListNotEmpty(f), [])];
    var pm: Marked, qm: Marked := [Atom(ListPresent(f), [])], [Atom(ListNotEmpty(f), [])];
    EmitsAtom(d, offset, after, ListPresent(f), [], []);
    EmitsAtom(d, offset, after, ListNotEmpty(f), [], []);
    assert after + [] == after;
    EmitsJoined(d, offset, before, ts, out, after, AndWord, p, pm, after);
    EmitsJoined(d, offset, before, ts + [AndWord] + p, out + [AndWord] + pm, after, AndWord, q, qm, after);
    EmitsParens(d, offset, before, ts + [AndWord] + p + [AndWord] + q, out + [AndWord] + pm + [AndWord] + qm, after);
  }

  lemma AloneIsJoined<P>(texts: seq<seq<Token<P>>>)
    requires |texts| == 1
    ensures Joined(OrWord, texts) == texts[0]
  {
  }
}
