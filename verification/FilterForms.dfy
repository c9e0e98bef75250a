/** The filters that are compiled, by the form of their expressions, and those over the fields of memos and
    attachments. */
module FilterForms {
  import opened Cel
  import opened FilterBuild
  import opened FilterIr
  import opened FilterPlain
  import opened FilterRender
  import opened FilterSql
  import opened Texts

  // ----- Forms of expressions -----

  predicate IsText(e: Expr) { e.Const? && e.lit.Text? }

  /** A number, the time, or arithmetic on such. */
  predicate IsNumber(e: Expr) {
    match e
    case Const(lit) => lit.Number?
    case Call(fn, _, args) =>
      || fn == "now"
      || ((fn == "_+_" || fn == "_-_" || fn == "_*_") && |args| == 2 && IsNumber(args[0]) && IsNumber(args[1]))
    case _ => false
  }

  /** A boolean constant under any number of negations. */
  predicate IsFlag(e: Expr) {
    match e
    case Const(lit) => lit.Boolean?
    case Call(fn, _, args) => fn == "!_" && |args| == 1 && IsFlag(args[0])
    case _ => false
  }

  /** A constant of the type of the column. */
  predicate OfType(t: FieldType, e: Expr) {
    match t
    case StringType => IsText(e)
    case IntType => IsNumber(e)
    case TimestampType => IsNumber(e)
    case BoolType => false
  }

  predicate ComparesField(d: Dialect, def: Field, fn: string, b: Expr) {
    Permits(def, fn) &&
    match def.kind
    case Scalar => OfType(def.fieldType, b) || (b == Const(NullLiteral) && (fn == "_==_" || fn == "_!=_"))
    case BoolColumn => IsFlag(b)
    case JsonBool => IsFlag(b) && (d == SQLite ==> fn == "_==_" || fn == "_!=_")
    case _ => false
  }

  predicate IsSizeOf(s: Schema, a: Expr) {
    a.Call? && a.fn == "size" && |a.args| == 1 && a.args[0].Ident? && HasKind(s, a.args[0].name, JsonList)
  }

  predicate ComparisonForm(s: Schema, d: Dialect, fn: string, a: Expr, b: Expr) {
    if a.Ident? then a.name in s && ComparesField(d, s[a.name], fn, b) else IsSizeOf(s, a) && IsNumber(b)
  }

  /** A column or the alias `tag` in a list of constants, or a text in a list of the row. */
  predicate MembershipForm(s: Schema, a: Expr, b: Expr) {
    if a.Ident? then
      && b.ListOf?
      && if a.name == "tag" then
           && "tag" in s && (s["tag"].kind == VirtualAlias ==> s["tag"].aliasFor in s)
           && forall x | x in b.elements :: IsText(x)
         else
           && HasKind(s, a.name, Scalar)
           && forall x | x in b.elements :: OfType(s[a.name].fieldType, x) && s[a.name].fieldType != TimestampType
    else IsText(a) && b.Ident? && HasKind(s, b.name, JsonList)
  }

  predicate ContainsForm(s: Schema, target: Option<Expr>, args: seq<Expr>) {
    && target.Some? && target.value.Ident? && target.value.name in s && s[target.value.name].supportsContains
    && |args| == 1 && IsText(args[0])
  }

  /** The tests on an item `x`: equality with a text on either side, or a call on the item. */
  predicate TestForm(x: string, p: Expr) {
    p.Call? &&
    if p.fn == "_==_" then
      && |p.args| == 2
      && ((p.args[0] == Ident(x) && IsText(p.args[1])) || (IsText(p.args[0]) && p.args[1] == Ident(x)))
    else
      && (p.fn == "startsWith" || p.fn == "endsWith" || p.fn == "contains")
      && p.target == Some(Ident(x)) && |p.args| == 1 && IsText(p.args[0])
  }

  predicate LoopForm(s: Schema, e: Expr)
    requires e.Comprehension?
  {
    && e.iterRange.Ident? && HasKind(s, e.iterRange.name, JsonList)
    && e.accuInit.Const? && e.accuInit.lit != Boolean(true)
    && e.loopStep.Call? && e.loopStep.fn == "_||_" && |e.loopStep.args| == 2 && TestForm(e.iterVar, e.loopStep.args[1])
  }

  predicate Compiles(s: Schema, d: Dialect, e: Expr) {
    match e
    case Const(lit) => lit.Boolean?
    case Ident(f) => f in s && s[f].fieldType == BoolType && (s[f].kind == BoolColumn || s[f].kind == JsonBool)
    case ListOf(_) => false
    case Comprehension(_, _, _, _, _, _, _) => LoopForm(s, e)
    case Call(fn, target, args) =>
      if fn == "!_" then |args| == 1 && Compiles(s, d, args[0])
      else if fn == "contains" then ContainsForm(s, target, args)
      else
        && |args| == 2
        && if fn == "_&&_" || fn == "_||_" then Compiles(s, d, args[0]) && Compiles(s, d, args[1])
           else if fn == "@in" then MembershipForm(s, args[0], args[1])
           else IsComparison(fn) && ComparisonForm(s, d, fn, args[0], args[1])
  }

  // ----- Exactly these are compiled -----

  lemma {:induction false} NumberForm(now: int, e: Expr)
    ensures EvaluateNumeric(now, e).Some? <==> IsNumber(e)
  {
    hide Calculate, Wrap;
    if e.Call? && e.fn != "now" && |e.args| == 2 {
      NumberForm(now, e.args[0]);
      NumberForm(now, e.args[1]);
    }
  }

  lemma {:induction false} FlagForm(e: Expr)
    ensures EvaluateBool(e).Some? <==> IsFlag(e)
  {
    if e.Call? && |e.args| == 1 {
      FlagForm(e.args[0]);
    }
  }

  /** What the value expression built from an expression says of its form. */
  ghost predicate Tells(s: Schema, e: Expr, v: Option<ValueExpr>) {
    && (IsText(e) <==> v.Some? && TextOf(v.value).Some?)
    && (IsNumber(e) <==> v.Some? && IntOf(v.value).Some?)
    && (IsFlag(e) <==> v.Some? && BoolOf(v.value).Some?)
    && (e == Const(NullLiteral) <==> v == Some(LiteralValue(NullLiteral)))
    && (forall f :: v == Some(FieldRef(f)) <==> e == Ident(f) && f in s)
    && (v.Some? && v.value.FunctionValue? ==> v.value.fn == "size" && |v.value.args| == 1)
  }

  lemma ValueTells(s: Schema, now: int, e: Expr)
    ensures Tells(s, e, BuildValue(s, now, e))
  {
    hide EvaluateNumeric, EvaluateBool;
    NumberForm(now, e);
    FlagForm(e);
  }

  lemma SizeTells(s: Schema, now: int, a: Expr)
    ensures var v := BuildValue(s, now, a);
      IsSizeOf(s, a) <==> v.Some? && v.value.FunctionValue? && |v.value.args| == 1 && v.value.args[0].FieldRef? &&
                          HasKind(s, v.value.args[0].name, JsonList)
    ensures IsSizeOf(s, a) ==> a.Call?
  {
    hide EvaluateNumeric, EvaluateBool;
    NumberForm(now, a);
    FlagForm(a);
  }

  lemma ComparisonCompiles(s: Schema, d: Dialect, now: int, fn: string, a: Expr, b: Expr)
    requires IsComparison(fn)
    ensures Accepted(s, d, now, Calling(fn, [a, b])) <==> ComparisonForm(s, d, fn, a, b)
  {
    hide BuildValue, IsText, IsNumber, IsFlag, IsSizeOf, ComparesField, ComparisonText, Permits;
    var u, v, e := BuildValue(s, now, a), BuildValue(s, now, b), Calling(fn, [a, b]);
    ValueTells(s, now, a);
    ValueTells(s, now, b);
    SizeTells(s, now, a);
    var def := if a.Ident? && a.name in s then s[a.name] else Field("", Scalar, StringType, "", false, None);
    OperatorsByName(fn, 0, def);
    var op := OperatorOf(fn).value;
    assert Build(s, now, e) == BuildComparison(s, now, op, [a, b]);
    if u.Some? && u.value.FieldRef? {
      FieldCompiles(s, d, now, fn, a.name, b);
    } else if u.Some? && v.Some? {
      assert Build(s, now, e) == Some(Comparison(u.value, op, v.value));
    }
  }

  lemma FieldCompiles(s: Schema, d: Dialect, now: int, fn: string, f: string, b: Expr)
    requires IsComparison(fn) && f in s
    ensures OperatorOf(fn).Some?
    ensures var op, v := OperatorOf(fn).value, BuildValue(s, now, b);
      (v.Some? && Allowed(s, FieldRef(f), op) && ComparisonText(s, d, f, op, v.value).Some?) <==>
      ComparesField(d, s[f], fn, b)
  {
    hide BuildValue, IsText, IsNumber, IsFlag, Permits;
    ValueTells(s, now, b);
    OperatorsByName(fn, 0, s[f]);
  }

  lemma {:induction false} ListTells(s: Schema, now: int, es: seq<Expr>, t: FieldType)
    ensures var vs := BuildValues(s, now, es);
      && (vs.Some? && TextsOf(vs.value).Some? <==> forall x | x in es :: IsText(x))
      && (vs.Some? && ScalarValues(t, vs.value).Some? <==>
          forall x | x in es :: OfType(t, x) && t != TimestampType)
  {
    hide BuildValue, BuildValues, IsText, IsNumber;
    var vs := BuildValues(s, now, es);
    if vs.Some? {
      BuildValuesIs(s, now, es);
      forall i | 0 <= i < |es|
        ensures IsText(es[i]) <==> TextOf(vs.value[i]).Some?
        ensures OfType(t, es[i]) <==> ScalarValue(t, vs.value[i]).Some?
      {
        ValueTells(s, now, es[i]);
      }
      EachText(vs.value);
      EachScalar(t, vs.value);
      assert forall i | 0 <= i < |es| :: es[i] in es;
    } else {
      var i := Unbuilt(s, now, es);
      ValueTells(s, now, es[i]);
      assert es[i] in es;
    }
  }

  lemma {:induction false} EachText(vs: seq<ValueExpr>)
    ensures TextsOf(vs).Some? <==> forall i | 0 <= i < |vs| :: TextOf(vs[i]).Some?
  {
    if vs != [] {
      EachText(vs[1..]);
      assert forall i | 0 < i < |vs| :: vs[i] == vs[1..][i - 1];
    }
  }

  lemma {:induction false} EachScalar(t: FieldType, vs: seq<ValueExpr>)
    ensures ScalarValues(t, vs).Some? <==>
      forall i | 0 <= i < |vs| :: ScalarValue(t, vs[i]).Some? && t != TimestampType
  {
    if vs != [] {
      EachScalar(t, vs[1..]);
      assert forall i | 0 < i < |vs| :: vs[i] == vs[1..][i - 1];
    }
  }

  /** If a list is not built, some element is not. */
  lemma {:induction false} Unbuilt(s: Schema, now: int, es: seq<Expr>) returns (i: nat)
    requires BuildValues(s, now, es).None?
    ensures i < |es| && BuildValue(s, now, es[i]).None?
  {
    hide BuildValue;
    i := |es| - 1;
    if BuildValue(s, now, es[i]).Some? {
      i := Unbuilt(s, now, es[..i]);
    }
  }

  lemma MembershipCompiles(s: Schema, d: Dialect, now: int, a: Expr, b: Expr)
    ensures Accepted(s, d, now, Calling("@in", [a, b])) <==> MembershipForm(s, a, b)
  {
    hide BuildValue, BuildValues, IsText, OfType, TextsOf, ScalarValues;
    var e := Calling("@in", [a, b]);
    assert Build(s, now, e) == BuildIn(s, now, [a, b]);
    ValueTells(s, now, a);
    if a.Ident? && b.ListOf? {
      ListTells(s, now, b.elements, if a.name in s then s[a.name].fieldType else StringType);
    }
  }

  lemma TestBuilt(x: string, p: Expr)
    ensures BuildPredicate(x, p).Some? <==> TestForm(x, p)
  {
  }

  /** A filter is compiled if and only if it has one of the forms. */
  lemma {:induction false} CompilesExactly(s: Schema, d: Dialect, now: int, e: Expr)
    ensures Accepted(s, d, now, e) <==> Compiles(s, d, e)
  {
    match e
    case Call(fn, target, args) =>
      if fn == "!_" {
        if |args| == 1 {
          CompilesExactly(s, d, now, args[0]);
        }
      } else if |args| == 2 {
        if fn == "_&&_" || fn == "_||_" {
          CompilesExactly(s, d, now, args[0]);
          CompilesExactly(s, d, now, args[1]);
        } else if fn == "@in" {
          MembershipCompiles(s, d, now, args[0], args[1]);
        } else if IsComparison(fn) {
          ComparisonCompiles(s, d, now, fn, args[0], args[1]);
        }
      }
    case Comprehension(_, _, _, _, _, _, _) =>
      if e.loopStep.Call? && |e.loopStep.args| == 2 {
        TestBuilt(e.iterVar, e.loopStep.args[1]);
      }
    case _ =>
  }

  /** Of the macros only `exists` over a list of the row with a test on its items is compiled. */
  lemma MacrosCompile(s: Schema, d: Dialect, now: int, m: Macro, accu: string, range: Expr, x: string, p: Expr)
    ensures Accepted(s, d, now, Expand(m, accu, range, x, p)) <==>
      m == ExistsMacro && range.Ident? && HasKind(s, range.name, JsonList) && TestForm(x, p)
  {
    hide Accepted, TestForm;
    CompilesExactly(s, d, now, Expand(m, accu, range, x, p));
  }

  // ----- Memos and attachments -----

  const EQUALITY: Option<set<Operator>> := Some({Eq, Neq})

  function Flag(name: string, kind: FieldKind): Field { Field(name, kind, BoolType, "", false, EQUALITY) }

  const MEMO_FIELDS: Schema :=
    map["content" := Field("content", Scalar, StringType, "", true, None),
        "creator" := Field("creator", Scalar, StringType, "", false, EQUALITY),
        "creator_id" := Field("creator_id", Scalar, IntType, "", false, EQUALITY),
        "created_ts" := Field("created_ts", Scalar, TimestampType, "", false, None),
        "updated_ts" := Field("updated_ts", Scalar, TimestampType, "", false, None),
        "pinned" := Flag("pinned", BoolColumn),
        "visibility" := Field("visibility", Scalar, StringType, "", false, EQUALITY),
        "tags" := Field("tags", JsonList, StringType, "", false, None),
        "tag" := Field("tag", VirtualAlias, StringType, "tags", false, None),
        "has_task_list" := Flag("has_task_list", JsonBool),
        "has_link" := Flag("has_link", JsonBool),
        "has_code" := Flag("has_code", JsonBool),
        "has_incomplete_tasks" := Flag("has_incomplete_tasks", JsonBool)]

  const ATTACHMENT_FIELDS: Schema :=
    map["filename" := Field("filename", Scalar, StringType, "", true, None),
        "mime_type" := Field("mime_type", Scalar, StringType, "", false, None),
        "create_time" := Field("create_time", Scalar, TimestampType, "", false, None),
        "memo_id" := Field("memo_id", Scalar, IntType, "", false, EQUALITY)]

  lemma TagsHaveAnAlias()
    ensures TagIsAlias(MEMO_FIELDS) && TagIsAlias(ATTACHMENT_FIELDS)
  {
  }

  /** What a memo may be compared with: its times and content in every relation, the rest up to equality. */
  lemma MemoComparisons(d: Dialect, now: int, fn: string, f: string, b: Expr)
    requires IsComparison(fn)
    ensures Accepted(MEMO_FIELDS, d, now, Calling(fn, [Ident(f), b])) <==>
      var equality := fn == "_==_" || fn == "_!=_";
      || (f in {"created_ts", "updated_ts"} && (IsNumber(b) || (equality && b == Const(NullLiteral))))
      || (f == "content" && (IsText(b) || (equality && b == Const(NullLiteral))))
      || (f in {"creator", "visibility"} && equality && (IsText(b) || b == Const(NullLiteral)))
      || (f == "creator_id" && equality && (IsNumber(b) || b == Const(NullLiteral)))
      || (f in {"pinned", "has_task_list", "has_link", "has_code", "has_incomplete_tasks"} && equality && IsFlag(b))
  {
    hide Accepted, IsNumber, IsText, IsFlag;
    ComparisonCompiles(MEMO_FIELDS, d, now, fn, Ident(f), b);
  }

  /** The flags of a memo stand by themselves, its content may be searched, and its tags may be counted and tested. */
  lemma MemoTests(d: Dialect, now: int, fn: string, f: string, v: string, i: Expr, accu: string, x: string, p: Expr)
    requires IsComparison(fn) && IsNumber(i)
    ensures Accepted(MEMO_FIELDS, d, now, Ident(f)) <==>
      f in {"pinned", "has_task_list", "has_link", "has_code", "has_incomplete_tasks"}
    ensures Accepted(MEMO_FIELDS, d, now, Call("contains", Some(Ident(f)), [Const(Text(v))])) <==> f == "content"
    ensures Accepted(MEMO_FIELDS, d, now, Calling(fn, [Calling("size", [Ident(f)]), i])) <==> f == "tags"
    ensures Accepted(MEMO_FIELDS, d, now, Calling("@in", [Const(Text(v)), Ident(f)])) <==> f == "tags"
    ensures Accepted(MEMO_FIELDS, d, now, Expand(ExistsMacro, accu, Ident(f), x, p)) <==> f == "tags" && TestForm(x, p)
  {
    hide Accepted, IsNumber, TestForm;
    CompilesExactly(MEMO_FIELDS, d, now, Ident(f));
    CompilesExactly(MEMO_FIELDS, d, now, Call("contains", Some(Ident(f)), [Const(Text(v))]));
    ComparisonCompiles(MEMO_FIELDS, d, now, fn, Calling("size", [Ident(f)]), i);
    MembershipCompiles(MEMO_FIELDS, d, now, Const(Text(v)), Ident(f));
    MacrosCompile(MEMO_FIELDS, d, now, ExistsMacro, accu, Ident(f), x, p);
  }

  /** Lists of constants: texts for the tags, the content, the creator and the visibility, numbers for the creator's
      id; the times are only looked for in an empty list. */
  lemma MemoLists(d: Dialect, now: int, f: string, es: seq<Expr>)
    ensures Accepted(MEMO_FIELDS, d, now, Calling("@in", [Ident(f), ListOf(es)])) <==>
      || (f in {"tag", "content", "creator", "visibility"} && forall x | x in es :: IsText(x))
      || (f == "creator_id" && forall x | x in es :: IsNumber(x))
      || (f in {"created_ts", "updated_ts"} && es == [])
  {
    hide Accepted, IsNumber, IsText;
    MembershipCompiles(MEMO_FIELDS, d, now, Ident(f), ListOf(es));
    assert es != [] ==> es[0] in es;
  }

  /** What may be said of an attachment. */
  lemma AttachmentFilters(d: Dialect, now: int, fn: string, f: string, b: Expr, v: string)
    requires IsComparison(fn)
    ensures Accepted(ATTACHMENT_FIELDS, d, now, Calling(fn, [Ident(f), b])) <==>
      var equality := fn == "_==_" || fn == "_!=_";
      || (f in {"filename", "mime_type"} && (IsText(b) || (equality && b == Const(NullLiteral))))
      || (f == "create_time" && (IsNumber(b) || (equality && b == Const(NullLiteral))))
      || (f == "memo_id" && equality && (IsNumber(b) || b == Const(NullLiteral)))
    ensures Accepted(ATTACHMENT_FIELDS, d, now, Call("contains", Some(Ident(f)), [Const(Text(v))])) <==> f == "filename"
    ensures !Accepted(ATTACHMENT_FIELDS, d, now, Ident(f))
  {
    hide Accepted, IsNumber;
    ComparisonCompiles(ATTACHMENT_FIELDS, d, now, fn, Ident(f), b);
    CompilesExactly(ATTACHMENT_FIELDS, d, now, Call("contains", Some(Ident(f)), [Const(Text(v))]));
    CompilesExactly(ATTACHMENT_FIELDS, d, now, Ident(f));
  }
}
