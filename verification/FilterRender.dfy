/** Rendering condition trees to SQL text with constant folding, and what the text means. */
module FilterRender {
  import opened FilterIr
  import opened FilterSql
  import opened FilterTags
  import opened Texts

  // ----- Results and folding -----

  datatype Rendered<P> = Rendered(sql: seq<Token<P>>, trivial: bool, unsatisfiable: bool)

  function Plainly<P>(ts: seq<Token<P>>): Rendered<P> { Rendered(ts, false, false) }

  function Truly<P>(): Rendered<P> { Rendered([], true, false) }

  function Falsely<P>(): Rendered<P> { Rendered([Atom(Falsehood, [])], false, true) }

  function CombineAnd<P>(l: Rendered<P>, r: Rendered<P>): Rendered<P> {
    if l.unsatisfiable || r.unsatisfiable then Falsely()
    else if l.trivial then r
    else if r.trivial then l
    else Plainly(Conjunction(l.sql, r.sql))
  }

  function CombineOr<P>(l: Rendered<P>, r: Rendered<P>): Rendered<P> {
    if l.trivial || r.trivial then Truly()
    else if l.unsatisfiable then r
    else if r.unsatisfiable then l
    else Plainly(Disjunction(l.sql, r.sql))
  }

  function Combine<P>(connective: Connective, l: Rendered<P>, r: Rendered<P>): Rendered<P> {
    if connective == AndOf then CombineAnd(l, r) else CombineOr(l, r)
  }

  function CombineNot<P>(child: Rendered<P>): Rendered<P> {
    if child.trivial then Falsely()
    else if child.unsatisfiable then Truly()
    else Plainly(Negated(child.sql))
  }

  // ----- The text of one leaf, with values in the place of parameters -----

  function LikeTest(f: string, pattern: string): Token<Value> { Atom(ListLike(f), [Str(pattern)]) }

  /** A list holds a string: by LIKE on its text, or by the JSON operator of the database. */
  function HasTest(byText: bool, f: string, v: string): Token<Value> {
    if byText then LikeTest(f, Pattern(Whole, v)) else Atom(ListHas(f), [Str(Quoted(v))])
  }

  /** A tag or anything below it in the hierarchy. */
  function TagTest(d: Dialect, f: string, v: string): seq<Token<Value>> {
    Disjunction([HasTest(d == SQLite, f, v)], [LikeTest(f, Pattern(AtStart, v + "/"))])
  }

  function TagTests(d: Dialect, f: string, vs: seq<string>): seq<seq<Token<Value>>> {
    seq(|vs|, i requires 0 <= i < |vs| => TagTest(d, f, vs[i]))
  }

  function TagListText(d: Dialect, f: string, vs: seq<string>): seq<Token<Value>> {
    if |vs| == 1 then TagTest(d, f, vs[0]) else InParens(Joined(OrWord, TagTests(d, f, vs)))
  }

  /** The test of an `exists`, guarded against missing and empty lists. */
  function ExistsText(d: Dialect, f: string, p: Predicate): seq<Token<Value>> {
    WithNullCheck(f, TestText(d, f, p))
  }

  function WithNullCheck<P>(f: string, test: seq<Token<P>>): seq<Token<P>> {
    Conjunction3(test, [Atom(ListPresent(f), [])], [Atom(ListNotEmpty(f), [])])
  }

  function TestText(d: Dialect, f: string, p: Predicate): seq<Token<Value>> {
    match p
    case Equals(v) => [HasTest(d != Postgres, f, v)]
    case HasPrefix(v) => Disjunction([HasTest(d != Postgres, f, v)], [LikeTest(f, Pattern(AtStart, v))])
    case HasSuffix(v) => [LikeTest(f, Pattern(AtEnd, v))]
    case HasPart(v) => [LikeTest(f, Pattern(Anywhere, v))]
  }

  function BoolArg(d: Dialect, b: bool): Value {
    if d == SQLite then Int(if b then 1 else 0) else Bool(b)
  }

  function ComparisonText(s: Schema, d: Dialect, f: string, op: Operator, right: ValueExpr): Option<seq<Token<Value>>> {
    if f !in s then None
    else match s[f].kind
      case BoolColumn =>
        if BoolOf(right).None? then None else Some([Atom(Compare(f, op), [BoolArg(d, BoolOf(right).value)])])
      case JsonBool =>
        if BoolOf(right).None? || (d == SQLite && op != Eq && op != Neq) then None
        else
          var b := BoolOf(right).value;
          Some([Atom(JsonCompare(f, op, b), if d == Postgres then [Bool(b)] else [])])
      case Scalar =>
        if !right.LiteralValue? then None
        else if right.lit.NullLiteral? then
          if op == Eq then Some([Atom(IsNull(f), [])])
          else if op == Neq then Some([Atom(IsNotNull(f), [])])
          else None
        else
          var v := ScalarValue(s[f].fieldType, right);
          if v.None? then None else Some([Atom(Compare(f, op), [v.value])])
      case _ => None
  }

  function SizeText(s: Schema, fn: string, args: seq<ValueExpr>, op: Operator,
                    right: ValueExpr): Option<seq<Token<Value>>> {
    if fn == "size" && |args| == 1 && args[0].FieldRef? && HasKind(s, args[0].name, JsonList) && IntOf(right).Some?
    then Some([Atom(ListCount(args[0].name, op), [Int(IntOf(right).value)])])
    else None
  }

  function InText(s: Schema, d: Dialect, f: string, values: seq<ValueExpr>): Option<seq<Token<Value>>> {
    if f == "tag" then
      if ResolveAlias(s, "tag").None? || TextsOf(values).None? then None
      else Some(TagListText(d, ResolveAlias(s, "tag").value.name, TextsOf(values).value))
    else if !HasKind(s, f, Scalar) || ScalarValues(s[f].fieldType, values).None? then None
    else Some([Atom(InList(f), ScalarValues(s[f].fieldType, values).value)])
  }

  /** The text of a leaf, or nothing if the leaf does not fit the schema. */
  function LeafText(s: Schema, d: Dialect, c: Condition): Option<seq<Token<Value>>>
    requires c.IsLeaf()
  {
    match c
    case FieldPredicate(f) =>
      if HasKind(s, f, BoolColumn) then Some([Atom(IsTrue(f), [])])
      else if HasKind(s, f, JsonBool) then Some([Atom(JsonTrue(f), [])])
      else None
    case Comparison(FieldRef(f), op, right) => ComparisonText(s, d, f, op, right)
    case Comparison(FunctionValue(fn, args), op, right) => SizeText(s, fn, args, op, right)
    case In(FieldRef(f), values) => InText(s, d, f, values)
    case ElementIn(e, f) =>
      if HasKind(s, f, JsonList) && TextOf(e).Some? then Some([HasTest(d == SQLite, f, TextOf(e).value)]) else None
    case Contains(f, v) => if f in s then Some([Atom(TextLike(f), [Str(Pattern(Anywhere, v))])]) else None
    case Exists(f, p) => if HasKind(s, f, JsonList) then Some(ExistsText(d, f, p)) else None
    case _ => None
  }

  // ----- A whole tree -----

  predicate Renderable(s: Schema, d: Dialect, c: Condition) {
    match c
    case Logical(_, a, b) => Renderable(s, d, a) && Renderable(s, d, b)
    case NotOf(a) => Renderable(s, d, a)
    case Constant(_) => true
    case _ => LeafText(s, d, c).Some?
  }

  /** The text of a tree with each value where it belongs. */
  function Ideal(s: Schema, d: Dialect, c: Condition): Rendered<Value>
    requires Renderable(s, d, c)
  {
    match c
    case Logical(op, a, b) => Combine(op, Ideal(s, d, a), Ideal(s, d, b))
    case NotOf(a) => CombineNot(Ideal(s, d, a))
    case Constant(b) => if b then Truly() else Falsely()
    case _ => Plainly(LeafText(s, d, c).value)
  }

  // ----- Which texts can be read -----

  /** A leaf whose text cannot be read: a search in an empty list. */
  predicate LeafBreaks(d: Dialect, c: Condition)
    requires c.IsLeaf()
  {
    c.In? && c.values == [] && c.element.FieldRef? && (c.element.name == "tag" || d != SQLite)
  }

  /** Such a leaf survives folding. */
  predicate Breaks(d: Dialect, c: Condition) {
    FoldOf(c) == Depends &&
    match c
    case Logical(_, a, b) => Breaks(d, a) || Breaks(d, b)
    case NotOf(a) => Breaks(d, a)
    case Constant(_) => false
    case _ => LeafBreaks(d, c)
  }

  // ----- Leaves: the text finds what it is written to find -----

  lemma QuotedInjective(s: string, t: string)
    ensures Quoted(s) == Quoted(t) <==> s == t
  {
    assert Quoted(s)[1..|s| + 1] == s && Quoted(t)[1..|t| + 1] == t;
  }

  /** A membership test, by text or by the JSON operator. */
  lemma HasTestFinds(g: Engine, r: Row, byText: bool, f: string, v: string)
    ensures var test := HasTest(byText, f, v);
      EvalAtom(g, r, test.kind, test.params) ==
        if r.list(f).None? then Unknown else TruthOf(FindsMember(g, byText, r.list(f).value, v))
  {
    hide Like, Json, Quoted, Pattern;
    if r.list(f).Some? && !byText {
      forall t | t in r.list(f).value
        ensures Quoted(t) == Quoted(v) <==> t == v
      {
        QuotedInjective(t, v);
      }
    }
  }

  lemma TagTestFinds(g: Engine, d: Dialect, r: Row, f: string, v: string) returns (e: Sql<Value>)
    ensures Unit(d, TagTest(d, f, v), e)
    ensures Eval(g, r, e) == if r.list(f).None? then Unknown else TruthOf(FindsListed(g, d, r.list(f).value, v))
  {
    hide Like, Json, Quoted, Unit, Pattern;
    var a, b := HasTest(d == SQLite, f, v), LikeTest(f, Pattern(AtStart, v + "/"));
    UnitAtom(d, a.kind, a.params);
    UnitAtom(d, b.kind, b.params);
    var ea, eb := Leaf(a.kind, a.params), Leaf(b.kind, b.params);
    e := Either(ea, eb);
    UnitDisjunction(d, [a], ea, [b], eb);
    HasTestFinds(g, r, d == SQLite, f, v);
  }

  /** The value of a chain of alternatives: unknown if all are, else true exactly if one is. */
  lemma {:induction false} EvalEitherOf(g: Engine, r: Row, es: seq<Sql<Value>>)
    requires es != []
    ensures (forall x | x in es :: Eval(g, r, x).Unknown?) ==> Eval(g, r, EitherOf(es)).Unknown?
    ensures (forall x | x in es :: !Eval(g, r, x).Unknown?) ==>
      Eval(g, r, EitherOf(es)) == TruthOf(exists x :: x in es && Eval(g, r, x).True?)
  {
    var n := |es| - 1;
    if n > 0 {
      EvalEitherOf(g, r, es[..n]);
      assert Eval(g, r, EitherOf(es)) == Or(Eval(g, r, EitherOf(es[..n])), Eval(g, r, es[n]));
      assert forall x :: x in es <==> x in es[..n] || x == es[n];
    }
  }

  lemma {:induction false} TagTestsFind(g: Engine, d: Dialect, r: Row, f: string, vs: seq<string>)
    returns (es: seq<Sql<Value>>)
    ensures |es| == |vs|
    ensures forall i | 0 <= i < |vs| :: Unit(d, TagTest(d, f, vs[i]), es[i])
    ensures forall i | 0 <= i < |vs| ::
      Eval(g, r, es[i]) == if r.list(f).None? then Unknown else TruthOf(FindsListed(g, d, r.list(f).value, vs[i]))
  {
    hide Unit, FindsListed, Eval, TagTest;
    es := [];
    if vs != [] {
      var e := TagTestFinds(g, d, r, f, vs[0]);
      var rest := TagTestsFind(g, d, r, f, vs[1..]);
      es := [e] + rest;
    }
  }

  lemma TagListFinds(g: Engine, d: Dialect, r: Row, f: string, vs: seq<string>) returns (e: Sql<Value>)
    requires vs != []
    ensures Unit(d, TagListText(d, f, vs), e)
    ensures Eval(g, r, e) ==
      if r.list(f).None? then Unknown
      else TruthOf(exists v :: v in vs && FindsListed(g, d, r.list(f).value, v))
  {
    hide Unit, FindsListed, Eval, TagTest;
    var es := TagTestsFind(g, d, r, f, vs);
    e := EitherOf(es);
    EvalEitherOf(g, r, es);
    AnyOf(g, d, r, f, vs, es);
    if |vs| > 1 {
      UnitJoined(d, TagTests(d, f, vs), es);
    }
  }

  lemma AnyOf(g: Engine, d: Dialect, r: Row, f: string, vs: seq<string>, es: seq<Sql<Value>>)
    requires |es| == |vs|
    requires forall i | 0 <= i < |vs| ::
      Eval(g, r, es[i]) == if r.list(f).None? then Unknown else TruthOf(FindsListed(g, d, r.list(f).value, vs[i]))
    ensures forall x | x in es :: Eval(g, r, x).Unknown? <==> r.list(f).None?
    ensures r.list(f).Some? ==>
      ((exists x :: x in es && Eval(g, r, x).True?) <==> exists v :: v in vs && FindsListed(g, d, r.list(f).value, v))
  {
    hide Eval, FindsListed;
    if r.list(f).Some? {
      if v :| v in vs && FindsListed(g, d, r.list(f).value, v) {
        var i :| 0 <= i < |vs| && vs[i] == v;
        assert es[i] in es && Eval(g, r, es[i]).True?;
      }
    }
  }

  lemma TestFinds(g: Engine, d: Dialect, r: Row, f: string, p: Predicate) returns (e: Sql<Value>)
    ensures Unit(d, TestText(d, f, p), e)
    ensures Eval(g, r, e) == if r.list(f).None? then Unknown else TruthOf(FindsTag(g, d, p, r.list(f).value))
  {
    hide Like, Json, Quoted, Unit, Pattern;
    HasTestFinds(g, r, d != Postgres, f, p.v);
    if p.HasPrefix? {
      var a, b := HasTest(d != Postgres, f, p.v), LikeTest(f, Pattern(AtStart, p.v));
      UnitAtom(d, a.kind, a.params);
      UnitAtom(d, b.kind, b.params);
      var ea, eb := Leaf(a.kind, a.params), Leaf(b.kind, b.params);
      UnitDisjunction(d, [a], ea, [b], eb);
      e := Either(ea, eb);
    } else {
      var a := TestText(d, f, p)[0];
      UnitAtom(d, a.kind, a.params);
      e := Leaf(a.kind, a.params);
      assert TestText(d, f, p) == [Atom(a.kind, a.params)];
    }
  }

  lemma EmptyText(tags: seq<string>, sep: string)
    ensures Json(tags, sep) == "[]" <==> tags == []
  {
    if tags != [] {
      assert Members(tags, sep)[0] == '"';
      assert Json(tags, sep)[1] == '"';
    }
  }

  /** An `exists` is true or false on every row, rows whose list is missing or empty included. */
  lemma ExistsFinds(g: Engine, d: Dialect, r: Row, f: string, p: Predicate) returns (e: Sql<Value>)
    ensures Unit(d, ExistsText(d, f, p), e)
    ensures Eval(g, r, e) ==
      TruthOf(r.list(f).Some? && r.list(f).value != [] && FindsTag(g, d, p, r.list(f).value))
  {
    hide Json, Unit, TestText, FindsTag;
    var test := TestFinds(g, d, r, f, p);
    var present: Sql<Value>, filled: Sql<Value> := Leaf(ListPresent(f), []), Leaf(ListNotEmpty(f), []);
    UnitAtom<Value>(d, ListPresent(f), []);
    UnitAtom<Value>(d, ListNotEmpty(f), []);
    UnitConjunction3(d, TestText(d, f, p), test, [Atom(ListPresent(f), [])], present, [Atom(ListNotEmpty(f), [])],
                     filled);
    e := Both(Both(test, present), filled);
    assert Eval(g, r, Both(test, present)) == And(Eval(g, r, test), TruthOf(r.list(f).Some?));
    if r.list(f).Some? {
      EmptyText(r.list(f).value, g.separator);
    }
  }

  /** The text of a leaf is read as one operand with the value that its tests find, or cannot be read exactly if it
      searches an empty list. */
  lemma LeafMeaning(g: Engine, d: Dialect, s: Schema, r: Row, c: Condition) returns (e: Sql<Value>)
    requires c.IsLeaf() && LeafText(s, d, c).Some?
    ensures LeafBreaks(d, c) ==> Broken(d, LeafText(s, d, c).value)
    ensures !LeafBreaks(d, c) ==> Unit(d, LeafText(s, d, c).value, e) && Eval(g, r, e) == LeafFinds(g, d, s, r, c)
  {
    hide Unit, Broken, Like, Json, Quoted, Pattern, FindsTag, FindsMember, TagListText, ExistsText, FindsListed;
    if c.In? && c.element == FieldRef("tag") {
      e := TagInMeaning(g, d, s, r, c);
    } else if c.Exists? {
      e := ExistsFinds(g, d, r, c.field, c.test);
    } else {
      var t := AtomFinds(g, d, s, r, c);
      UnitAtom(d, t.kind, t.params);
      e := Leaf(t.kind, t.params);
    }
  }

  /** All other leaves are one atom. */
  lemma AtomFinds(g: Engine, d: Dialect, s: Schema, r: Row, c: Condition) returns (t: Token<Value>)
    requires c.IsLeaf() && LeafText(s, d, c).Some? && !c.Exists? && !(c.In? && c.element == FieldRef("tag"))
    ensures t.Atom? && LeafText(s, d, c).value == [Atom(t.kind, t.params)]
    ensures WellFormedAtom(d, t.kind, t.params) <==> !LeafBreaks(d, c)
    ensures EvalAtom(g, r, t.kind, t.params) == LeafFinds(g, d, s, r, c)
  {
    hide Like, Json, Quoted, Pattern, FindsTag, FindsMember, AnyEqual, ComparisonText, SizeText, CompareValues;
    if c.ElementIn? {
      HasTestFinds(g, r, d == SQLite, c.field, TextOf(c.element).value);
    } else if c.Comparison? {
      ComparisonFinds(g, d, s, r, c);
    }
    t := LeafText(s, d, c).value[0];
    assert LeafText(s, d, c).value == [t];
  }

  /** One atom that is read as it stands and has the value given. */
  ghost predicate AtomIs(g: Engine, d: Dialect, r: Row, ts: seq<Token<Value>>, value: Truth) {
    && |ts| == 1 && ts[0].Atom? && WellFormedAtom(d, ts[0].kind, ts[0].params)
    && EvalAtom(g, r, ts[0].kind, ts[0].params) == value
  }

  lemma ComparisonFinds(g: Engine, d: Dialect, s: Schema, r: Row, c: Condition)
    requires c.Comparison? && LeafText(s, d, c).Some?
    ensures AtomIs(g, d, r, LeafText(s, d, c).value, LeafFinds(g, d, s, r, c))
  {
    hide AtomIs, CompareValues, ComparisonText, SizeText;
    if c.lhs.FieldRef? {
      if HasKind(s, c.lhs.name, Scalar) {
        ScalarFinds(g, d, s, r, c.lhs.name, c.op, c.rhs);
      } else {
        BoolFinds(g, d, s, r, c.lhs.name, c.op, c.rhs);
      }
    } else {
      SizeFinds(g, d, s, r, c.lhs, c.op, c.rhs);
    }
  }

  lemma ScalarFinds(g: Engine, d: Dialect, s: Schema, r: Row, f: string, op: Operator, rhs: ValueExpr)
    requires HasKind(s, f, Scalar) && ComparisonText(s, d, f, op, rhs).Some?
    ensures AtomIs(g, d, r, ComparisonText(s, d, f, op, rhs).value,
                   LeafFinds(g, d, s, r, Comparison(FieldRef(f), op, rhs)))
  {
    hide CompareValues;
  }

  lemma BoolFinds(g: Engine, d: Dialect, s: Schema, r: Row, f: string, op: Operator, rhs: ValueExpr)
    requires !HasKind(s, f, Scalar) && ComparisonText(s, d, f, op, rhs).Some?
    ensures AtomIs(g, d, r, ComparisonText(s, d, f, op, rhs).value,
                   LeafFinds(g, d, s, r, Comparison(FieldRef(f), op, rhs)))
  {
  }

  lemma SizeFinds(g: Engine, d: Dialect, s: Schema, r: Row, lhs: ValueExpr, op: Operator, rhs: ValueExpr)
    requires lhs.FunctionValue? && SizeText(s, lhs.fn, lhs.args, op, rhs).Some?
    ensures AtomIs(g, d, r, SizeText(s, lhs.fn, lhs.args, op, rhs).value,
                   LeafFinds(g, d, s, r, Comparison(lhs, op, rhs)))
  {
  }

  lemma TagInMeaning(g: Engine, d: Dialect, s: Schema, r: Row, c: Condition) returns (e: Sql<Value>)
    requires c.In? && c.element == FieldRef("tag") && LeafText(s, d, c).Some?
    ensures LeafBreaks(d, c) ==> Broken(d, LeafText(s, d, c).value)
    ensures !LeafBreaks(d, c) ==> Unit(d, LeafText(s, d, c).value, e) && Eval(g, r, e) == LeafFinds(g, d, s, r, c)
  {
    hide Unit, Broken, FindsListed, Eval, TagTest;
    var f, vs := ResolveAlias(s, "tag").value.name, TextsOf(c.values).value;
    if vs == [] {
      assert TagTests(d, f, vs) == [];
      BrokenEmpty<Value>(d);
      e := Leaf(Falsehood, []);
    } else {
      e := TagListFinds(g, d, r, f, vs);
    }
  }

  // ----- Trees -----

  /** How the text of a tree relates to the tree, if `e` is what the text is read as. */
  ghost predicate Means(g: Engine, d: Dialect, s: Schema, r: Row, c: Condition, e: Sql<Value>) {
    Renderable(s, d, c) &&
    var t := Ideal(s, d, c);
    match FoldOf(c)
    case Always => t == Truly()
    case Never => t == Falsely()
    case Depends =>
      && !t.trivial && !t.unsatisfiable
      && (if Breaks(d, c) then Broken(d, t.sql) else Unit(d, t.sql, e) && Eval(g, r, e) == TreeFinds(g, d, s, r, c))
  }

  /** The rendered text of a tree: nothing or `1 = 0` where the constants decide, else a text that is read as a
      condition with the value that the tests of the tree find, or one that cannot be read where an empty list
      survives. */
  lemma {:induction false} TreeMeaning(g: Engine, d: Dialect, s: Schema, r: Row, c: Condition) returns (e: Sql<Value>)
    requires Renderable(s, d, c)
    ensures Means(g, d, s, r, c, e)
  {
    hide Unit, Broken, LeafText, LeafTruth, LeafFinds, LeafBreaks, EvalAtom;
    FoldIsTruth(g, d, s, r, c);
    match c
    case Logical(op, a, b) =>
      var ea := TreeMeaning(g, d, s, r, a);
      var eb := TreeMeaning(g, d, s, r, b);
      e := CombineMeaning(g, d, s, r, c, ea, eb);
    case NotOf(a) =>
      var ea := TreeMeaning(g, d, s, r, a);
      e := Negation(ea);
      var t := Ideal(s, d, a).sql;
      if FoldOf(a) == Depends {
        UnitNegated(d, t, ea);
      }
    case Constant(b) => e := Leaf(Falsehood, []);
    case _ => e := LeafMeaning(g, d, s, r, c);
  }

  lemma CombineMeaning(g: Engine, d: Dialect, s: Schema, r: Row, c: Condition, ea: Sql<Value>, eb: Sql<Value>)
    returns (e: Sql<Value>)
    requires c.Logical? && Renderable(s, d, c)
    requires Means(g, d, s, r, c.left, ea) && Means(g, d, s, r, c.right, eb)
    ensures Means(g, d, s, r, c, e)
  {
    if FoldOf(c.left) == Depends && FoldOf(c.right) == Depends {
      e := OpenMeaning(g, d, s, r, c, ea, eb);
    } else {
      e := if FoldOf(c.left) == Depends then ea else eb;
      FoldedMeaning(g, d, s, r, c, ea, eb);
    }
  }

  /** Neither operand folds: the text joins their texts. */
  lemma OpenMeaning(g: Engine, d: Dialect, s: Schema, r: Row, c: Condition, ea: Sql<Value>, eb: Sql<Value>)
    returns (e: Sql<Value>)
    requires c.Logical? && Renderable(s, d, c) && FoldOf(c.left) == Depends && FoldOf(c.right) == Depends
    requires Means(g, d, s, r, c.left, ea) && Means(g, d, s, r, c.right, eb)
    ensures Means(g, d, s, r, c, e)
  {
    hide Unit, Broken, LeafText, LeafTruth, LeafFinds, LeafBreaks, EvalAtom;
    var a, b := c.left, c.right;
    var ta, tb := Ideal(s, d, a).sql, Ideal(s, d, b).sql;
    assert FoldOf(c) == Depends;
    if Breaks(d, a) || Breaks(d, b) {
      BrokenJunction(d, ta, ea, tb);
      e := ea;
    } else {
      UnitConjunction(d, ta, ea, tb, eb);
      UnitDisjunction(d, ta, ea, tb, eb);
      e := if c.connective == AndOf then Both(ea, eb) else Either(ea, eb);
    }
  }

  /** An operand folds: the text is a constant or that of the other operand, and so is the value. */
  lemma FoldedMeaning(g: Engine, d: Dialect, s: Schema, r: Row, c: Condition, ea: Sql<Value>, eb: Sql<Value>)
    requires c.Logical? && Renderable(s, d, c) && !(FoldOf(c.left) == Depends && FoldOf(c.right) == Depends)
    requires Means(g, d, s, r, c.left, ea) && Means(g, d, s, r, c.right, eb)
    ensures Means(g, d, s, r, c, if FoldOf(c.left) == Depends then ea else eb)
  {
    hide Unit, Broken, LeafText, LeafTruth, LeafFinds, LeafBreaks, Eval;
    var a, b := c.left, c.right;
    FoldIsTruth(g, d, s, r, a);
    FoldIsTruth(g, d, s, r, b);
    NoBreak(d, a);
    NoBreak(d, b);
    if FoldOf(c) == Depends {
      var open := if FoldOf(a) == Depends then a else b;
      assert Ideal(s, d, c) == Ideal(s, d, open);
      assert Breaks(d, c) <==> Breaks(d, open);
      assert TreeFinds(g, d, s, r, c) == TreeFinds(g, d, s, r, open);
    }
  }

  lemma NoBreak(d: Dialect, c: Condition)
    ensures FoldOf(c) != Depends ==> !Breaks(d, c)
  {
  }
}
