/** Placeholders and arguments: the renderer's state, and what each placeholder denotes. */
module FilterArgs {
  import opened FilterIr
  import opened FilterRender
  import opened FilterSql
  import opened FilterTags
  import opened Texts

  datatype Placeholder = Question | Dollar(number: nat)

  /** The placeholder of the argument with index `i` among those of a statement. */
  function Place(d: Dialect, offset: nat, i: nat): Placeholder {
    if d == Postgres then Dollar(offset + i + 1) else Question
  }

  // ----- Parameters of a text -----

  function ParamsOf(t: Token<Value>): seq<Value> { if t.Atom? then t.params else [] }

  function Params(ts: seq<Token<Value>>): seq<Value> {
    if ts == [] then [] else ParamsOf(ts[0]) + Params(ts[1..])
  }

  lemma ParamsStep(ts: seq<Token<Value>>)
    requires ts != []
    ensures Params(ts) == ParamsOf(ts[0]) + Params(ts[1..])
    ensures |Params(ts)| == |ParamsOf(ts[0])| + |Params(ts[1..])|
    ensures Params(ts)[..|ParamsOf(ts[0])|] == ParamsOf(ts[0]) && Params(ts)[|ParamsOf(ts[0])|..] == Params(ts[1..])
  {
  }

  lemma {:induction false} ParamsConcat(a: seq<Token<Value>>, b: seq<Token<Value>>)
    ensures Params(a + b) == Params(a) + Params(b)
  {
    if a == [] {
      assert a + b == b;
    } else {
      hide ParamsOf, Params;
      Peel(a, b);
      ParamsStep(a);
      ParamsStep(a + b);
      ParamsConcat(a[1..], b);
      Associates(ParamsOf(a[0]), Params(a[1..]), Params(b));
    }
  }

  function LabelToken(d: Dialect, offset: nat, n: nat, t: Token<Value>): Token<Placeholder> {
    match t
    case Atom(kind, params) => Atom(kind, seq(|params|, i requires 0 <= i < |params| => Place(d, offset, n + i)))
    case LeftParen => LeftParen
    case RightParen => RightParen
    case AndWord => AndWord
    case OrWord => OrWord
    case NotWord => NotWord
  }

  /** A text with its values taken out into arguments that start at index `n`. */
  function Label(d: Dialect, offset: nat, n: nat, ts: seq<Token<Value>>): seq<Token<Placeholder>>
    decreases |ts|
  {
    if ts == [] then []
    else [LabelToken(d, offset, n, ts[0])] + Label(d, offset, n + |ParamsOf(ts[0])|, ts[1..])
  }

  lemma LabelStep(d: Dialect, offset: nat, n: nat, ts: seq<Token<Value>>)
    requires ts != []
    ensures Label(d, offset, n, ts) ==
      [LabelToken(d, offset, n, ts[0])] + Label(d, offset, n + |ParamsOf(ts[0])|, ts[1..])
  {
  }

  lemma {:induction false} LabelConcat(d: Dialect, offset: nat, n: nat, a: seq<Token<Value>>, b: seq<Token<Value>>)
    ensures Label(d, offset, n, a + b) == Label(d, offset, n, a) + Label(d, offset, n + |Params(a)|, b)
    decreases |a|
  {
    if a == [] {
      assert a + b == b;
    } else {
      hide ParamsOf, Params, LabelToken, Label;
      var m := n + |ParamsOf(a[0])|;
      Peel(a, b);
      ParamsStep(a);
      LabelStep(d, offset, n, a);
      LabelStep(d, offset, n, a + b);
      LabelConcat(d, offset, m, a[1..], b);
      Associates([LabelToken(d, offset, n, a[0])], Label(d, offset, m, a[1..]), Label(d, offset, n + |Params(a)|, b));
    }
  }

  // ----- The rendering of a tree -----

  /** Every argument that rendering pushes, folded away or not. */
  function ArgsOf(s: Schema, d: Dialect, c: Condition): seq<Value>
    requires Renderable(s, d, c)
  {
    match c
    case Logical(_, a, b) => ArgsOf(s, d, a) + ArgsOf(s, d, b)
    case NotOf(a) => ArgsOf(s, d, a)
    case Constant(_) => []
    case _ => Params(LeafText(s, d, c).value)
  }

  function Rendering(s: Schema, d: Dialect, offset: nat, n: nat, c: Condition): Rendered<Placeholder>
    requires Renderable(s, d, c)
    decreases c
  {
    match c
    case Logical(op, a, b) =>
      Combine(op, Rendering(s, d, offset, n, a), Rendering(s, d, offset, n + |ArgsOf(s, d, a)|, b))
    case NotOf(a) => CombineNot(Rendering(s, d, offset, n, a))
    case Constant(b) => if b then Truly() else Falsely()
    case _ => Plainly(Label(d, offset, n, LeafText(s, d, c).value))
  }

  datatype Statement = Statement(sql: seq<Token<Placeholder>>, args: seq<Value>)

  function FinalSql<P>(r: Rendered<P>): seq<Token<P>> {
    if r.unsatisfiable then [Atom(Falsehood, [])] else if r.trivial then [] else r.sql
  }

  function StatementOf(s: Schema, d: Dialect, offset: nat, c: Condition): Statement
    requires Renderable(s, d, c)
  {
    Statement(FinalSql(Rendering(s, d, offset, 0, c)), ArgsOf(s, d, c))
  }

  /** The flags of a rendering follow from the constants of the tree, whatever stands for parameters. */
  lemma {:induction false} Shapes(s: Schema, d: Dialect, offset: nat, n: nat, c: Condition)
    requires Renderable(s, d, c)
    ensures ShapeOf(FoldOf(c), Ideal(s, d, c)) && ShapeOf(FoldOf(c), Rendering(s, d, offset, n, c))
    decreases c
  {
    hide LeafText, Label, ShapeOf, Combine, CombineNot;
    match c
    case Logical(op, a, b) =>
      var m := n + |ArgsOf(s, d, a)|;
      Shapes(s, d, offset, n, a);
      Shapes(s, d, offset, m, b);
      ShapeOfCombine(op, a, b, Ideal(s, d, a), Ideal(s, d, b));
      ShapeOfCombine(op, a, b, Rendering(s, d, offset, n, a), Rendering(s, d, offset, m, b));
    case NotOf(a) =>
      Shapes(s, d, offset, n, a);
      ShapeOfNot(a, Ideal(s, d, a));
      ShapeOfNot(a, Rendering(s, d, offset, n, a));
    case _ =>
      ShapeOfLeaf(c, Ideal(s, d, c));
      ShapeOfLeaf(c, Rendering(s, d, offset, n, c));
  }

  lemma ShapeOfCombine<P>(op: Connective, a: Condition, b: Condition, l: Rendered<P>, r: Rendered<P>)
    requires ShapeOf(FoldOf(a), l) && ShapeOf(FoldOf(b), r)
    ensures ShapeOf(FoldOf(Logical(op, a, b)), Combine(op, l, r))
  {
  }

  lemma ShapeOfNot<P>(a: Condition, l: Rendered<P>)
    requires ShapeOf(FoldOf(a), l)
    ensures ShapeOf(FoldOf(NotOf(a)), CombineNot(l))
  {
  }

  lemma ShapeOfLeaf<P>(c: Condition, l: Rendered<P>)
    requires c.IsLeaf() || c.Constant?
    requires l == if c.Constant? then (if c.value then Truly() else Falsely()) else Plainly(l.sql)
    ensures ShapeOf(FoldOf(c), l)
  {
  }

  ghost predicate ShapeOf<P>(f: Fold, r: Rendered<P>) {
    match f
    case Always => r == Truly()
    case Never => r == Falsely()
    case Depends => !r.trivial && !r.unsatisfiable
  }

  // ----- Numbered placeholders -----

  ghost predicate TokenDenotes(t: Token<Placeholder>, v: Token<Value>, args: seq<Value>) {
    if t.Atom? && v.Atom? then
      && t.kind == v.kind && |t.params| == |v.params|
      && forall i | 0 <= i < |t.params| ::
           t.params[i].Dollar? && 1 <= t.params[i].number <= |args| && args[t.params[i].number - 1] == v.params[i]
    else
      || (t.LeftParen? && v.LeftParen?) || (t.RightParen? && v.RightParen?)
      || (t.AndWord? && v.AndWord?) || (t.OrWord? && v.OrWord?) || (t.NotWord? && v.NotWord?)
  }

  /** With `args` bound to `$1`, `$2` and so on, the text `ts` is the text `vs`. */
  ghost predicate Denotes(ts: seq<Token<Placeholder>>, vs: seq<Token<Value>>, args: seq<Value>) {
    |ts| == |vs| && forall i | 0 <= i < |ts| :: TokenDenotes(ts[i], vs[i], args)
  }

  /** `part` stands in `args` from index `at` on. */
  ghost predicate HoldsAt(args: seq<Value>, at: nat, part: seq<Value>) {
    at + |part| <= |args| && args[at..at + |part|] == part
  }

  lemma HoldsParts(args: seq<Value>, at: nat, a: seq<Value>, b: seq<Value>)
    requires HoldsAt(args, at, a + b)
    ensures HoldsAt(args, at, a) && HoldsAt(args, at + |a|, b)
  {
    var whole := args[at..at + |a + b|];
    assert args[at..at + |a|] == whole[..|a|] == a;
    assert args[at + |a|..at + |a| + |b|] == whole[|a|..] == b;
  }

  lemma LabelTokenDenotes(offset: nat, n: nat, t: Token<Value>, args: seq<Value>)
    requires HoldsAt(args, offset + n, ParamsOf(t))
    ensures TokenDenotes(LabelToken(Postgres, offset, n, t), t, args)
  {
    if t.Atom? {
      var part, l := args[offset + n..offset + n + |t.params|], LabelToken(Postgres, offset, n, t);
      forall i | 0 <= i < |t.params|
        ensures l.params[i] == Dollar(offset + n + i + 1) && args[offset + n + i] == t.params[i]
      {
        assert l.params[i] == Place(Postgres, offset, n + i);
        assert part[i] == args[offset + n + i];
      }
    }
  }

  lemma {:induction false} LabelDenotes(offset: nat, n: nat, ts: seq<Token<Value>>, args: seq<Value>)
    requires HoldsAt(args, offset + n, Params(ts))
    ensures Denotes(Label(Postgres, offset, n, ts), ts, args)
    decreases |ts|
  {
    hide TokenDenotes, LabelToken, HoldsAt, ParamsOf;
    if ts != [] {
      var k := |ParamsOf(ts[0])|;
      HoldsParts(args, offset + n, ParamsOf(ts[0]), Params(ts[1..]));
      LabelTokenDenotes(offset, n, ts[0], args);
      LabelDenotes(offset, n + k, ts[1..], args);
      var tail := Label(Postgres, offset, n + k, ts[1..]);
      assert Label(Postgres, offset, n, ts)[1..] == tail;
    }
  }

  /** Whatever is folded away, every `$k` that is left denotes the value it was rendered for. */
  lemma {:induction false} RenderingDenotes(s: Schema, offset: nat, n: nat, c: Condition, args: seq<Value>)
    requires Renderable(s, Postgres, c) && HoldsAt(args, offset + n, ArgsOf(s, Postgres, c))
    ensures Denotes(Rendering(s, Postgres, offset, n, c).sql, Ideal(s, Postgres, c).sql, args)
    decreases c
  {
    hide LeafText, Denotes, HoldsAt, Label, Combine, CombineNot;
    match c
    case Logical(op, a, b) =>
      var m := n + |ArgsOf(s, Postgres, a)|;
      HoldsParts(args, offset + n, ArgsOf(s, Postgres, a), ArgsOf(s, Postgres, b));
      RenderingDenotes(s, offset, n, a, args);
      RenderingDenotes(s, offset, m, b, args);
      Shapes(s, Postgres, offset, n, a);
      Shapes(s, Postgres, offset, m, b);
      CombineDenotes(op, Rendering(s, Postgres, offset, n, a), Rendering(s, Postgres, offset, m, b),
                     Ideal(s, Postgres, a), Ideal(s, Postgres, b), args);
    case NotOf(a) =>
      RenderingDenotes(s, offset, n, a, args);
      Shapes(s, Postgres, offset, n, a);
      NotDenotes(Rendering(s, Postgres, offset, n, a), Ideal(s, Postgres, a), args);
    case Constant(_) => FalsehoodDenotes(args);
    case _ => LabelDenotes(offset, n, LeafText(s, Postgres, c).value, args);
  }

  lemma WordsDenote(args: seq<Value>)
    ensures TokenDenotes(LeftParen, LeftParen, args) && TokenDenotes(RightParen, RightParen, args)
    ensures TokenDenotes(AndWord, AndWord, args) && TokenDenotes(OrWord, OrWord, args)
    ensures TokenDenotes(NotWord, NotWord, args) && TokenDenotes(Atom(Falsehood, []), Atom(Falsehood, []), args)
  {
  }

  lemma CombineDenotes(op: Connective, l: Rendered<Placeholder>, r: Rendered<Placeholder>, li: Rendered<Value>,
                       ri: Rendered<Value>, args: seq<Value>)
    requires Denotes(l.sql, li.sql, args) && Denotes(r.sql, ri.sql, args)
    requires l.trivial == li.trivial && l.unsatisfiable == li.unsatisfiable
    requires r.trivial == ri.trivial && r.unsatisfiable == ri.unsatisfiable
    ensures Denotes(Combine(op, l, r).sql, Combine(op, li, ri).sql, args)
  {
    hide TokenDenotes;
    WordsDenote(args);
  }

  lemma NotDenotes(l: Rendered<Placeholder>, li: Rendered<Value>, args: seq<Value>)
    requires Denotes(l.sql, li.sql, args) && l.trivial == li.trivial && l.unsatisfiable == li.unsatisfiable
    ensures Denotes(CombineNot(l).sql, CombineNot(li).sql, args)
  {
    hide TokenDenotes;
    WordsDenote(args);
  }

  lemma FalsehoodDenotes(args: seq<Value>)
    ensures Denotes([Atom(Falsehood, [])], [Atom(Falsehood, [])], args) && Denotes([], [], args)
  {
  }

  /** The Postgres statement of a tree at any offset, among any other arguments. */
  lemma NumberedStatement(s: Schema, c: Condition, before: seq<Value>, after: seq<Value>)
    requires Renderable(s, Postgres, c)
    ensures var st := StatementOf(s, Postgres, |before|, c);
      Denotes(st.sql, FinalSql(Ideal(s, Postgres, c)), before + st.args + after)
  {
    hide TokenDenotes;
    var st := StatementOf(s, Postgres, |before|, c);
    var all := before + st.args + after;
    assert HoldsAt(all, |before|, st.args);
    RenderingDenotes(s, |before|, 0, c, all);
    Shapes(s, Postgres, |before|, 0, c);
    WordsDenote(all);
  }

  // ----- Question marks -----

  function Marks(t: Token<Placeholder>): nat { if t.Atom? then |t.params| else 0 }

  function BindToken(t: Token<Placeholder>, values: seq<Value>): Token<Value> {
    match t
    case Atom(kind, _) => Atom(kind, values)
    case LeftParen => LeftParen
    case RightParen => RightParen
    case AndWord => AndWord
    case OrWord => OrWord
    case NotWord => NotWord
  }

  /** Binding the i-th mark to the i-th argument; there is no binding if their numbers differ. */
  function BindMarks(ts: seq<Token<Placeholder>>, args: seq<Value>): Option<seq<Token<Value>>> {
    if ts == [] then (if args == [] then Some([]) else None)
    else
      var k := Marks(ts[0]);
      if k > |args| then None
      else
        var tail := BindMarks(ts[1..], args[k..]);
        if tail.None? then None else Some([BindToken(ts[0], args[..k])] + tail.value)
  }

  function Erase(ts: seq<Token<Value>>): seq<Token<Placeholder>> { Label(SQLite, 0, 0, ts) }

  lemma TokenErases(d: Dialect, offset: nat, n: nat, m: nat, t: Token<Value>)
    requires d != Postgres
    ensures LabelToken(d, offset, n, t) == LabelToken(SQLite, 0, m, t)
  {
    if t.Atom? {
      var l, r := LabelToken(d, offset, n, t), LabelToken(SQLite, 0, m, t);
      forall i | 0 <= i < |t.params|
        ensures l.params[i] == r.params[i]
      {
        assert l.params[i] == Place(d, offset, n + i);
        assert r.params[i] == Place(SQLite, 0, m + i);
      }
      assert l.params == r.params;
    }
  }

  lemma {:induction false} LabelErases(d: Dialect, offset: nat, n: nat, m: nat, ts: seq<Token<Value>>)
    requires d != Postgres
    ensures Label(d, offset, n, ts) == Label(SQLite, 0, m, ts)
    decreases |ts|
  {
    if ts != [] {
      hide LabelToken, ParamsOf;
      var k := |ParamsOf(ts[0])|;
      TokenErases(d, offset, n, m, ts[0]);
      LabelErases(d, offset, n + k, m + k, ts[1..]);
    }
  }

  lemma LabelIsErased(d: Dialect, offset: nat, n: nat, ts: seq<Token<Value>>)
    requires d != Postgres
    ensures Label(d, offset, n, ts) == Erase(ts)
  {
    LabelErases(d, offset, n, 0, ts);
  }

  lemma EraseFalsehood()
    ensures Erase([Atom(Falsehood, [])]) == [Atom(Falsehood, [])] && Erase([]) == []
  {
    var t: Token<Value> := Atom(Falsehood, []);
    assert [t][1..] == [];
    assert LabelToken(SQLite, 0, 0, t) == Atom(Falsehood, []);
  }

  lemma EraseConcat(a: seq<Token<Value>>, b: seq<Token<Value>>)
    ensures Erase(a + b) == Erase(a) + Erase(b)
  {
    hide Label;
    LabelConcat(SQLite, 0, 0, a, b);
    LabelErases(SQLite, 0, |Params(a)|, 0, b);
  }

  lemma EraseStep(ts: seq<Token<Value>>)
    requires ts != []
    ensures Erase(ts) != [] && Erase(ts)[0] == LabelToken(SQLite, 0, 0, ts[0]) && Erase(ts)[1..] == Erase(ts[1..])
  {
    hide LabelToken;
    LabelErases(SQLite, 0, |ParamsOf(ts[0])|, 0, ts[1..]);
  }

  function MarkCount(ts: seq<Token<Placeholder>>): nat {
    if ts == [] then 0 else Marks(ts[0]) + MarkCount(ts[1..])
  }

  /** Marks can be bound exactly if there are as many arguments. */
  lemma {:induction false} BindCounts(ts: seq<Token<Placeholder>>, args: seq<Value>)
    ensures BindMarks(ts, args).Some? <==> |args| == MarkCount(ts)
  {
    if ts != [] {
      var k := Marks(ts[0]);
      if k <= |args| {
        BindCounts(ts[1..], args[k..]);
      }
    }
  }

  lemma {:induction false} ErasedCounts(ts: seq<Token<Value>>)
    ensures MarkCount(Erase(ts)) == |Params(ts)|
  {
    if ts == [] {
      EraseFalsehood();
    } else {
      hide Erase, LabelToken, ParamsOf, Params, Marks, BindToken;
      EraseStep(ts);
      BindLabelled(ts[0]);
      ParamsStep(ts);
      ErasedCounts(ts[1..]);
    }
  }

  /** Binding text by text. */
  lemma BindCons(ms: seq<Token<Placeholder>>, args: seq<Value>, ts: seq<Token<Value>>)
    requires ms != [] && ts != [] && Marks(ms[0]) <= |args| && BindToken(ms[0], args[..Marks(ms[0])]) == ts[0]
    requires BindMarks(ms[1..], args[Marks(ms[0])..]) == Some(ts[1..])
    ensures BindMarks(ms, args) == Some(ts)
  {
    hide Marks, BindToken;
    assert [ts[0]] + ts[1..] == ts;
  }

  lemma BindLabelled(t: Token<Value>)
    ensures var l := LabelToken(SQLite, 0, 0, t);
      Marks(l) == |ParamsOf(t)| && BindToken(l, ParamsOf(t)) == t
  {
  }

  lemma {:induction false} BindErased(ts: seq<Token<Value>>, args: seq<Value>)
    ensures BindMarks(Erase(ts), args).Some? <==> |args| == |Params(ts)|
    ensures args == Params(ts) ==> BindMarks(Erase(ts), args) == Some(ts)
    decreases |ts|
  {
    hide Erase, LabelToken, BindMarks, Marks, BindToken, ParamsOf, Params, MarkCount;
    BindCounts(Erase(ts), args);
    ErasedCounts(ts);
    if args == Params(ts) {
      BindOwn(ts);
    }
  }

  lemma {:induction false} BindOwn(ts: seq<Token<Value>>)
    ensures BindMarks(Erase(ts), Params(ts)) == Some(ts)
  {
    if ts == [] {
      EraseFalsehood();
    } else {
      hide Erase, LabelToken, BindMarks, Marks, BindToken, ParamsOf, Params;
      EraseStep(ts);
      BindLabelled(ts[0]);
      ParamsStep(ts);
      BindOwn(ts[1..]);
      BindCons(Erase(ts), Params(ts), ts);
    }
  }

  /** In the dialects with question marks, the text is the ideal text without its values. */
  lemma {:induction false} RenderingErases(s: Schema, d: Dialect, offset: nat, n: nat, c: Condition)
    requires Renderable(s, d, c) && d != Postgres
    ensures Rendering(s, d, offset, n, c).sql == Erase(Ideal(s, d, c).sql)
    decreases c
  {
    hide LeafText, Label, Combine, CombineNot, Erase;
    match c
    case Logical(op, a, b) =>
      var m := n + |ArgsOf(s, d, a)|;
      RenderingErases(s, d, offset, n, a);
      RenderingErases(s, d, offset, m, b);
      Shapes(s, d, offset, n, a);
      Shapes(s, d, offset, m, b);
      CombineErases(op, Rendering(s, d, offset, n, a), Rendering(s, d, offset, m, b), Ideal(s, d, a), Ideal(s, d, b));
    case NotOf(a) =>
      RenderingErases(s, d, offset, n, a);
      Shapes(s, d, offset, n, a);
      NotErases(Rendering(s, d, offset, n, a), Ideal(s, d, a));
    case Constant(_) => EraseFalsehood();
    case _ => LabelIsErased(d, offset, n, LeafText(s, d, c).value);
  }

  lemma CombineErases(op: Connective, l: Rendered<Placeholder>, r: Rendered<Placeholder>, li: Rendered<Value>,
                      ri: Rendered<Value>)
    requires l.sql == Erase(li.sql) && r.sql == Erase(ri.sql)
    requires l.trivial == li.trivial && l.unsatisfiable == li.unsatisfiable
    requires r.trivial == ri.trivial && r.unsatisfiable == ri.unsatisfiable
    ensures Combine(op, l, r).sql == Erase(Combine(op, li, ri).sql)
  {
    hide Erase, Conjunction, Disjunction;
    EraseFalsehood();
    JoinErases(li.sql, ri.sql);
  }

  lemma NotErases(l: Rendered<Placeholder>, li: Rendered<Value>)
    requires l.sql == Erase(li.sql) && l.trivial == li.trivial && l.unsatisfiable == li.unsatisfiable
    ensures CombineNot(l).sql == Erase(CombineNot(li).sql)
  {
    hide Erase, Negated;
    EraseFalsehood();
    NegatedErases(li.sql);
  }

  lemma ParensErase(a: seq<Token<Value>>)
    ensures Erase(InParens(a)) == InParens(Erase(a))
    ensures Params(InParens(a)) == Params(a)
  {
    var l, r: Token<Value> := LeftParen, RightParen;
    WordErases([], l, a);
    WordErases([l] + a, r, []);
    assert [] + [l] + a == [l] + a && [l] + a + [r] + [] == InParens(a);
    EraseFalsehood();
  }

  lemma NegatedErases(a: seq<Token<Value>>)
    ensures Erase(Negated(a)) == Negated(Erase(a))
    ensures Params(Negated(a)) == Params(a)
  {
    var w: Token<Value> := NotWord;
    ParensErase(a);
    WordErases([], w, InParens(a));
    assert [] + [w] + InParens(a) == Negated(a);
    EraseFalsehood();
  }

  lemma WordAlone(w: Token<Value>)
    requires !w.Atom?
    ensures Erase([w]) == [LabelToken(SQLite, 0, 0, w)] && Params([w]) == []
  {
    hide LabelToken;
    assert [w][0] == w && [w][1..] == [];
    LabelStep(SQLite, 0, 0, [w]);
    assert Label(SQLite, 0, 0, []) == [];
  }

  lemma WordErases(a: seq<Token<Value>>, w: Token<Value>, b: seq<Token<Value>>)
    requires !w.Atom?
    ensures Erase(a + [w] + b) == Erase(a) + [LabelToken(SQLite, 0, 0, w)] + Erase(b)
    ensures Params(a + [w] + b) == Params(a) + Params(b)
  {
    hide Erase, Params, LabelToken;
    EraseConcat(a + [w], b);
    EraseConcat(a, [w]);
    WordAlone(w);
    ParamsConcat(a + [w], b);
    ParamsConcat(a, [w]);
    assert Params(a) + [] == Params(a);
  }

  lemma JoinErases(a: seq<Token<Value>>, b: seq<Token<Value>>)
    ensures Erase(Conjunction(a, b)) == Conjunction(Erase(a), Erase(b))
    ensures Erase(Disjunction(a, b)) == Disjunction(Erase(a), Erase(b))
    ensures Params(Conjunction(a, b)) == Params(a) + Params(b) == Params(Disjunction(a, b))
  {
    hide Erase, Params;
    ParensErase(a + [AndWord] + b);
    ParensErase(a + [OrWord] + b);
    WordErases(a, AndWord, b);
    WordErases(a, OrWord, b);
  }

  /** Folding throws text with arguments away: an operand is decided by constants that make the other one irrelevant. */
  predicate Drops(s: Schema, d: Dialect, c: Condition)
    requires Renderable(s, d, c)
  {
    match c
    case Logical(op, a, b) =>
      var absorbing := if op == AndOf then Never else Always;
      if FoldOf(a) == absorbing || FoldOf(b) == absorbing then ArgsOf(s, d, a) + ArgsOf(s, d, b) != []
      else Drops(s, d, a) || Drops(s, d, b)
    case NotOf(a) => Drops(s, d, a)
    case _ => false
  }

  /** The arguments are the values of the text in their order, unless folding drops some: then there are too many. */
  lemma {:induction false} ArgsAreParams(s: Schema, d: Dialect, c: Condition)
    requires Renderable(s, d, c)
    ensures !Drops(s, d, c) ==> ArgsOf(s, d, c) == Params(Ideal(s, d, c).sql)
    ensures Drops(s, d, c) ==> |ArgsOf(s, d, c)| > |Params(Ideal(s, d, c).sql)|
  {
    hide LeafText, Params, Rendering, Combine, CombineNot;
    NoParams();
    match c
    case Logical(op, a, b) =>
      ArgsAreParams(s, d, a);
      ArgsAreParams(s, d, b);
      Shapes(s, d, 0, 0, a);
      Shapes(s, d, 0, 0, b);
      CombineParams(op, FoldOf(a), FoldOf(b), Ideal(s, d, a), Ideal(s, d, b));
    case NotOf(a) =>
      ArgsAreParams(s, d, a);
      Shapes(s, d, 0, 0, a);
      NotParams(FoldOf(a), Ideal(s, d, a));
    case _ =>
  }

  lemma CombineParams(op: Connective, f: Fold, g: Fold, l: Rendered<Value>, r: Rendered<Value>)
    requires ShapeOf(f, l) && ShapeOf(g, r)
    ensures var absorbing := if op == AndOf then Never else Always;
      Params(Combine(op, l, r).sql) == if f == absorbing || g == absorbing then [] else Params(l.sql) + Params(r.sql)
  {
    hide Params, Conjunction, Disjunction;
    NoParams();
    JoinErases(l.sql, r.sql);
  }

  lemma NotParams(f: Fold, l: Rendered<Value>)
    requires ShapeOf(f, l)
    ensures Params(CombineNot(l).sql) == Params(l.sql)
  {
    hide Params, Negated;
    NoParams();
    NegatedErases(l.sql);
  }

  lemma NoParams()
    ensures Params([]) == [] && Params([Atom(Falsehood, [])]) == []
  {
    var t: Token<Value> := Atom(Falsehood, []);
    assert [t][1..] == [];
  }

  /** In the dialects with question marks the i-th mark gets the value it was rendered for exactly if folding drops no
      argument; otherwise marks and arguments do not even agree in number. */
  lemma MarkedStatement(s: Schema, d: Dialect, offset: nat, c: Condition)
    requires Renderable(s, d, c) && d != Postgres
    ensures var st := StatementOf(s, d, offset, c);
      BindMarks(st.sql, st.args) == if Drops(s, d, c) then None else Some(FinalSql(Ideal(s, d, c)))
  {
    hide Ideal, Rendering, Drops, BindMarks, Erase, Params, ArgsOf;
    Shapes(s, d, offset, 0, c);
    RenderingErases(s, d, offset, 0, c);
    ArgsAreParams(s, d, c);
    BindErased(Ideal(s, d, c).sql, ArgsOf(s, d, c));
  }

  /** `content.contains("x") && false` keeps the argument of the text it drops. */
  lemma DroppedArgument(s: Schema, d: Dialect)
    requires "content" in s
    ensures var c := Logical(AndOf, Contains("content", "x"), Constant(false));
      Renderable(s, d, c) && Drops(s, d, c) && StatementOf(s, d, 0, c) == Statement([Atom(Falsehood, [])], [Str("%x%")])
  {
    var leaf := Contains("content", "x");
    var c := Logical(AndOf, leaf, Constant(false));
    assert Renderable(s, d, leaf) && Renderable(s, d, Constant(false));
    var t: Token<Value> := Atom(TextLike("content"), [Str("%x%")]);
    assert Pattern(Anywhere, "x") == "%x%";
    assert LeafText(s, d, leaf) == Some([t]);
    assert Params([t]) == [Str("%x%")] by { assert [t][1..] == []; }
    assert ArgsOf(s, d, leaf) == [Str("%x%")] && ArgsOf(s, d, Constant(false)) == [];
  }
}
