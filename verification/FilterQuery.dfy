/** Appending filters to the WHERE clause of a query, and what the whole clause selects. */
module FilterQuery {
  import opened FilterArgs
  import opened FilterIr
  import opened FilterNames
  import opened FilterRender
  import opened FilterSql
  import opened FilterStatement
  import opened FilterTags
  import opened Texts

  datatype Clauses = Clauses(where: seq<Marked>, args: seq<Value>)

  // ----- Appending -----

  predicate AllRenderable(s: Schema, d: Dialect, cs: seq<Condition>) {
    forall c | c in cs :: Renderable(s, d, c)
  }

  /** One more filter: its arguments are numbered from the end of those that are there; an empty text adds nothing. */
  function AppendOne(s: Schema, d: Dialect, q: Clauses, c: Condition): Clauses
    requires Renderable(s, d, c)
  {
    var st := StatementOf(s, d, |q.args|, c);
    if st.sql == [] then q else Clauses(q.where + [InParens(st.sql)], q.args + st.args)
  }

  function AppendAll(s: Schema, d: Dialect, q: Clauses, cs: seq<Condition>): Clauses
    requires AllRenderable(s, d, cs)
  {
    if cs == [] then q
    else
      var last := |cs| - 1;
      AppendOne(s, d, AppendAll(s, d, q, cs[..last]), cs[last])
  }

  predicate Usable(s: Schema, d: Dialect, compile: string -> Option<Condition>, filter: string) {
    compile(filter).Some? && Renderable(s, d, compile(filter).value)
  }

  /** The trees of the filters before the first that does not compile. */
  function Accepted(s: Schema, d: Dialect, compile: string -> Option<Condition>,
                    filters: seq<string>): (cs: seq<Condition>)
    ensures AllRenderable(s, d, cs) && |cs| <= |filters|
  {
    if filters == [] || !Usable(s, d, compile, filters[0]) then []
    else [compile(filters[0]).value] + Accepted(s, d, compile, filters[1..])
  }

  lemma {:induction false} AcceptedPrefix(s: Schema, d: Dialect, compile: string -> Option<Condition>,
                                          filters: seq<string>, n: nat)
    requires n <= |filters| && forall i | 0 <= i < n :: Usable(s, d, compile, filters[i])
    ensures |Accepted(s, d, compile, filters)| >= n
    ensures forall i | 0 <= i < n :: compile(filters[i]) == Some(Accepted(s, d, compile, filters)[i])
    ensures n < |filters| && !Usable(s, d, compile, filters[n]) ==> |Accepted(s, d, compile, filters)| == n
  {
    hide Renderable;
    if n > 0 {
      AcceptedPrefix(s, d, compile, filters[1..], n - 1);
    }
  }

  class Query {
    var where: seq<Marked>
    var args: seq<Value>

    constructor (where: seq<Marked>, args: seq<Value>)
      ensures this.where == where && this.args == args
    {
      this.where, this.args := where, args;
    }

    function Value(): Clauses
      reads this
    {
      Clauses(where, args)
    }

    /** Appends filters in order up to the first that does not compile. */
    method AppendConditions(s: Schema, d: Dialect, compile: string -> Option<Condition>, filters: seq<string>)
      returns (ok: bool)
      modifies this
      ensures Value() == AppendAll(s, d, old(Value()), Accepted(s, d, compile, filters))
      ensures ok <==> forall filter | filter in filters :: Usable(s, d, compile, filter)
    {
      hide StatementOf;
      ghost var cs := Accepted(s, d, compile, filters);
      for i := 0 to |filters|
        invariant forall j | 0 <= j < i :: Usable(s, d, compile, filters[j])
        invariant i <= |cs| && Value() == AppendAll(s, d, old(Value()), cs[..i])
      {
        AcceptedPrefix(s, d, compile, filters, i);
        var c := compile(filters[i]);
        assert filters[i] in filters;
        if c.None? {
          assert cs[..i] == cs;
          return false;
        }
        var renderer := new Renderer(s, d, |args|);
        var st := renderer.Render(c.value);
        if st.None? {
          assert cs[..i] == cs;
          return false;
        }
        AcceptedPrefix(s, d, compile, filters, i + 1);
        assert cs[..i + 1][..i] == cs[..i] && cs[i] == c.value;
        if st.value.sql != [] {
          where := where + [InParens(st.value.sql)];
          args := args + st.value.args;
        }
      }
      AcceptedPrefix(s, d, compile, filters, |filters|);
      assert cs[..|filters|] == cs;
      ok := true;
    }
  }

  // ----- Which filters add a fragment -----

  predicate Kept(c: Condition) { FoldOf(c) != Always }

  lemma LeafTextIsSomething(s: Schema, d: Dialect, c: Condition)
    requires c.IsLeaf() && LeafText(s, d, c).Some?
    ensures LeafText(s, d, c).value != []
  {
  }

  lemma {:induction false} RenderingIsSomething(s: Schema, d: Dialect, offset: nat, n: nat, c: Condition)
    requires Renderable(s, d, c) && FoldOf(c) == Depends
    ensures Rendering(s, d, offset, n, c).sql != []
    decreases c
  {
    hide LeafText;
    match c
    case Logical(op, a, b) =>
      var m := n + |ArgsOf(s, d, a)|;
      Shapes(s, d, offset, n, a);
      Shapes(s, d, offset, m, b);
      if FoldOf(a) == Depends {
        RenderingIsSomething(s, d, offset, n, a);
      }
      if FoldOf(b) == Depends {
        RenderingIsSomething(s, d, offset, m, b);
      }
    case NotOf(a) => Shapes(s, d, offset, n, a);
    case _ => LeafTextIsSomething(s, d, c);
  }

  /** A filter adds nothing to the clause exactly if its constants make it true. */
  lemma SkippedIffAlways(s: Schema, d: Dialect, offset: nat, c: Condition)
    requires Renderable(s, d, c)
    ensures StatementOf(s, d, offset, c).sql == [] <==> !Kept(c)
  {
    hide Rendering, Ideal;
    Shapes(s, d, offset, 0, c);
    if FoldOf(c) == Depends {
      RenderingIsSomething(s, d, offset, 0, c);
    }
  }

  function FragmentOf(s: Schema, d: Dialect, c: Condition): Text
    requires Renderable(s, d, c)
  {
    InParens(FinalSql(Ideal(s, d, c)))
  }

  /** The fragments of the filters that are kept, with each value in its place. */
  function Fragments(s: Schema, d: Dialect, cs: seq<Condition>): seq<Text>
    requires AllRenderable(s, d, cs)
  {
    if cs == [] then []
    else
      var last := |cs| - 1;
      Fragments(s, d, cs[..last]) + (if Kept(cs[last]) then [FragmentOf(s, d, cs[last])] else [])
  }

  // ----- Numbered placeholders -----

  /** More arguments at the end change nothing. */
  lemma DenotesMore(ts: Marked, vs: Text, args: seq<Value>, more: seq<Value>)
    requires Denotes(ts, vs, args)
    ensures Denotes(ts, vs, args + more)
  {
    forall i | 0 <= i < |ts|
      ensures TokenDenotes(ts[i], vs[i], args + more)
    {
      assert TokenDenotes(ts[i], vs[i], args);
    }
  }

  /** A text has one reading under given arguments. */
  lemma DenotesOne(ts: Marked, vs: Text, ws: Text, args: seq<Value>)
    requires Denotes(ts, vs, args) && Denotes(ts, ws, args)
    ensures vs == ws
  {
    forall i | 0 <= i < |ts|
      ensures vs[i] == ws[i]
    {
      assert TokenDenotes(ts[i], vs[i], args) && TokenDenotes(ts[i], ws[i], args);
      if ts[i].Atom? {
        assert vs[i].params == ws[i].params;
      }
    }
  }

  lemma ParensDenote(ts: Marked, vs: Text, args: seq<Value>)
    requires Denotes(ts, vs, args)
    ensures Denotes(InParens(ts), InParens(vs), args)
  {
    hide TokenDenotes;
    WordsDenote(args);
  }

  lemma NumberedFragment(s: Schema, q: Clauses, c: Condition)
    requires Renderable(s, Postgres, c)
    ensures var st := StatementOf(s, Postgres, |q.args|, c);
      Denotes(InParens(st.sql), FragmentOf(s, Postgres, c), q.args + st.args)
  {
    hide Denotes, StatementOf, Ideal;
    var st := StatementOf(s, Postgres, |q.args|, c);
    NumberedStatement(s, c, q.args, []);
    assert q.args + st.args + [] == q.args + st.args;
    ParensDenote(st.sql, FinalSql(Ideal(s, Postgres, c)), q.args + st.args);
  }

  lemma DenotesJoined(a: Marked, x: Text, b: Marked, y: Text, args: seq<Value>)
    requires Denotes(a, x, args) && Denotes(b, y, args)
    ensures Denotes(a + [AndWord] + b, x + [AndWord] + y, args)
  {
    hide TokenDenotes;
    WordsDenote(args);
  }

  /** Every `$k` of the whole clause denotes the value it was rendered for, in what was there and in all appended
      filters, whatever folding threw away. */
  lemma {:induction false} NumberedClause(s: Schema, q: Clauses, texts: seq<Text>, cs: seq<Condition>)
    requires AllRenderable(s, Postgres, cs) && q.where != [] && texts != []
    requires Denotes(Joined(AndWord, q.where), Joined(AndWord, texts), q.args)
    ensures var after := AppendAll(s, Postgres, q, cs);
      after.where != [] &&
        Denotes(Joined(AndWord, after.where), Joined(AndWord, texts + Fragments(s, Postgres, cs)), after.args)
    decreases |cs|
  {
    hide Denotes, StatementOf, FragmentOf, Joined;
    if cs == [] {
      assert texts + [] == texts;
    } else {
      var front, c := cs[..|cs| - 1], cs[|cs| - 1];
      NumberedClause(s, q, texts, front);
      var before, soFar := AppendAll(s, Postgres, q, front), texts + Fragments(s, Postgres, front);
      var st := StatementOf(s, Postgres, |before.args|, c);
      SkippedIffAlways(s, Postgres, |before.args|, c);
      if Kept(c) {
        NumberedFragment(s, before, c);
        DenotesMore(Joined(AndWord, before.where), Joined(AndWord, soFar), before.args, st.args);
        DenotesJoined(Joined(AndWord, before.where), Joined(AndWord, soFar), InParens(st.sql),
                      FragmentOf(s, Postgres, c), before.args + st.args);
        JoinedSnoc(AndWord, before.where, InParens(st.sql));
        JoinedSnoc(AndWord, soFar, FragmentOf(s, Postgres, c));
        assert texts + Fragments(s, Postgres, cs) == soFar + [FragmentOf(s, Postgres, c)];
      } else {
        assert texts + Fragments(s, Postgres, cs) == soFar;
      }
    }
  }

  /** Every argument is named by some `$k` of the clause. */
  ghost predicate AllNamed(q: Clauses) { Covers(Names(Joined(AndWord, q.where)), 0, |q.args|) }

  ghost predicate NamesWithin(q: Clauses) { Within(Names(Joined(AndWord, q.where)), 0, |q.args|) }

  /** Appended filters leave no argument without a name exactly if none was there and no kept filter drops one. */
  lemma {:induction false} NamedClause(s: Schema, q: Clauses, cs: seq<Condition>)
    requires AllRenderable(s, Postgres, cs) && q.where != [] && NamesWithin(q)
    ensures var after := AppendAll(s, Postgres, q, cs);
      after.where != [] && NamesWithin(after) && (AllNamed(after) <==> AllNamed(q) && !AnyDrops(s, Postgres, cs))
    decreases |cs|
  {
    hide StatementOf, Drops, Names, Joined, InParens;
    if cs != [] {
      var front, c := cs[..|cs| - 1], cs[|cs| - 1];
      NamedClause(s, q, front);
      var before := AppendAll(s, Postgres, q, front);
      var st := StatementOf(s, Postgres, |before.args|, c);
      SkippedIffAlways(s, Postgres, |before.args|, c);
      NamedStatement(s, |before.args|, c);
      assert forall x :: x in cs <==> x in front || x == c;
      if Kept(c) {
        JoinedSnoc(AndWord, before.where, InParens(st.sql));
        NamesJoined(Joined(AndWord, before.where), AndWord, InParens(st.sql));
        NamesInParens(st.sql);
        CoversBoth(Names(Joined(AndWord, before.where)), |before.args|, Names(st.sql), |st.args|);
      }
    }
  }

  lemma CoversBoth(a: seq<Placeholder>, m: nat, b: seq<Placeholder>, n: nat)
    requires Within(a, 0, m) && Within(b, m, n)
    ensures Within(a + b, 0, m + n) && (Covers(a + b, 0, m + n) <==> Covers(a, 0, m) && Covers(b, m, n))
  {
    forall k: nat
      ensures 0 < k <= m ==> (Dollar(k) in a + b <==> Dollar(k) in a)
      ensures m < k <= m + n ==> (Dollar(k) in a + b <==> Dollar(k) in b)
    {
    }
  }

  // ----- Question marks -----

  /** Marks of a text that can be bound stay bound to the same values when more text and arguments follow. */
  lemma {:induction false} BindConcat(a: Marked, p: seq<Value>, b: Marked, q: seq<Value>)
    requires BindMarks(a, p).Some?
    ensures BindMarks(a + b, p + q) ==
      if BindMarks(b, q).None? then None else Some(BindMarks(a, p).value + BindMarks(b, q).value)
  {
    if a == [] {
      assert a + b == b && p + q == q;
      if BindMarks(b, q).Some? {
        assert [] + BindMarks(b, q).value == BindMarks(b, q).value;
      }
    } else {
      hide Marks, BindToken;
      var k := Marks(a[0]);
      assert (a + b)[0] == a[0] && (a + b)[1..] == a[1..] + b;
      assert (p + q)[..k] == p[..k] && (p + q)[k..] == p[k..] + q;
      BindConcat(a[1..], p[k..], b, q);
      var head := [BindToken(a[0], p[..k])];
      if BindMarks(b, q).Some? {
        assert head + (BindMarks(a[1..], p[k..]).value + BindMarks(b, q).value) ==
               (head + BindMarks(a[1..], p[k..]).value) + BindMarks(b, q).value;
      }
    }
  }

  lemma BindWord(b: Marked, q: seq<Value>)
    ensures BindMarks([AndWord] + b, q) ==
      if BindMarks(b, q).None? then None else Some([AndWord] + BindMarks(b, q).value)
  {
    assert ([AndWord] + b)[1..] == b && q[0..] == q;
  }

  lemma MarkedFragment(s: Schema, d: Dialect, offset: nat, c: Condition)
    requires Renderable(s, d, c) && d != Postgres
    ensures var st := StatementOf(s, d, offset, c);
      BindMarks(InParens(st.sql), st.args) == if Drops(s, d, c) then None else Some(FragmentOf(s, d, c))
  {
    hide Ideal, Rendering, Drops, BindMarks, Erase, Params, ArgsOf, InParens;
    var ideal := FinalSql(Ideal(s, d, c));
    Shapes(s, d, offset, 0, c);
    RenderingErases(s, d, offset, 0, c);
    EraseFalsehood();
    ParensErase(ideal);
    ArgsAreParams(s, d, c);
    BindErased(InParens(ideal), ArgsOf(s, d, c));
  }

  /** Folding drops an argument of a filter that is kept. */
  predicate AnyDrops(s: Schema, d: Dialect, cs: seq<Condition>)
    requires AllRenderable(s, d, cs)
  {
    exists c :: c in cs && Kept(c) && Drops(s, d, c)
  }

  /** Binding marks to arguments in order gives every mark of the clause its value if no kept filter drops an
      argument. */
  lemma {:induction false} MarkedClause(s: Schema, d: Dialect, q: Clauses, texts: seq<Text>, cs: seq<Condition>)
    requires AllRenderable(s, d, cs) && d != Postgres && !AnyDrops(s, d, cs)
    requires q.where != [] && texts != [] && BindMarks(Joined(AndWord, q.where), q.args) == Some(Joined(AndWord, texts))
    ensures var after := AppendAll(s, d, q, cs);
      after.where != [] &&
        BindMarks(Joined(AndWord, after.where), after.args) == Some(Joined(AndWord, texts + Fragments(s, d, cs)))
    decreases |cs|
  {
    hide StatementOf, FragmentOf, BindMarks, Joined, Drops;
    if cs == [] {
      assert texts + [] == texts;
    } else {
      var front, c := cs[..|cs| - 1], cs[|cs| - 1];
      MarkedClause(s, d, q, texts, front);
      var before := AppendAll(s, d, q, front);
      var soFar := texts + Fragments(s, d, front);
      SkippedIffAlways(s, d, |before.args|, c);
      MarkedFragment(s, d, |before.args|, c);
      if Kept(c) {
        var st := StatementOf(s, d, |before.args|, c);
        JoinBinds(before, soFar, InParens(st.sql), st.args, FragmentOf(s, d, c));
        assert texts + Fragments(s, d, cs) == soFar + [FragmentOf(s, d, c)];
      } else {
        assert texts + Fragments(s, d, cs) == soFar;
      }
    }
  }

  lemma JoinBinds(q: Clauses, texts: seq<Text>, fragment: Marked, args: seq<Value>, text: Text)
    requires q.where != [] && texts != [] && BindMarks(Joined(AndWord, q.where), q.args) == Some(Joined(AndWord, texts))
    requires BindMarks(fragment, args) == Some(text)
    ensures BindMarks(Joined(AndWord, q.where + [fragment]), q.args + args) == Some(Joined(AndWord, texts + [text]))
  {
    hide BindMarks, Joined;
    var a, x := Joined(AndWord, q.where), Joined(AndWord, texts);
    JoinedSnoc(AndWord, q.where, fragment);
    JoinedSnoc(AndWord, texts, text);
    BindWord(fragment, args);
    BindConcat(a, q.args, [AndWord] + fragment, args);
    Associates(a, [AndWord], fragment);
    Associates(x, [AndWord], text);
  }

  // ----- When marks and arguments disagree -----

  lemma {:induction false} MarkCountConcat(a: Marked, b: Marked)
    ensures MarkCount(a + b) == MarkCount(a) + MarkCount(b)
  {
    if a == [] {
      assert a + b == b;
    } else {
      assert (a + b)[0] == a[0] && (a + b)[1..] == a[1..] + b;
      MarkCountConcat(a[1..], b);
    }
  }

  /** A statement never has fewer arguments than marks, and has more exactly if folding drops one. */
  lemma SpareArguments(s: Schema, d: Dialect, offset: nat, c: Condition)
    requires Renderable(s, d, c) && d != Postgres
    ensures var st := StatementOf(s, d, offset, c);
      |st.args| >= MarkCount(InParens(st.sql)) && (|st.args| > MarkCount(InParens(st.sql)) <==> Drops(s, d, c))
  {
    hide Ideal, Rendering, Drops, Erase, Params, ArgsOf, InParens, MarkCount;
    var ideal := FinalSql(Ideal(s, d, c));
    Shapes(s, d, offset, 0, c);
    RenderingErases(s, d, offset, 0, c);
    EraseFalsehood();
    ParensErase(ideal);
    ArgsAreParams(s, d, c);
    ErasedCounts(InParens(ideal));
  }

  lemma {:induction false} SpareInClause(s: Schema, d: Dialect, q: Clauses, cs: seq<Condition>)
    requires AllRenderable(s, d, cs) && d != Postgres && q.where != [] &&
      |q.args| == MarkCount(Joined(AndWord, q.where))
    ensures var after := AppendAll(s, d, q, cs);
      && after.where != [] && |after.args| >= MarkCount(Joined(AndWord, after.where))
      && (|after.args| > MarkCount(Joined(AndWord, after.where)) <==> AnyDrops(s, d, cs))
    decreases |cs|
  {
    hide StatementOf, Drops, MarkCount, Joined, InParens;
    if cs != [] {
      var front, c := cs[..|cs| - 1], cs[|cs| - 1];
      SpareInClause(s, d, q, front);
      var before := AppendAll(s, d, q, front);
      SkippedIffAlways(s, d, |before.args|, c);
      SpareArguments(s, d, |before.args|, c);
      assert forall x :: x in cs <==> x in front || x == c;
      var fragment := InParens(StatementOf(s, d, |before.args|, c).sql);
      JoinedSnoc(AndWord, before.where, fragment);
      MarkCountConcat(Joined(AndWord, before.where) + [AndWord], fragment);
      MarkCountConcat(Joined(AndWord, before.where), [AndWord]);
      AndWordHasNoMark();
    }
  }

  lemma AndWordHasNoMark()
    ensures MarkCount([AndWord]) == 0
  {
    var t: Token<Placeholder> := AndWord;
    assert [t][1..] == [];
  }

  /** The marks of the clause get the values they were rendered for exactly if no kept filter drops an argument; else
      there are more arguments than marks. */
  lemma MarkedClauseIff(s: Schema, d: Dialect, q: Clauses, texts: seq<Text>, cs: seq<Condition>)
    requires AllRenderable(s, d, cs) && d != Postgres
    requires q.where != [] && texts != [] && BindMarks(Joined(AndWord, q.where), q.args) == Some(Joined(AndWord, texts))
    ensures var after := AppendAll(s, d, q, cs);
      BindMarks(Joined(AndWord, after.where), after.args) ==
        if AnyDrops(s, d, cs) then None else Some(Joined(AndWord, texts + Fragments(s, d, cs)))
  {
    hide AppendAll, Joined, BindMarks, MarkCount, AnyDrops, Fragments;
    var after := AppendAll(s, d, q, cs);
    BindCounts(Joined(AndWord, q.where), q.args);
    SpareInClause(s, d, q, cs);
    if AnyDrops(s, d, cs) {
      BindCounts(Joined(AndWord, after.where), after.args);
    } else {
      MarkedClause(s, d, q, texts, cs);
    }
  }

  // ----- What the clause selects -----

  /** The conjunction of what all filters find, by Kleene's three-valued logic. */
  ghost function Conjoined(g: Engine, d: Dialect, s: Schema, r: Row, cs: seq<Condition>): Truth {
    if cs == [] then True
    else And(Conjoined(g, d, s, r, cs[..|cs| - 1]), TreeFinds(g, d, s, r, cs[|cs| - 1]))
  }

  /** The fragment of a kept filter. */
  lemma FragmentMeaning(g: Engine, d: Dialect, s: Schema, r: Row, c: Condition) returns (e: Sql<Value>)
    requires Renderable(s, d, c) && Kept(c)
    ensures Breaks(d, c) ==> Broken(d, FragmentOf(s, d, c))
    ensures !Breaks(d, c) ==> Unit(d, FragmentOf(s, d, c), e) && Eval(g, r, e) == TreeFinds(g, d, s, r, c)
  {
    hide Unit, Broken, Ideal, TreeFinds, Renderable;
    e := TreeMeaning(g, d, s, r, c);
    FoldIsTruth(g, d, s, r, c);
    NoBreak(d, c);
    var ts := FinalSql(Ideal(s, d, c));
    if FoldOf(c) == Never {
      e := Leaf(Falsehood, []);
      UnitAtom<Value>(d, Falsehood, []);
    }
    UnitInParens(d, ts, e);
  }

  predicate AnyBreaks(d: Dialect, cs: seq<Condition>) { exists c :: c in cs && Breaks(d, c) }

  lemma {:induction false} ClauseChain(g: Engine, d: Dialect, s: Schema, r: Row, texts: seq<Text>, own: Sql<Value>,
                                       cs: seq<Condition>) returns (e: Sql<Value>)
    requires AllRenderable(s, d, cs) && texts != [] && AndChain(d, Joined(AndWord, texts), own)
    ensures var ts := Joined(AndWord, texts + Fragments(s, d, cs));
      if AnyBreaks(d, cs) then BrokenAnd(d, ts)
      else AndChain(d, ts, e) && Eval(g, r, e) == And(Eval(g, r, own), Conjoined(g, d, s, r, cs))
    decreases |cs|
  {
    hide Unit, Broken, FragmentOf, TreeFinds, Breaks, AndChain, BrokenAnd, Renderable, Joined, Eval, And;
    if cs == [] {
      e := own;
      assert texts + [] == texts;
      WithTrue(Eval(g, r, own));
    } else {
      var front, c := cs[..|cs| - 1], cs[|cs| - 1];
      var before := ClauseChain(g, d, s, r, texts, own, front);
      assert forall x :: x in cs <==> x in front || x == c;
      var soFar := texts + Fragments(s, d, front);
      if Kept(c) {
        e := ChainStep(g, d, s, r, soFar, before, AnyBreaks(d, front), c);
        AndAssociates(Eval(g, r, own), Conjoined(g, d, s, r, front), TreeFinds(g, d, s, r, c));
        assert texts + Fragments(s, d, cs) == soFar + [FragmentOf(s, d, c)];
      } else {
        e := before;
        NoBreak(d, c);
        FoldIsTruth(g, d, s, r, c);
        WithTrue(Conjoined(g, d, s, r, front));
        assert texts + Fragments(s, d, cs) == soFar;
      }
    }
  }

  lemma ChainStep(g: Engine, d: Dialect, s: Schema, r: Row, soFar: seq<Text>, before: Sql<Value>, broken: bool,
                  c: Condition)
    returns (e: Sql<Value>)
    requires Renderable(s, d, c) && Kept(c) && soFar != []
    requires if broken then BrokenAnd(d, Joined(AndWord, soFar)) else AndChain(d, Joined(AndWord, soFar), before)
    ensures var ts := Joined(AndWord, soFar + [FragmentOf(s, d, c)]);
      if broken || Breaks(d, c) then BrokenAnd(d, ts)
      else AndChain(d, ts, e) && Eval(g, r, e) == And(Eval(g, r, before), TreeFinds(g, d, s, r, c))
  {
    hide Unit, Broken, FragmentOf, TreeFinds, Breaks, AndChain, BrokenAnd, Renderable, Joined;
    var last := FragmentMeaning(g, d, s, r, c);
    e := Both(before, last);
    JoinedSnoc(AndWord, soFar, FragmentOf(s, d, c));
    if broken || Breaks(d, c) {
      AndChainBreaks(d, Joined(AndWord, soFar), before, FragmentOf(s, d, c));
    } else {
      AndChainGoesOn(d, Joined(AndWord, soFar), before, FragmentOf(s, d, c), last);
    }
  }

  lemma WithTrue(a: Truth)
    ensures And(a, True) == a
  {
  }

  lemma AndAssociates(a: Truth, b: Truth, c: Truth)
    ensures And(And(a, b), c) == And(a, And(b, c))
  {
  }

  /** The clause of a query with its own condition and any filters: it can be read exactly if no search in an empty list
      survives folding, and then it has the value of the conjunction of the condition and all filters. */
  lemma ClauseMeaning(g: Engine, d: Dialect, s: Schema, r: Row, texts: seq<Text>, own: Sql<Value>, cs: seq<Condition>)
    returns (e: Sql<Value>)
    requires AllRenderable(s, d, cs) && texts != [] && AndChain(d, Joined(AndWord, texts), own)
    ensures Parse(d, Joined(AndWord, texts + Fragments(s, d, cs))) == if AnyBreaks(d, cs) then None else Some(e)
    ensures !AnyBreaks(d, cs) ==> Eval(g, r, e) == And(Eval(g, r, own), Conjoined(g, d, s, r, cs))
  {
    hide Fragments, Joined, AndChain, BrokenAnd, AnyBreaks, Eval, Conjoined;
    e := ClauseChain(g, d, s, r, texts, own, cs);
    ParseChain(d, Joined(AndWord, texts + Fragments(s, d, cs)), e);
  }

  // ----- The query as the database gets it -----

  /** With its arguments the clause is the given text. */
  ghost predicate Bound(d: Dialect, q: Clauses, text: Text) {
    if d == Postgres then Denotes(Joined(AndWord, q.where), text, q.args)
    else BindMarks(Joined(AndWord, q.where), q.args) == Some(text)
  }

  /** A query that is bound to its own text is bound to that text and those of the filters, in Postgres always and else
      exactly if no kept filter drops an argument; then it is bound to nothing. */
  lemma ClauseBinds(s: Schema, d: Dialect, q: Clauses, texts: seq<Text>, cs: seq<Condition>)
    requires AllRenderable(s, d, cs) && q.where != [] && texts != [] && Bound(d, q, Joined(AndWord, texts))
    ensures var after := AppendAll(s, d, q, cs);
      forall text :: Bound(d, after, text) <==>
        text == Joined(AndWord, texts + Fragments(s, d, cs)) && (d == Postgres || !AnyDrops(s, d, cs))
  {
    hide AppendAll, Joined, BindMarks, AnyDrops, Fragments, Denotes;
    var after := AppendAll(s, d, q, cs);
    if d == Postgres {
      NumberedClause(s, q, texts, cs);
      forall text | Bound(d, after, text)
        ensures text == Joined(AndWord, texts + Fragments(s, d, cs))
      {
        DenotesOne(Joined(AndWord, after.where), text, Joined(AndWord, texts + Fragments(s, d, cs)), after.args);
      }
    } else {
      MarkedClauseIff(s, d, q, texts, cs);
    }
  }

  /** Whatever text a query is bound to after filters were appended, it can be read exactly if no search in an empty
      list survives, and then it has the value of the conjunction of the query's own condition and what the filters
      find. */
  lemma QueryMeaning(g: Engine, d: Dialect, s: Schema, r: Row, q: Clauses, texts: seq<Text>, own: Sql<Value>,
                     cs: seq<Condition>, text: Text) returns (e: Sql<Value>)
    requires AllRenderable(s, d, cs) && q.where != [] && texts != []
    requires Bound(d, q, Joined(AndWord, texts)) && AndChain(d, Joined(AndWord, texts), own)
    requires Bound(d, AppendAll(s, d, q, cs), text)
    ensures Parse(d, text) == if AnyBreaks(d, cs) then None else Some(e)
    ensures !AnyBreaks(d, cs) ==> Eval(g, r, e) == And(Eval(g, r, own), Conjoined(g, d, s, r, cs))
  {
    hide AppendAll, Joined, Fragments, AndChain, Parse, Eval, Conjoined, Bound, AnyDrops, AnyBreaks;
    ClauseBinds(s, d, q, texts, cs);
    e := ClauseMeaning(g, d, s, r, texts, own, cs);
  }

  // ----- Negation -----

  /** A tree and its negation as conditions of their own: the negation selects exactly the other rows where the tree is
      not unknown. */
  lemma Complement(g: Engine, d: Dialect, s: Schema, r: Row, c: Condition) returns (e: Sql<Value>, negated: Sql<Value>)
    requires Renderable(s, d, c) && FoldOf(c) == Depends && !Breaks(d, c)
    ensures Parse(d, Ideal(s, d, c).sql) == Some(e) && Parse(d, Ideal(s, d, NotOf(c)).sql) == Some(negated)
    ensures Eval(g, r, e) == TreeFinds(g, d, s, r, c)
    ensures (Eval(g, r, negated) == True <==> Eval(g, r, e) != True) <==> Eval(g, r, e) != Unknown
  {
    hide Unit, Parse, Negated, TreeFinds, Breaks, AndChain, OrChain, LeafText;
    e := TreeMeaning(g, d, s, r, c);
    negated := Negation(e);
    var ts := Ideal(s, d, c).sql;
    UnitNegated(d, ts, e);
    UnitIsChain(d, ts, e);
    UnitIsChain(d, Negated(ts), negated);
    ParseChain(d, ts, e);
    ParseChain(d, Negated(ts), negated);
  }

  /** On every row of every database the text of an `exists` is true or false, whatever its pattern and whatever the row
      holds, so its negation selects exactly the rows that it does not select. */
  lemma ExistsComplement(g: Engine, d: Dialect, s: Schema, r: Row, f: string, p: Predicate)
    returns (e: Sql<Value>, negated: Sql<Value>)
    requires HasKind(s, f, JsonList)
    ensures var c := Exists(f, p);
      Parse(d, Ideal(s, d, c).sql) == Some(e) && Parse(d, Ideal(s, d, NotOf(c)).sql) == Some(negated)
    ensures Eval(g, r, e) != Unknown && (Eval(g, r, negated) == True <==> Eval(g, r, e) != True)
  {
    hide Parse, Eval, Ideal, FindsTag, ExistsText;
    e, negated := Complement(g, d, s, r, Exists(f, p));
  }

  /** A membership test has no guard: its negation selects exactly the other rows if and only if the list is there. */
  lemma MembershipComplement(g: Engine, d: Dialect, s: Schema, r: Row, f: string, v: string)
    returns (e: Sql<Value>, negated: Sql<Value>)
    requires HasKind(s, f, JsonList)
    ensures var c := ElementIn(LiteralValue(Text(v)), f);
      Parse(d, Ideal(s, d, c).sql) == Some(e) && Parse(d, Ideal(s, d, NotOf(c)).sql) == Some(negated)
    ensures (Eval(g, r, negated) == True <==> Eval(g, r, e) != True) <==> r.list(f).Some?
  {
    hide Parse, Eval, Ideal, FindsMember;
    e, negated := Complement(g, d, s, r, ElementIn(LiteralValue(Text(v)), f));
  }

  /** The same for `tag in` a list of strings that is not empty. */
  lemma TagListComplement(g: Engine, d: Dialect, s: Schema, r: Row, values: seq<ValueExpr>)
    returns (e: Sql<Value>, negated: Sql<Value>)
    requires ResolveAlias(s, "tag").Some? && TextsOf(values).Some? && values != []
    ensures var c := In(FieldRef("tag"), values);
      Parse(d, Ideal(s, d, c).sql) == Some(e) && Parse(d, Ideal(s, d, NotOf(c)).sql) == Some(negated)
    ensures (Eval(g, r, negated) == True <==> Eval(g, r, e) != True) <==>
      r.list(ResolveAlias(s, "tag").value.name).Some?
  {
    hide Parse, Eval, Ideal, FindsListed, TagListText;
    e, negated := Complement(g, d, s, r, In(FieldRef("tag"), values));
  }
}
