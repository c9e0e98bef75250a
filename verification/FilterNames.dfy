/** Numbered placeholders: which arguments of a statement are named by some `$k`. */
module FilterNames {
  import opened FilterArgs
  import opened FilterIr
  import opened FilterRender
  import opened FilterSql
  import opened Sets
  import opened Texts

  function NamesOf(t: Token<Placeholder>): seq<Placeholder> { if t.Atom? then t.params else [] }

  /** The placeholders of a text from left to right. */
  function Names(ts: seq<Token<Placeholder>>): seq<Placeholder> {
    if ts == [] then [] else NamesOf(ts[0]) + Names(ts[1..])
  }

  /** `$from` and so on. */
  function Numbers(from: nat, n: nat): seq<Placeholder> { seq(n, i requires 0 <= i < n => Dollar(from + i)) }

  lemma NumbersConcat(from: nat, m: nat, n: nat)
    ensures Numbers(from, m) + Numbers(from + m, n) == Numbers(from, m + n)
  {
  }

  lemma {:induction false} NamesConcat(a: seq<Token<Placeholder>>, b: seq<Token<Placeholder>>)
    ensures Names(a + b) == Names(a) + Names(b)
  {
    if a == [] {
      assert a + b == b;
    } else {
      hide NamesOf;
      Peel(a, b);
      NamesConcat(a[1..], b);
      Associates(NamesOf(a[0]), Names(a[1..]), Names(b));
    }
  }

  lemma NamesOfWord(w: Token<Placeholder>)
    requires !w.Atom?
    ensures Names([w]) == []
  {
    assert [w][1..] == [];
  }

  lemma NoNames()
    ensures Names([]) == [] && Names([Atom(Falsehood, [])]) == []
  {
    var t: Token<Placeholder> := Atom(Falsehood, []);
    assert [t][1..] == [];
  }

  lemma NamesJoined(a: seq<Token<Placeholder>>, w: Token<Placeholder>, b: seq<Token<Placeholder>>)
    requires !w.Atom?
    ensures Names(a + [w] + b) == Names(a) + Names(b)
  {
    hide Names;
    NamesConcat(a + [w], b);
    NamesConcat(a, [w]);
    NamesOfWord(w);
    assert Names(a) + [] == Names(a);
  }

  lemma NamesInParens(a: seq<Token<Placeholder>>)
    ensures Names(InParens(a)) == Names(a) && Names(Negated(a)) == Names(a)
  {
    hide Names;
    NamesConcat([LeftParen] + a, [RightParen]);
    NamesConcat([LeftParen], a);
    NamesConcat([NotWord], InParens(a));
    NamesOfWord(LeftParen);
    NamesOfWord(RightParen);
    NamesOfWord(NotWord);
    assert [] + Names(a) == Names(a) && Names(a) + [] == Names(a) && [] + Names(InParens(a)) == Names(InParens(a));
  }

  lemma LabelTokenNames(offset: nat, n: nat, t: Token<Value>)
    ensures NamesOf(LabelToken(Postgres, offset, n, t)) == Numbers(offset + n + 1, |ParamsOf(t)|)
  {
    if t.Atom? {
      var l := LabelToken(Postgres, offset, n, t);
      forall i | 0 <= i < |t.params|
        ensures l.params[i] == Numbers(offset + n + 1, |ParamsOf(t)|)[i]
      {
        assert l.params[i] == Place(Postgres, offset, n + i);
      }
    }
  }

  lemma {:induction false} LabelNames(offset: nat, n: nat, ts: seq<Token<Value>>)
    ensures Names(Label(Postgres, offset, n, ts)) == Numbers(offset + n + 1, |Params(ts)|)
    decreases |ts|
  {
    if ts != [] {
      hide LabelToken, ParamsOf, NamesOf, Numbers, Params, Label;
      var k := |ParamsOf(ts[0])|;
      ParamsStep(ts);
      LabelStep(Postgres, offset, n, ts);
      LabelTokenNames(offset, n, ts[0]);
      LabelNames(offset, n + k, ts[1..]);
      var marked := Label(Postgres, offset, n, ts);
      assert marked[1..] == Label(Postgres, offset, n + k, ts[1..]);
      NumbersConcat(offset + n + 1, k, |Params(ts[1..])|);
    }
  }

  // ----- The names in a rendering -----

  lemma CombineNames(op: Connective, f: Fold, g: Fold, l: Rendered<Placeholder>, r: Rendered<Placeholder>)
    requires ShapeOf(f, l) && ShapeOf(g, r)
    ensures var absorbing := if op == AndOf then Never else Always;
      Names(Combine(op, l, r).sql) == if f == absorbing || g == absorbing then [] else Names(l.sql) + Names(r.sql)
  {
    hide Names, InParens;
    NoNames();
    NamesJoined(l.sql, AndWord, r.sql);
    NamesJoined(l.sql, OrWord, r.sql);
    NamesInParens(l.sql + [AndWord] + r.sql);
    NamesInParens(l.sql + [OrWord] + r.sql);
  }

  lemma NotNames(f: Fold, l: Rendered<Placeholder>)
    requires ShapeOf(f, l)
    ensures Names(CombineNot(l).sql) == Names(l.sql)
  {
    hide Names, Negated;
    NoNames();
    NamesInParens(l.sql);
  }

  ghost predicate Within(names: seq<Placeholder>, from: nat, n: nat) {
    forall p | p in names :: p.Dollar? && from < p.number <= from + n
  }

  /** A rendering names arguments of its own only, as many as its text has values, and without a drop all in order. */
  lemma {:induction false} RenderingNames(s: Schema, offset: nat, n: nat, c: Condition)
    requires Renderable(s, Postgres, c)
    ensures var names := Names(Rendering(s, Postgres, offset, n, c).sql);
      && |names| == |Params(Ideal(s, Postgres, c).sql)| && Within(names, offset + n, |ArgsOf(s, Postgres, c)|)
      && (!Drops(s, Postgres, c) ==> names == Numbers(offset + n + 1, |ArgsOf(s, Postgres, c)|))
    decreases c
  {
    hide LeafText, Label, Combine, CombineNot, Names, Params;
    NoNames();
    NoParams();
    match c
    case Logical(op, a, b) =>
      var m := n + |ArgsOf(s, Postgres, a)|;
      RenderingNames(s, offset, n, a);
      RenderingNames(s, offset, m, b);
      Shapes(s, Postgres, offset, n, a);
      Shapes(s, Postgres, offset, m, b);
      CombineNames(op, FoldOf(a), FoldOf(b), Rendering(s, Postgres, offset, n, a),
                   Rendering(s, Postgres, offset, m, b));
      CombineParams(op, FoldOf(a), FoldOf(b), Ideal(s, Postgres, a), Ideal(s, Postgres, b));
      NumbersConcat(offset + n + 1, |ArgsOf(s, Postgres, a)|, |ArgsOf(s, Postgres, b)|);
    case NotOf(a) =>
      RenderingNames(s, offset, n, a);
      Shapes(s, Postgres, offset, n, a);
      NotNames(FoldOf(a), Rendering(s, Postgres, offset, n, a));
      NotParams(FoldOf(a), Ideal(s, Postgres, a));
    case Constant(_) =>
    case _ => LabelNames(offset, n, LeafText(s, Postgres, c).value);
  }

  // ----- Which arguments are named -----

  /** The arguments from `from` on, `n` of them, all have a name. */
  ghost predicate Covers(names: seq<Placeholder>, from: nat, n: nat) {
    forall k | from < k <= from + n :: Dollar(k) in names
  }

  lemma {:induction false} AtMost(names: seq<Placeholder>)
    ensures |Elements(names)| <= |names|
  {
    if names != [] {
      var n := |names| - 1;
      AtMost(names[..n]);
      ElementsAppend(names[..n], names[n]);
      assert names[..n] + [names[n]] == names;
    } else {
      NoElements<Placeholder>();
    }
  }

  lemma {:induction false} AtLeast(names: set<Placeholder>, from: nat, n: nat)
    requires forall k | from < k <= from + n :: Dollar(k) in names
    ensures |names| >= n
    decreases n
  {
    if n > 0 {
      var last := Dollar(from + n);
      AtLeast(names - {last}, from, n - 1);
    }
  }

  /** Fewer names than arguments leave an argument without a name. */
  lemma TooFew(names: seq<Placeholder>, from: nat, n: nat)
    requires Covers(names, from, n)
    ensures |names| >= n
  {
    AtMost(names);
    AtLeast(Elements(names), from, n);
  }

  /** Every argument of a statement is named exactly if folding drops none. */
  lemma NamedStatement(s: Schema, offset: nat, c: Condition)
    requires Renderable(s, Postgres, c)
    ensures var st := StatementOf(s, Postgres, offset, c);
      Within(Names(st.sql), offset, |st.args|) && (Covers(Names(st.sql), offset, |st.args|) <==> !Drops(s, Postgres, c))
  {
    hide Ideal, Rendering, Drops, ArgsOf, Names, Params;
    var st := StatementOf(s, Postgres, offset, c);
    NoNames();
    NoParams();
    Shapes(s, Postgres, offset, 0, c);
    RenderingNames(s, offset, 0, c);
    ArgsAreParams(s, Postgres, c);
    if Drops(s, Postgres, c) {
      if Covers(Names(st.sql), offset, |st.args|) {
        TooFew(Names(st.sql), offset, |st.args|);
      }
    } else {
      forall k | offset < k <= offset + |st.args|
        ensures Dollar(k) in Names(st.sql)
      {
        assert Numbers(offset + 1, |st.args|)[k - offset - 1] == Dollar(k);
      }
    }
  }
}
